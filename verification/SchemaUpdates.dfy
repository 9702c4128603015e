// Applying database updates at start-up: dbUpdatesApplyAll and dbUpdate.apply
// (apollo/db_update.go), dbGetSchema (apollo/db.go).
module SchemaUpdates {
  import opened Wrappers

  // How one update goes: its own statements fail, the version cannot be
  // recorded, the legacy patch for the version fails, or all is well.
  datatype Effect = RunFails | InsertFails | PatchFails | Good

  type Effects = int -> Effect

  // One attempt at an update, as far as it got.
  datatype Event =
    | Broke(version: int)
    | RanOnly(version: int)
    | Unpatched(version: int)
    | Complete(version: int)

  // The version was recorded.
  predicate Records(e: Event) { e.Unpatched? || e.Complete? }

  function Attempt(version: int, effect: Effect): Event {
    match effect
    case RunFails => Broke(version)
    case InsertFails => RanOnly(version)
    case PatchFails => Unpatched(version)
    case Good => Complete(version)
  }

  // The list of updates is only ever appended to, and counts up.
  ghost predicate Increasing(updates: seq<int>) {
    forall i, j :: 0 <= i < j < |updates| ==> updates[i] < updates[j]
  }

  // SELECT max(version) FROM schema; 0 when there is none.
  function Max(versions: seq<int>): int {
    if versions == [] then 0
    else if |versions| == 1 then versions[0]
    else
      var m := Max(versions[..|versions| - 1]);
      if m < versions[|versions| - 1] then versions[|versions| - 1] else m
  }

  lemma {:induction false} MaxIsGreatest(versions: seq<int>, v: int)
    requires v in versions
    ensures v <= Max(versions)
    ensures Max(versions) in versions
  {
    if |versions| > 1 {
      var front := versions[..|versions| - 1];
      if v in front {
        MaxIsGreatest(front, v);
      } else {
        MaxIsGreatest(front, front[0]);
      }
    }
  }

  // The first k updates are at most `current`, the others above it.
  ghost predicate Cut(updates: seq<int>, current: int, k: nat) {
    && k <= |updates|
    && (forall i :: 0 <= i < k ==> updates[i] <= current)
    && (forall i :: k <= i < |updates| ==> updates[i] > current)
  }

  // ------------------------------------------------------- whole histories

  // A start-up at which k updates are done: what it attempts.
  function Attempts(updates: seq<int>, k: nat, effects: Effects): seq<Event>
    requires k <= |updates|
    decreases |updates| - k
  {
    if k == |updates| then []
    else if effects(updates[k]).Good? then [Complete(updates[k])] + Attempts(updates, k + 1, effects)
    else [Attempt(updates[k], effects(updates[k]))]
  }

  // A start-up attempts the next updates one by one, up to the first that is not
  // good, or all that are left; each event says how far its update got.
  lemma {:induction false} AttemptsGoOn(updates: seq<int>, k: nat, effects: Effects, i: nat)
    requires k <= |updates|
    requires i < |Attempts(updates, k, effects)|
    ensures k + |Attempts(updates, k, effects)| <= |updates|
    ensures var (v, log) := (updates[k + i], Attempts(updates, k, effects));
            && (effects(v) == RunFails ==> log[i] == Broke(v))
            && (effects(v) == InsertFails ==> log[i] == RanOnly(v))
            && (effects(v) == PatchFails ==> log[i] == Unpatched(v))
            && (effects(v) == Good ==> log[i] == Complete(v))
            && (effects(v) != Good ==> i == |log| - 1)
            && (effects(v) == Good && k + i < |updates| - 1 ==> i < |log| - 1)
    decreases |updates| - k
  {
    if effects(updates[k]).Good? {
      var rest := Attempts(updates, k + 1, effects);
      if i > 0 {
        AttemptsGoOn(updates, k + 1, effects, i - 1);
      } else if rest != [] {
        AttemptsGoOn(updates, k + 1, effects, 0);
      }
    }
  }

  // How many updates are done after these events, if they are a proper journal
  // from `lo` on: the next update is attempted until it is recorded.
  function Position(updates: seq<int>, lo: nat, log: seq<Event>): Option<nat> {
    if log == [] then (if lo <= |updates| then Some(lo) else None)
    else
      match Position(updates, lo, log[..|log| - 1])
      case None => None
      case Some(k) =>
        var e := log[|log| - 1];
        if k >= |updates| || e.version != updates[k] then None
        else Some(if Records(e) then k + 1 else k)
  }

  function Recorded(log: seq<Event>): seq<int> {
    if log == [] then []
    else
      var front := Recorded(log[..|log| - 1]);
      if Records(log[|log| - 1]) then front + [log[|log| - 1].version] else front
  }

  // A proper journal records the next versions in list order, without a gap.
  lemma {:induction false} JournalRecordsNext(updates: seq<int>, lo: nat, log: seq<Event>)
    requires Position(updates, lo, log).Some?
    ensures var k := Position(updates, lo, log).value; lo <= k <= |updates| && Recorded(log) == updates[lo..k]
  {
    if log != [] {
      JournalRecordsNext(updates, lo, log[..|log| - 1]);
      var k := Position(updates, lo, log[..|log| - 1]).value;
      assert updates[lo..k + 1] == updates[lo..k] + [updates[k]];
    }
  }

  lemma {:induction false} PositionBefore(updates: seq<int>, lo: nat, log: seq<Event>, n: nat)
    requires Position(updates, lo, log).Some?
    requires n <= |log|
    ensures Position(updates, lo, log[..n]).Some?
    ensures Position(updates, lo, log[..n]).value <= Position(updates, lo, log).value
    decreases |log|
  {
    if n == |log| {
      assert log[..n] == log;
    } else {
      PositionBefore(updates, lo, log[..|log| - 1], n);
      assert log[..|log| - 1][..n] == log[..n];
    }
  }

  lemma EventAt(updates: seq<int>, lo: nat, log: seq<Event>, i: nat) returns (k: nat)
    requires Position(updates, lo, log).Some?
    requires i < |log|
    ensures Position(updates, lo, log[..i]) == Some(k)
    ensures k < |updates| && log[i].version == updates[k]
    ensures Position(updates, lo, log[..i + 1]) == Some(if Records(log[i]) then k + 1 else k)
  {
    PositionBefore(updates, lo, log, i + 1);
    assert log[..i + 1][..i] == log[..i];
    k := Position(updates, lo, log[..i]).value;
  }

  // An update is never attempted again once it was recorded.
  lemma RecordedOnce(updates: seq<int>, lo: nat, log: seq<Event>, a: nat, b: nat)
    requires Increasing(updates)
    requires Position(updates, lo, log).Some?
    requires a < b < |log|
    ensures log[a].version <= log[b].version
    ensures log[a].version == log[b].version ==> !Records(log[a])
  {
    var j := EventAt(updates, lo, log, a);
    var k := EventAt(updates, lo, log, b);
    PositionBefore(updates, lo, log[..b], a + 1);
    assert log[..b][..a + 1] == log[..a + 1];
  }

  predicate IsGood(v: int, effects: Effects) { effects(v).Good? }

  lemma OneMoreEvent(updates: seq<int>, lo: nat, log: seq<Event>, k: nat, e: Event)
    requires Position(updates, lo, log) == Some(k)
    requires k < |updates| && e.version == updates[k]
    ensures Position(updates, lo, log + [e]) == Some(if Records(e) then k + 1 else k)
  {
  }

  lemma RecordedMore(begin: seq<int>, versions: seq<int>, log: seq<Event>, e: Event)
    requires versions == begin + Recorded(log)
    ensures begin + Recorded(log + [e]) == if Records(e) then versions + [e.version] else versions
  {
    assert (log + [e])[..|log|] == log;
    assert begin + (Recorded(log) + [e.version]) == begin + Recorded(log) + [e.version];
  }

  lemma {:induction false} AttemptsAppend(updates: seq<int>, lo: nat, log: seq<Event>, k: nat, effects: Effects)
    requires Position(updates, lo, log) == Some(k)
    requires k <= |updates|
    ensures Position(updates, lo, log + Attempts(updates, k, effects)).Some?
    ensures (forall i :: k <= i < |updates| ==> IsGood(updates[i], effects)) ==>
              Position(updates, lo, log + Attempts(updates, k, effects)) == Some(|updates|)
    decreases |updates| - k
  {
    var more := Attempts(updates, k, effects);
    if k == |updates| {
      assert log + more == log;
    } else {
      var e := Attempt(updates[k], effects(updates[k]));
      OneMoreEvent(updates, lo, log, k, e);
      if effects(updates[k]).Good? {
        AttemptsAppend(updates, lo, log + [e], k + 1, effects);
        assert log + more == log + [e] + Attempts(updates, k + 1, effects);
      } else {
        assert !IsGood(updates[k], effects);
      }
    }
  }

  // A start-up: the backup, which is taken before the first update, and what the
  // updates would do.
  datatype Start = Start(backupFails: bool, effects: Effects)

  // Nothing is attempted when there is nothing to do, or the backup fails.
  function Attempted(updates: seq<int>, position: Option<nat>, start: Start): seq<Event> {
    if position.None? || position.value > |updates| || start.backupFails then []
    else Attempts(updates, position.value, start.effects)
  }

  // What all start-ups attempted, first to last.
  function History(updates: seq<int>, lo: nat, starts: seq<Start>): seq<Event> {
    if starts == [] then []
    else
      var log := History(updates, lo, starts[..|starts| - 1]);
      log + Attempted(updates, Position(updates, lo, log), starts[|starts| - 1])
  }

  // Over any sequence of failing and succeeding start-ups the recorded versions
  // are the next ones in list order, without a gap or a repeat.
  lemma {:induction false} HistoryRecordsNext(updates: seq<int>, lo: nat, starts: seq<Start>)
    requires lo <= |updates|
    ensures Position(updates, lo, History(updates, lo, starts)).Some?
    ensures var k := Position(updates, lo, History(updates, lo, starts)).value;
            lo <= k <= |updates| && Recorded(History(updates, lo, starts)) == updates[lo..k]
  {
    if starts != [] {
      HistoryRecordsNext(updates, lo, starts[..|starts| - 1]);
      var log := History(updates, lo, starts[..|starts| - 1]);
      var k := Position(updates, lo, log).value;
      AttemptsAppend(updates, lo, log, k, starts[|starts| - 1].effects);
      assert log + [] == log;
    }
    JournalRecordsNext(updates, lo, History(updates, lo, starts));
  }

  // How many updates are done after the start-ups.
  function DoneAfter(updates: seq<int>, lo: nat, starts: seq<Start>): (k: nat)
    requires lo <= |updates|
    ensures lo <= k <= |updates|
    ensures Position(updates, lo, History(updates, lo, starts)) == Some(k)
  {
    HistoryRecordsNext(updates, lo, starts);
    Position(updates, lo, History(updates, lo, starts)).value
  }

  // With k updates done, the start-up returns without an error.
  ghost predicate Succeeds(updates: seq<int>, k: nat, start: Start) {
    k == |updates| || (!start.backupFails && forall i :: k <= i < |updates| ==> IsGood(updates[i], start.effects))
  }

  lemma HistoryOneMore(updates: seq<int>, lo: nat, starts: seq<Start>, next: Start)
    requires lo <= |updates|
    ensures History(updates, lo, starts + [next])
            == History(updates, lo, starts) + Attempted(updates, Some(DoneAfter(updates, lo, starts)), next)
  {
  }

  lemma SuccessFinishes(updates: seq<int>, lo: nat, starts: seq<Start>, next: Start)
    requires lo <= |updates|
    requires Succeeds(updates, DoneAfter(updates, lo, starts), next)
    ensures DoneAfter(updates, lo, starts + [next]) == |updates|
  {
    var k := DoneAfter(updates, lo, starts);
    var log := History(updates, lo, starts);
    HistoryOneMore(updates, lo, starts, next);
    if k == |updates| {
      assert log + Attempted(updates, Some(k), next) == log;
    } else {
      AttemptsAppend(updates, lo, log, k, next.effects);
    }
  }

  // A start-up that succeeds leaves the latest version recorded, and after that
  // no start-up attempts anything.
  lemma SuccessIsFinal(updates: seq<int>, lo: nat, starts: seq<Start>, next: Start, later: Start)
    requires lo <= |updates|
    requires Succeeds(updates, DoneAfter(updates, lo, starts), next)
    ensures Recorded(History(updates, lo, starts + [next])) == updates[lo..]
    ensures History(updates, lo, starts + [next] + [later]) == History(updates, lo, starts + [next])
  {
    var all := starts + [next];
    SuccessFinishes(updates, lo, starts, next);
    HistoryRecordsNext(updates, lo, all);
    assert updates[lo..|updates|] == updates[lo..];
    HistoryOneMore(updates, lo, all, later);
    assert DoneAfter(updates, lo, all) == |updates|;
    assert Attempted(updates, Some(|updates|), later) == [];
  }

  // Over any start-ups, when an update is attempted exactly those in front of it
  // are recorded; it is not attempted again once it is recorded itself.
  lemma AttemptsInOrder(updates: seq<int>, lo: nat, starts: seq<Start>, b: nat) returns (k: nat)
    requires Increasing(updates)
    requires lo <= |updates|
    requires b < |History(updates, lo, starts)|
    ensures lo <= k < |updates| && History(updates, lo, starts)[b].version == updates[k]
    ensures Recorded(History(updates, lo, starts)[..b]) == updates[lo..k]
    ensures forall a :: 0 <= a < b && History(updates, lo, starts)[a].version == updates[k]
              ==> !Records(History(updates, lo, starts)[a])
  {
    var log := History(updates, lo, starts);
    HistoryRecordsNext(updates, lo, starts);
    k := EventAt(updates, lo, log, b);
    JournalRecordsNext(updates, lo, log[..b]);
    forall a | 0 <= a < b && log[a].version == updates[k] ensures !Records(log[a]) {
      RecordedOnce(updates, lo, log, a, b);
    }
  }

  // ------------------------------------------------------- patches left behind

  ghost predicate FirstBad(updates: seq<int>, k: nat, effects: Effects, j: nat)
    requires j <= |updates|
  {
    forall i :: k <= i < j ==> IsGood(updates[i], effects)
  }

  // The start-up records a version and then fails in its legacy patch.
  ghost predicate SkipsPatch(updates: seq<int>, k: nat, start: Start) {
    && !start.backupFails
    && exists j ::
         k <= j < |updates| && FirstBad(updates, k, start.effects, j) && start.effects(updates[j]).PatchFails?
  }

  ghost predicate LeavesUnpatched(log: seq<Event>) { exists i :: 0 <= i < |log| && log[i].Unpatched? }

  lemma LeavesAppended(a: seq<Event>, b: seq<Event>)
    ensures LeavesUnpatched(a + b) <==> LeavesUnpatched(a) || LeavesUnpatched(b)
  {
    var log := a + b;
    if LeavesUnpatched(a) {
      var i :| 0 <= i < |a| && a[i].Unpatched?;
      assert log[i].Unpatched?;
    }
    if LeavesUnpatched(b) {
      var i :| 0 <= i < |b| && b[i].Unpatched?;
      assert log[|a| + i].Unpatched?;
    }
  }

  lemma {:induction false} AttemptsUnpatched(updates: seq<int>, k: nat, effects: Effects)
    requires k <= |updates|
    ensures LeavesUnpatched(Attempts(updates, k, effects)) <==> SkipsPatch(updates, k, Start(false, effects))
    decreases |updates| - k
  {
    var start := Start(false, effects);
    if k < |updates| {
      if effects(updates[k]).Good? {
        AttemptsUnpatched(updates, k + 1, effects);
        var e := [Complete(updates[k])];
        assert Attempts(updates, k, effects) == e + Attempts(updates, k + 1, effects);
        LeavesAppended(e, Attempts(updates, k + 1, effects));
      } else {
        assert Attempts(updates, k, effects)[0] == Attempt(updates[k], effects(updates[k]));
      }
    }
  }

  // Some start-up of the history skips a patch.
  ghost predicate SomeSkips(updates: seq<int>, lo: nat, starts: seq<Start>)
    requires lo <= |updates|
  {
    exists n :: 0 <= n < |starts| && SkipsPatch(updates, DoneAfter(updates, lo, starts[..n]), starts[n])
  }

  lemma SomeSkipsOneMore(updates: seq<int>, lo: nat, front: seq<Start>, last: Start)
    requires lo <= |updates|
    ensures SomeSkips(updates, lo, front + [last]) <==>
              SomeSkips(updates, lo, front) || SkipsPatch(updates, DoneAfter(updates, lo, front), last)
  {
    var starts := front + [last];
    assert starts[..|front|] == front && starts[|front|] == last;
    forall n | 0 <= n < |front| ensures starts[..n] == front[..n] && starts[n] == front[n] {}
    if SomeSkips(updates, lo, front) {
      var n :| 0 <= n < |front| && SkipsPatch(updates, DoneAfter(updates, lo, front[..n]), front[n]);
      assert SkipsPatch(updates, DoneAfter(updates, lo, starts[..n]), starts[n]);
    }
    if SkipsPatch(updates, DoneAfter(updates, lo, front), last) {
      assert SkipsPatch(updates, DoneAfter(updates, lo, starts[..|front|]), starts[|front|]);
    }
    if SomeSkips(updates, lo, starts) {
      var n :| 0 <= n < |starts| && SkipsPatch(updates, DoneAfter(updates, lo, starts[..n]), starts[n]);
      if n < |front| { assert SkipsPatch(updates, DoneAfter(updates, lo, front[..n]), front[n]); }
    }
  }

  lemma {:induction false} UnpatchedExactly(updates: seq<int>, lo: nat, starts: seq<Start>)
    requires lo <= |updates|
    ensures LeavesUnpatched(History(updates, lo, starts)) <==> SomeSkips(updates, lo, starts)
    decreases |starts|
  {
    if starts != [] {
      var front, last := starts[..|starts| - 1], starts[|starts| - 1];
      assert starts == front + [last];
      UnpatchedExactly(updates, lo, front);
      var k := DoneAfter(updates, lo, front);
      HistoryOneMore(updates, lo, front, last);
      LeavesAppended(History(updates, lo, front), Attempted(updates, Some(k), last));
      AttemptsUnpatched(updates, k, last.effects);
      assert SkipsPatch(updates, k, last) <==> !last.backupFails && SkipsPatch(updates, k, Start(false, last.effects));
      SomeSkipsOneMore(updates, lo, front, last);
    }
  }

  lemma {:induction false} RecordedAt(log: seq<Event>, v: int) returns (i: nat)
    requires v in Recorded(log)
    ensures i < |log| && Records(log[i]) && log[i].version == v
  {
    var n := |log| - 1;
    if Records(log[n]) && log[n].version == v {
      i := n;
    } else {
      i := RecordedAt(log[..n], v);
    }
  }

  // Every update was made with its patch.
  ghost predicate AllComplete(updates: seq<int>, lo: nat, log: seq<Event>) {
    forall i :: lo <= i < |updates| ==> Complete(updates[i]) in log
  }

  lemma {:induction false} PositionAtLeast(updates: seq<int>, lo: nat, log: seq<Event>)
    requires Position(updates, lo, log).Some?
    ensures Position(updates, lo, log).value >= lo
  {
    if log != [] { PositionAtLeast(updates, lo, log[..|log| - 1]); }
  }

  lemma CompleteUnlessUnpatched(updates: seq<int>, lo: nat, log: seq<Event>)
    requires Increasing(updates)
    requires Position(updates, lo, log) == Some(|updates|)
    ensures AllComplete(updates, lo, log) <==> !LeavesUnpatched(log)
  {
    JournalRecordsNext(updates, lo, log);
    if !LeavesUnpatched(log) {
      forall i | lo <= i < |updates| ensures Complete(updates[i]) in log {
        assert updates[lo..|updates|][i - lo] == updates[i];
        var n := RecordedAt(log, updates[i]);
        assert log[n] == Complete(updates[i]);
      }
    } else if AllComplete(updates, lo, log) {
      var b :| 0 <= b < |log| && log[b].Unpatched?;
      var k := EventAt(updates, lo, log, b);
      PositionAtLeast(updates, lo, log[..b]);
      var a :| 0 <= a < |log| && log[a] == Complete(updates[k]);
      if a < b {
        RecordedOnce(updates, lo, log, a, b);
      } else {
        RecordedOnce(updates, lo, log, b, a);
      }
      assert false;
    }
  }

  // Once all updates are recorded, each of them was made with its legacy patch, if
  // and only if no start-up failed in a patch after recording its version.
  lemma AllPatchedExactly(updates: seq<int>, lo: nat, starts: seq<Start>)
    requires Increasing(updates)
    requires lo <= |updates|
    requires DoneAfter(updates, lo, starts) == |updates|
    ensures AllComplete(updates, lo, History(updates, lo, starts)) <==> !SomeSkips(updates, lo, starts)
  {
    CompleteUnlessUnpatched(updates, lo, History(updates, lo, starts));
    UnpatchedExactly(updates, lo, starts);
  }

  // A start-up fails in the first patch that is left, the next one succeeds, and
  // the patch was never made.
  lemma PatchLeftBehind(updates: seq<int>, lo: nat) returns (starts: seq<Start>)
    requires Increasing(updates)
    requires lo < |updates|
    ensures |starts| == 2 && DoneAfter(updates, lo, starts) == |updates|
    ensures Succeeds(updates, DoneAfter(updates, lo, starts[..1]), starts[1])
    ensures !AllComplete(updates, lo, History(updates, lo, starts))
  {
    var bad := Start(false, v => if v == updates[lo] then PatchFails else Good);
    var good := Start(false, v => Good);
    starts := [bad] + [good];
    assert starts[..1] == [bad];
    SuccessFinishes(updates, lo, [bad], good);
    assert starts[..0] == [];
    assert FirstBad(updates, lo, bad.effects, lo);
    assert SkipsPatch(updates, DoneAfter(updates, lo, starts[..0]), starts[0]);
    AllPatchedExactly(updates, lo, starts);
  }

  // ------------------------------------------------------------ the database

  // Updates k to n - 1 went well, and were attempted after `log0`.
  ghost predicate Going(updates: seq<int>, log0: seq<Event>, k: nat, log: seq<Event>, n: nat, effects: Effects) {
    && k <= n <= |updates|
    && (forall i :: k <= i < n ==> IsGood(updates[i], effects))
    && log0 + Attempts(updates, k, effects) == log + Attempts(updates, n, effects)
    && (n == k ==> log == log0)
  }

  lemma CutMoves(updates: seq<int>, begin: seq<int>, lo: nat, k: nat)
    requires Increasing(updates)
    requires lo <= k <= |updates|
    requires Cut(updates, Max(begin), lo)
    ensures Cut(updates, Max(begin + updates[lo..k]), k)
  {
    var all := begin + updates[lo..k];
    if lo == k {
      assert all == begin;
    } else {
      assert all[|all| - 1] == updates[k - 1];
      MaxIsGreatest(all, updates[k - 1]);
      var j :| 0 <= j < |all| && all[j] == Max(all);
      if j < |begin| { MaxIsGreatest(begin, begin[j]); }
      forall i | k <= i < |updates| ensures updates[i] > Max(all) {
        if j >= |begin| { assert all[j] == updates[lo + (j - |begin|)]; }
      }
    }
  }

  // The greatest recorded version says how many updates are done.
  lemma CurrentCuts(updates: seq<int>, begin: seq<int>, lo: nat, log: seq<Event>)
    requires Increasing(updates)
    requires forall i :: 0 <= i < |updates| ==> updates[i] > 0
    requires Cut(updates, Max(begin), lo)
    requires Position(updates, lo, log).Some?
    ensures Cut(updates, Max(begin + Recorded(log)), Position(updates, lo, log).value)
  {
    JournalRecordsNext(updates, lo, log);
    CutMoves(updates, begin, lo, Position(updates, lo, log).value);
  }

  function CutAt(updates: seq<int>, current: int, n: nat): (k: nat)
    requires n <= |updates|
    ensures k <= n
  {
    if n == 0 || updates[n - 1] <= current then n else CutAt(updates, current, n - 1)
  }

  lemma {:induction false} CutIsCut(updates: seq<int>, current: int, n: nat)
    requires Increasing(updates)
    requires n <= |updates|
    requires forall i :: n <= i < |updates| ==> updates[i] > current
    ensures Cut(updates, current, CutAt(updates, current, n))
  {
    if n > 0 && updates[n - 1] > current { CutIsCut(updates, current, n - 1); }
  }

  predicate Reached(versions: seq<int>, version: int) {
    exists j :: 0 <= j < |versions| && version <= versions[j]
  }

  // The updates that are done are those that some recorded version has reached.
  lemma CutSplits(updates: seq<int>, versions: seq<int>, k: nat)
    requires forall i :: 0 <= i < |updates| ==> updates[i] > 0
    requires Cut(updates, Max(versions), k)
    ensures forall i :: 0 <= i < |updates| ==> (i < k <==> Reached(versions, updates[i]))
  {
    if versions == [] {
      assert Max(versions) == 0;
    } else {
      MaxIsGreatest(versions, versions[0]);
    }
    forall i | 0 <= i < |updates| ensures i < k <==> Reached(versions, updates[i]) {
      if i < k {
        var j :| 0 <= j < |versions| && versions[j] == Max(versions);
      } else if Reached(versions, updates[i]) {
        var j :| 0 <= j < |versions| && updates[i] <= versions[j];
        MaxIsGreatest(versions, versions[j]);
        assert false;
      }
    }
  }

  lemma GoesOn(updates: seq<int>, log0: seq<Event>, k: nat, log: seq<Event>, n: nat, effects: Effects)
    requires n < |updates|
    requires Going(updates, log0, k, log, n, effects)
    ensures var log' := log + [Attempt(updates[n], effects(updates[n]))];
            if effects(updates[n]).Good? then Going(updates, log0, k, log', n + 1, effects)
            else log' == log0 + Attempts(updates, k, effects) && !IsGood(updates[n], effects)
  {
  }

  class Database {
    const updates: seq<int>
    // The schema table.
    var versions: seq<int>
    // What it held at first, and what was attempted since.
    ghost const begin: seq<int>
    ghost const lo: nat
    ghost var log: seq<Event>

    ghost predicate Valid() reads this {
      && Increasing(updates)
      && (forall i :: 0 <= i < |updates| ==> updates[i] > 0)
      && Cut(updates, Max(begin), lo)
      && Position(updates, lo, log).Some?
      && versions == begin + Recorded(log)
    }

    ghost function Done(): (k: nat)
      requires Valid()
      reads this
      ensures lo <= k <= |updates|
    {
      JournalRecordsNext(updates, lo, log);
      Position(updates, lo, log).value
    }

    constructor (updates: seq<int>, versions: seq<int>)
      requires Increasing(updates)
      requires forall i :: 0 <= i < |updates| ==> updates[i] > 0
      ensures Valid() && this.updates == updates && this.versions == versions && log == []
      ensures forall i :: 0 <= i < |updates| ==> (i < Done() <==> Reached(versions, updates[i]))
    {
      this.updates := updates;
      this.versions := versions;
      begin := versions;
      lo := CutAt(updates, Max(versions), |updates|);
      log := [];
      new;
      CutIsCut(updates, Max(versions), |updates|);
      CutSplits(updates, versions, lo);
      assert versions + [] == versions;
    }

    // dbUpdate.apply, and the legacy patch after it.
    method Apply(version: int, effect: Effect) returns (ok: bool)
      requires Valid() && Done() < |updates| && version == updates[Done()]
      modifies this
      ensures Valid() && log == old(log) + [Attempt(version, effect)]
      ensures ok <==> effect.Good?
      ensures Done() == if effect.PatchFails? || effect.Good? then old(Done()) + 1 else old(Done())
    {
      ghost var e := Attempt(version, effect);
      OneMoreEvent(updates, lo, log, Done(), e);
      RecordedMore(begin, versions, log, e);
      log := log + [e];
      if effect.RunFails? || effect.InsertFails? {
        return false;
      }
      versions := versions + [version];
      return effect.Good?;
    }

    // dbUpdatesApplyAll
    method ApplyAll(doBackup: bool, backupFails: bool, effects: Effects) returns (ok: bool)
      requires Valid()
      modifies this
      ensures Valid()
      ensures log == old(log) + Attempted(updates, Some(old(Done())), Start(doBackup && backupFails, effects))
      ensures ok <==> Succeeds(updates, old(Done()), Start(doBackup && backupFails, effects))
      ensures ok ==> Done() == |updates|
    {
      ghost var k, log0 := Done(), log;
      CurrentCuts(updates, begin, lo, log);
      var currentVersion := Max(versions);
      var backup := false;
      for n := 0 to |updates|
        invariant Valid()
        invariant Cut(updates, currentVersion, Done())
        invariant backup ==> !backupFails
        invariant n > k ==> !(doBackup && backupFails)
        invariant if n < k then log == log0 && Done() == k else Done() == n && Going(updates, log0, k, log, n, effects)
      {
        var version := updates[n];
        if version <= currentVersion {
          continue;
        }
        if doBackup && !backup {
          if backupFails {
            return false;
          }
          backup := true;
        }
        GoesOn(updates, log0, k, log, n, effects);
        ok := Apply(version, effects(version));
        if !ok {
          return false;
        }
        currentVersion := version;
      }
      assert log + [] == log;
      assert log0 + [] == log0;
      return true;
    }
  }
}
