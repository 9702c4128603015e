// Applying and reverting the configuration in `apollo init` (apollo/main_init.go).
module InitTransaction {
  import opened Wrappers
  import opened ServerConfig

  datatype Kind = Pool | Network | Profile

  datatype Ref = Ref(kind: Kind, name: string)

  // The Writable part of an object; pools and networks have no devices.
  datatype Body = Body(description: string, config: map<string, string>, devices: map<string, map<string, string>>)

  // `otype` is a pool's driver or a network's type; an update cannot change it.
  datatype Object = Object(otype: string, body: Body)

  datatype State = State(server: Server, objects: map<Ref, Object>)

  datatype Change =
    | SetConfig(config: map<string, Json>)
    | PutObject(ref: Ref, otype: string, body: Body)

  datatype Reverter =
    | RestoreConfig(config: map<string, Json>)
    | Remove(ref: Ref)
    | Restore(ref: Ref, body: Body)

  // UpdateStoragePool and UpdateNetwork are sent a config only.
  function UpdateBody(ref: Ref, body: Body): Body {
    if ref.kind.Profile? then body else Body("", body.config, map[])
  }

  function Updated(a: State, ref: Ref, body: Body): State
    requires ref in a.objects
  {
    a.(objects := a.objects[ref := a.objects[ref].(body := body)])
  }

  predicate BadNetwork(ref: Ref, otype: string) { ref.kind.Network? && otype != "" && otype != "bridge" }

  // initPool, initNetwork and initProfile.
  ghost predicate PutsObject(a: State, ref: Ref, otype: string, body: Body, b: State, r: Option<Reverter>) {
    if r.Some? then
      if ref in a.objects then
        !BadNetwork(ref, otype) && b == Updated(a, ref, UpdateBody(ref, body)) &&
            r == Some(Restore(ref, a.objects[ref].body))
      else
        ref in b.objects && b == a.(objects := a.objects[ref := b.objects[ref]]) && r == Some(Remove(ref))
    else
      || b == a
      || (ref in a.objects && !BadNetwork(ref, otype) && b == Updated(a, ref, UpdateBody(ref, body)))
      || (ref !in a.objects && ref in b.objects && b == a.(objects := a.objects[ref := b.objects[ref]]))
  }

  ghost predicate PutsIn(schema: Schema, s: Server, req: map<string, Json>, s': Server, ok: bool, world: World,
                         order: seq<string>) {
    && Faithful(schema, Effective(schema, s.table, req), world)
    && ChangedIn(s.table, Effective(schema, s.table, req), order)
    && Outcome(s', ok) == SetAll(schema, s, Effective(schema, s.table, req), world, order)
  }

  // A PUT of the server configuration.
  ghost predicate PutsConfig(schema: Schema, s: Server, req: map<string, Json>, s': Server, ok: bool) {
    exists world, order :: PutsIn(schema, s, req, s', ok, world, order)
  }

  // One changer: it took a to b, and returned a reverter or an error.
  ghost predicate Changes(schema: Schema, a: State, c: Change, b: State, r: Option<Reverter>) {
    match c
    case SetConfig(config) =>
      if r.Some? then
        b.objects == a.objects && PutsConfig(schema, a.server, config, b.server, true) &&
            r == Some(RestoreConfig(Rendered(schema, a.server)))
      else
        // the server cannot be read, or refuses the request as a whole
        || b == a
        // the request stops half way
        || (b.objects == a.objects && PutsConfig(schema, a.server, config, b.server, false))
        // its answer is lost
        || (b.objects == a.objects && PutsConfig(schema, a.server, config, b.server, true))
    case PutObject(ref, otype, body) => PutsObject(a, ref, otype, body, b, r)
  }

  // One reverter that succeeded.
  ghost predicate Reverts(schema: Schema, a: State, r: Reverter, b: State) {
    match r
    case RestoreConfig(config) => b.objects == a.objects && PutsConfig(schema, a.server, config, b.server, true)
    case Remove(ref) => b == a.(objects := a.objects - {ref})
    case Restore(ref, body) => ref in a.objects && b == Updated(a, ref, body)
  }

  // ------------------------------------------------------------ whole runs

  // Changes 0..k-1 succeeded and change k failed, leaving `t`; then the reverters
  // ran, first to last, all with success.
  datatype Run = Run(ss: seq<State>, revs: seq<Reverter>, t: State, us: seq<State>)

  ghost predicate Applied(schema: Schema, changes: seq<Change>, ss: seq<State>, revs: seq<Reverter>) {
    && |ss| == |revs| + 1 && |revs| <= |changes|
    && (forall i :: 0 <= i < |revs| ==> Changes(schema, ss[i], changes[i], ss[i + 1], Some(revs[i])))
  }

  ghost predicate Reverted(schema: Schema, t: State, revs: seq<Reverter>, us: seq<State>) {
    && |us| == |revs| + 1 && us[0] == t
    && (forall i :: 0 <= i < |revs| ==> Reverts(schema, us[i], revs[i], us[i + 1]))
  }

  ghost predicate FailedRun(schema: Schema, changes: seq<Change>, run: Run) {
    && Applied(schema, changes, run.ss, run.revs)
    && |run.revs| < |changes|
    && Changes(schema, run.ss[|run.revs|], changes[|run.revs|], run.t, None)
    && Reverted(schema, run.t, run.revs, run.us)
  }

  predicate SameTarget(c: Change, d: Change) {
    (c.SetConfig? && d.SetConfig?) || (c.PutObject? && d.PutObject? && c.ref == d.ref)
  }

  predicate DistinctTargets(changes: seq<Change>) {
    forall i, j :: 0 <= i < j < |changes| ==> !SameTarget(changes[i], changes[j])
  }

  function ObjectAt(s: State, ref: Ref): Option<Object> { if ref in s.objects then Some(s.objects[ref]) else None }

  predicate Targets(c: Change, ref: Ref) { c.PutObject? && c.ref == ref }

  // A reverter undoes its own change when nothing else touched the object.
  lemma UndoesChange(schema: Schema, a: State, c: Change, b: State, r: Reverter, u: State, v: State)
    requires Changes(schema, a, c, b, Some(r)) && c.PutObject?
    requires ObjectAt(u, c.ref) == ObjectAt(b, c.ref)
    requires Reverts(schema, u, r, v)
    ensures ObjectAt(v, c.ref) == ObjectAt(a, c.ref)
  {
  }

  lemma {:induction false} AppliedElsewhere(schema: Schema, changes: seq<Change>, ss: seq<State>, revs: seq<Reverter>,
                                            i: nat, j: nat, ref: Ref)
    requires Applied(schema, changes, ss, revs)
    requires i <= j <= |revs|
    requires forall n :: i <= n < j ==> !Targets(changes[n], ref)
    ensures ObjectAt(ss[j], ref) == ObjectAt(ss[i], ref)
    decreases j
  {
    if i < j {
      AppliedElsewhere(schema, changes, ss, revs, i, j - 1, ref);
      assert Changes(schema, ss[j - 1], changes[j - 1], ss[j - 1 + 1], Some(revs[j - 1]));
    }
  }

  lemma RevertStep(schema: Schema, changes: seq<Change>, run: Run, n: nat)
    requires FailedRun(schema, changes, run)
    requires n < |run.revs|
    ensures Changes(schema, run.ss[n], changes[n], run.ss[n + 1], Some(run.revs[n]))
    ensures Reverts(schema, run.us[n], run.revs[n], run.us[n + 1])
  {
  }

  lemma {:induction false} RevertedElsewhere(schema: Schema, changes: seq<Change>, run: Run, i: nat, j: nat, ref: Ref)
    requires FailedRun(schema, changes, run)
    requires i <= j <= |run.revs|
    requires forall n :: i <= n < j ==> !Targets(changes[n], ref)
    ensures ObjectAt(run.us[j], ref) == ObjectAt(run.us[i], ref)
    decreases j
  {
    if i < j {
      RevertedElsewhere(schema, changes, run, i, j - 1, ref);
      RevertStep(schema, changes, run, j - 1);
    }
  }

  // Every object is back to what it was, but for what the failing change did.
  lemma ObjectRestored(schema: Schema, changes: seq<Change>, run: Run, ref: Ref)
    requires FailedRun(schema, changes, run)
    requires DistinctTargets(changes)
    ensures ObjectAt(run.us[|run.revs|], ref) ==
            if Targets(changes[|run.revs|], ref) then ObjectAt(run.t, ref) else ObjectAt(run.ss[0], ref)
    ensures Targets(changes[|run.revs|], ref) ==> ObjectAt(run.ss[|run.revs|], ref) == ObjectAt(run.ss[0], ref)
  {
    var k := |run.revs|;
    if i :| 0 <= i < k && Targets(changes[i], ref) {
      forall n | 0 <= n < |changes| && n != i ensures !Targets(changes[n], ref) {
        assert !SameTarget(changes[if i < n then i else n], changes[if i < n then n else i]);
      }
      AppliedElsewhere(schema, changes, run.ss, run.revs, 0, i, ref);
      AppliedElsewhere(schema, changes, run.ss, run.revs, i + 1, k, ref);
      RevertedElsewhere(schema, changes, run, 0, i, ref);
      RevertedElsewhere(schema, changes, run, i + 1, k, ref);
      RevertStep(schema, changes, run, i);
      UndoesChange(schema, run.ss[i], changes[i], run.ss[i + 1], run.revs[i], run.us[i], run.us[i + 1]);
    } else {
      AppliedElsewhere(schema, changes, run.ss, run.revs, 0, k, ref);
      RevertedElsewhere(schema, changes, run, 0, k, ref);
    }
  }

  lemma {:induction false} AppliedServer(schema: Schema, changes: seq<Change>, ss: seq<State>, revs: seq<Reverter>,
                                         i: nat, j: nat)
    requires Applied(schema, changes, ss, revs)
    requires i <= j <= |revs|
    requires forall n :: i <= n < j ==> !changes[n].SetConfig?
    ensures ss[j].server == ss[i].server
    decreases j
  {
    if i < j {
      AppliedServer(schema, changes, ss, revs, i, j - 1);
      assert Changes(schema, ss[j - 1], changes[j - 1], ss[j - 1 + 1], Some(revs[j - 1]));
    }
  }

  lemma {:induction false} RevertedServer(schema: Schema, changes: seq<Change>, run: Run, i: nat, j: nat)
    requires FailedRun(schema, changes, run)
    requires i <= j <= |run.revs|
    requires forall n :: i <= n < j ==> !changes[n].SetConfig?
    ensures run.us[j].server == run.us[i].server
    decreases j
  {
    if i < j {
      RevertedServer(schema, changes, run, i, j - 1);
      RevertStep(schema, changes, run, j - 1);
    }
  }

  // What a client sees of the server.
  ghost predicate SameView(schema: Schema, a: State, b: State) {
    Rendered(schema, a.server) == Rendered(schema, b.server) && a.objects == b.objects
  }

  lemma ObjectsAlike(a: State, b: State)
    ensures a.objects == b.objects <==> forall ref :: ObjectAt(a, ref) == ObjectAt(b, ref)
  {
    if forall ref :: ObjectAt(a, ref) == ObjectAt(b, ref) {
      forall ref | ref in a.objects || ref in b.objects
        ensures ref in a.objects && ref in b.objects && a.objects[ref] == b.objects[ref]
      {
        assert ObjectAt(a, ref) == ObjectAt(b, ref);
      }
    }
  }

  lemma ObjectsRestored(schema: Schema, changes: seq<Change>, run: Run)
    requires FailedRun(schema, changes, run)
    requires DistinctTargets(changes)
    ensures run.us[|run.revs|].objects == run.ss[0].objects <==> run.t.objects == run.ss[|run.revs|].objects
  {
    var k := |run.revs|;
    forall ref
      ensures ObjectAt(run.us[k], ref) == ObjectAt(run.ss[0], ref) <==> ObjectAt(run.t, ref) == ObjectAt(run.ss[k], ref)
    {
      ObjectRestored(schema, changes, run, ref);
    }
    ObjectsAlike(run.us[k], run.ss[0]);
    ObjectsAlike(run.t, run.ss[k]);
  }

  lemma PutStaysValid(schema: Schema, s: Server, req: map<string, Json>, s': Server)
    requires Valid(schema, s)
    requires PutsConfig(schema, s, req, s', true)
    ensures Valid(schema, s')
    ensures !ShowsAhead(schema, s, s')
  {
    var world, order :| PutsIn(schema, s, req, s', true, world, order);
    var n := SetAllStops(schema, s, Effective(schema, s.table, req), world, order);
    SuccessIsNotAhead(schema, s, Effective(schema, s.table, req), world, order);
  }

  lemma RevertedConfig(schema: Schema, s0: Server, s1: Server, s2: Server)
    requires Valid(schema, s0) && Valid(schema, s1)
    requires !ShowsAhead(schema, s0, s1)
    requires PutsConfig(schema, s1, Rendered(schema, s0), s2, true)
    ensures Rendered(schema, s2) == Rendered(schema, s0) <==> !LostSecret(schema, s0, s1)
  {
    var world, order :| PutsIn(schema, s1, Rendered(schema, s0), s2, true, world, order);
    RevertShowsExactly(schema, s0, s1, world, order);
  }

  // The server configuration had been set, and a hidden key that was shown is
  // shown no more.
  ghost predicate SecretDropped(schema: Schema, changes: seq<Change>, run: Run) {
    && |run.revs| <= |changes| && run.ss != []
    && (exists i :: 0 <= i < |run.revs| && changes[i].SetConfig?)
    && LostSecret(schema, run.ss[0].server, run.t.server)
  }

  lemma OnlyOneSetsConfig(changes: seq<Change>, i: nat, n: nat)
    requires DistinctTargets(changes)
    requires i < |changes| && n < |changes| && changes[i].SetConfig? && n != i
    ensures !changes[n].SetConfig?
  {
  }

  // The configuration was set by change i, and put back by reverter i.
  lemma ConfigPutBack(schema: Schema, changes: seq<Change>, run: Run, i: nat)
    requires FailedRun(schema, changes, run)
    requires DistinctTargets(changes)
    requires Valid(schema, run.ss[0].server)
    requires i < |run.revs| && changes[i].SetConfig?
    ensures run.t.server == run.ss[|run.revs|].server
    ensures Rendered(schema, run.us[|run.revs|].server) == Rendered(schema, run.ss[0].server) <==>
              !LostSecret(schema, run.ss[0].server, run.t.server)
  {
    var k := |run.revs|;
    forall n | 0 <= n < |changes| && n != i ensures !changes[n].SetConfig? {
      OnlyOneSetsConfig(changes, i, n);
    }
    AppliedServer(schema, changes, run.ss, run.revs, 0, i);
    AppliedServer(schema, changes, run.ss, run.revs, i + 1, k);
    RevertedServer(schema, changes, run, 0, i);
    RevertedServer(schema, changes, run, i + 1, k);
    RevertStep(schema, changes, run, i);
    PutStaysValid(schema, run.ss[i].server, changes[i].config, run.ss[i + 1].server);
    RevertedConfig(schema, run.ss[0].server, run.t.server, run.us[i + 1].server);
  }

  lemma ConfigRestored(schema: Schema, changes: seq<Change>, run: Run)
    requires FailedRun(schema, changes, run)
    requires DistinctTargets(changes)
    requires Valid(schema, run.ss[0].server)
    ensures Rendered(schema, run.us[|run.revs|].server) == Rendered(schema, run.ss[0].server) <==>
              Rendered(schema, run.t.server) == Rendered(schema, run.ss[|run.revs|].server) &&
                  !SecretDropped(schema, changes, run)
  {
    var k := |run.revs|;
    if i :| 0 <= i < k && changes[i].SetConfig? {
      ConfigPutBack(schema, changes, run, i);
    } else {
      AppliedServer(schema, changes, run.ss, run.revs, 0, k);
      RevertedServer(schema, changes, run, 0, k);
    }
  }

  // When a change fails and the reverters succeed, the server looks as it did
  // before exactly when the failing change left nothing visible behind and no
  // secret was dropped, although the reverters run first to last, and whatever
  // writes were lost before.
  lemma RestoredExactly(schema: Schema, changes: seq<Change>, run: Run)
    requires FailedRun(schema, changes, run)
    requires DistinctTargets(changes)
    requires Valid(schema, run.ss[0].server)
    ensures SameView(schema, run.us[|run.revs|], run.ss[0]) <==>
              SameView(schema, run.t, run.ss[|run.revs|]) && !SecretDropped(schema, changes, run)
  {
    ObjectsRestored(schema, changes, run);
    ConfigRestored(schema, changes, run);
  }

  // The request leaves the hidden key out, or empties it.
  predicate LeavesOut(req: map<string, Json>, k: string) {
    Field(req, k) != True && Wanted(Field(req, k)) == ""
  }

  // A key that only the cache has is not noticed when the request does not name it.
  predicate Drops(schema: Schema, s: Server, req: map<string, Json>, k: string) {
    LeavesOut(req, k) && IsChanged(s.table, Effective(schema, s.table, req), k)
  }

  lemma SecretKept(schema: Schema, s: Server, req: map<string, Json>, s': Server, k: string)
    requires Valid(schema, s)
    requires IsSecretShown(schema, s, k) && schema[k].defaultValue == ""
    requires PutsConfig(schema, s, req, s', true)
    ensures ShownAt(schema, s', k).None? <==> Drops(schema, s, req, k)
  {
    var world, order :| PutsIn(schema, s, req, s', true, world, order);
    var config := Effective(schema, s.table, req);
    var n := SetAllStops(schema, s, config, world, order);
    if IsChanged(s.table, config, k) {
      var i := IndexOf(order, k);
    }
  }

  // A successful PUT drops a secret exactly when it leaves out a hidden key that
  // was set, and that differs from what the table has.
  lemma SecretLostExactly(schema: Schema, s: Server, req: map<string, Json>, s': Server)
    requires Valid(schema, s)
    requires forall k :: k in schema && schema[k].hidden ==> schema[k].defaultValue == ""
    requires PutsConfig(schema, s, req, s', true)
    ensures LostSecret(schema, s, s') <==>
              exists k :: k in schema && IsSecretShown(schema, s, k) && Drops(schema, s, req, k)
  {
    forall k | k in schema && IsSecretShown(schema, s, k)
      ensures ShownAt(schema, s', k).None? <==> Drops(schema, s, req, k)
    {
      SecretKept(schema, s, req, s', k);
    }
  }
}
