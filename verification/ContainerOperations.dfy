// The per-container operation lock (apollo/container_mercury.go): createOperation
// is a check and an insert, each under the lock; Done is one locked step, called
// by the owner of the operation or by its 30-second timer.
module ContainerOperations {
  import opened Wrappers

  // `closes` counts close(chanDone), `timer` says that the timer goroutine runs.
  datatype Op = Op(container: int, action: string, reusable: bool, closes: nat, err: Option<string>, timer: bool)

  // All operations ever created (by index), the global map, and the calls of
  // createOperation on their way: those that found no running operation and have
  // yet to insert, and those that found one to reuse and are sending it a reset.
  datatype Table = Table(ops: seq<Op>, registry: map<int, nat>, pending: map<nat, int>, resetting: map<nat, nat>)

  const EMPTY := Table([], map[], map[], map[])

  datatype Event =
    | Check(thread: nat, container: int, reuse: bool)
    | Reset(thread: nat)
    | Insert(thread: nat, action: string, reusable: bool)
    | Done(op: nat, err: Option<string>)
    | Timeout(op: nat)

  function TimeoutError(op: Op): string {
    "Container " + op.action + " operation timed out after 30 seconds"
  }

  // The body of mercuryContainerOperation.Done.
  function DoneStep(t: Table, op: nat, err: Option<string>): Table
    requires op < |t.ops|
  {
    var id := t.ops[op].container;
    if id !in t.registry || t.registry[id] != op then t
    else t.(ops := t.ops[op := t.ops[op].(err := err, closes := t.ops[op].closes + 1)], registry := t.registry - {id})
  }

  function Next(t: Table, e: Event): Option<Table> {
    match e
    case Check(thread, container, reuse) =>
      if thread in t.pending || thread in t.resetting then None
      else if container !in t.registry then Some(t.(pending := t.pending[thread := container]))
      else if reuse && t.registry[container] < |t.ops| && t.ops[t.registry[container]].reusable then
        Some(t.(resetting := t.resetting[thread := t.registry[container]]))
      else Some(t)
    // chanReset is unbuffered, and only the timer goroutine receives from it
    case Reset(thread) =>
      if thread in t.resetting && t.resetting[thread] < |t.ops| && t.ops[t.resetting[thread]].timer then
        Some(t.(resetting := t.resetting - {thread}))
      else None
    case Insert(thread, action, reusable) =>
      if thread !in t.pending then None
      else
        var container := t.pending[thread];
        Some(t.(ops := t.ops + [Op(container, action, reusable, 0, None, true)],
                registry := t.registry[container := |t.ops|],
                pending := t.pending - {thread}))
    case Done(op, err) => if op < |t.ops| then Some(DoneStep(t, op, err)) else None
    case Timeout(op) =>
      if op < |t.ops| && t.ops[op].timer then
        var u := DoneStep(t, op, Some(TimeoutError(t.ops[op])));
        Some(u.(ops := u.ops[op := u.ops[op].(timer := false)]))
      else None
  }

  datatype GetError = NotRunning(action: string) | RunningOther(running: string, action: string)

  // getOperation; the empty action stands for any.
  function Found(t: Table, container: int, action: string): Result<nat, GetError>
    requires container in t.registry ==> t.registry[container] < |t.ops|
  {
    if container !in t.registry then Err(NotRunning(action))
    else
      var running := t.ops[t.registry[container]].action;
      if action != "" && running != action then Err(RunningOther(running, action)) else Ok(t.registry[container])
  }

  // -------------------------------------------------------------- the code

  ghost predicate Inv(t: Table) {
    && (forall id :: id in t.registry ==> t.registry[id] < |t.ops|)
    && (forall id :: id in t.registry ==> t.ops[t.registry[id]].container == id)
    && (forall id :: id in t.registry ==> t.ops[t.registry[id]].closes == 0 && t.ops[t.registry[id]].timer)
    && (forall n :: 0 <= n < |t.ops| ==> t.ops[n].closes <= 1)
    && (forall a :: a in t.resetting ==> t.resetting[a] < |t.ops|)
  }

  // The operations and the global map, one method for each locked section.
  class Operations {
    var ops: seq<Op>
    var registry: map<int, nat>
    ghost var pending: map<nat, int>
    ghost var resetting: map<nat, nat>

    ghost function View(): Table
      reads this
    {
      Table(ops, registry, pending, resetting)
    }

    constructor ()
      ensures View() == EMPTY
    {
      ops, registry := [], map[];
      pending, resetting := map[], map[];
    }

    method GetOperation(container: int, action: string) returns (op: Result<nat, GetError>)
      requires container in registry ==> registry[container] < |ops|
      ensures op == Found(View(), container, action)
    {
      if container !in registry {
        return Err(NotRunning(action));
      }
      var running := registry[container];
      if action != "" && ops[running].action != action {
        return Err(RunningOther(ops[running].action, action));
      }
      return Ok(running);
    }

    method InsertOperation(ghost thread: nat, container: int, action: string, reusable: bool) returns (op: nat)
      requires thread in pending && pending[thread] == container
      modifies this
      ensures op == |old(ops)|
      ensures Next(old(View()), Insert(thread, action, reusable)) == Some(View())
      ensures ops == old(ops) + [Op(container, action, reusable, 0, None, true)]
      ensures registry == old(registry)[container := |old(ops)|]
    {
      op := |ops|;
      ops := ops + [Op(container, action, reusable, 0, None, true)];
      registry := registry[container := op];
      pending := pending - {thread};
    }

    // createOperation running alone: both sections one after the other, or the
    // reset of the operation that is reused.
    method CreateOperation(ghost thread: nat, container: int, action: string, reusable: bool, reuse: bool)
      returns (op: Option<nat>)
      requires thread !in pending && thread !in resetting
      requires Inv(View())
      modifies this
      ensures Next(old(View()), Check(thread, container, reuse)).Some?
      ensures container in old(registry) ==>
                op == if reuse && old(ops)[old(registry)[container]].reusable then Some(old(registry)[container])
                    else None
      ensures container in old(registry) && op.Some? ==>
                Next(Next(old(View()), Check(thread, container, reuse)).value, Reset(thread)) == Some(View())
      ensures container in old(registry) ==> View() == old(View())
      ensures container !in old(registry) ==>
                && Next(Next(old(View()), Check(thread, container, reuse)).value, Insert(thread, action, reusable)) ==
                    Some(View())
                && op == Some(|old(ops)|)
    {
      var running := GetOperation(container, "");
      if running.Ok? {
        if reuse && ops[running.value].reusable {
          assert resetting[thread := running.value] - {thread} == resetting;
          return Some(running.value);
        }
        return None;
      }
      pending := pending[thread := container];
      var n := InsertOperation(thread, container, action, reusable);
      return Some(n);
    }

    // mercuryContainerOperation.Done
    method DoneOperation(op: nat, err: Option<string>)
      requires op < |ops|
      modifies this
      ensures Next(old(View()), Done(op, err)) == Some(View())
      ensures |ops| == |old(ops)| && forall n :: 0 <= n < |ops| && n != op ==> ops[n] == old(ops)[n]
      ensures var id := old(ops)[op].container;
              if id in old(registry) && old(registry)[id] == op
              then ops[op] == old(ops)[op].(err := err, closes := old(ops)[op].closes + 1) && id !in registry
              else ops == old(ops) && registry == old(registry)
      ensures forall id :: id != old(ops)[op].container ==>
                (id in registry <==> id in old(registry)) &&
                    (id in registry && id in old(registry) ==> registry[id] == old(registry)[id])
    {
      var id := ops[op].container;
      if id !in registry || registry[id] != op {
        return;
      }
      ops := ops[op := ops[op].(err := err, closes := ops[op].closes + 1)];
      registry := registry - {id};
    }
  }

  // ---------------------------------------------------------- every interleaving

  lemma DoneKeeps(t: Table, op: nat, err: Option<string>)
    requires Inv(t)
    requires op < |t.ops|
    ensures Inv(DoneStep(t, op, err))
    ensures forall id :: id in DoneStep(t, op, err).registry ==> DoneStep(t, op, err).registry[id] != op
  {
  }

  lemma NextKeeps(t: Table, e: Event)
    requires Inv(t)
    requires Next(t, e).Some?
    ensures Inv(Next(t, e).value)
  {
    match e
    case Done(op, err) => DoneKeeps(t, op, err);
    case Timeout(op) => DoneKeeps(t, op, Some(TimeoutError(t.ops[op])));
    case Check(_, _, _) =>
    case Reset(_) =>
    case Insert(_, _, _) =>
  }

  // A run from the empty table.
  ghost predicate Run(es: seq<Event>, ts: seq<Table>) {
    && |ts| == |es| + 1
    && ts[0] == EMPTY
    && forall i :: 0 <= i < |es| ==> Next(ts[i], es[i]) == Some(ts[i + 1])
  }

  // In every interleaving a channel is closed at most once, and an operation in
  // the map is open, with a timer that can still take a reset.
  lemma {:induction false} ClosedAtMostOnce(es: seq<Event>, ts: seq<Table>, k: nat)
    requires Run(es, ts)
    requires k < |ts|
    ensures Inv(ts[k])
  {
    if k > 0 {
      ClosedAtMostOnce(es, ts, k - 1);
      assert Next(ts[k - 1], es[k - 1]) == Some(ts[k - 1 + 1]);
      NextKeeps(ts[k - 1], es[k - 1]);
    }
  }

  predicate Registered(t: Table, op: nat)
    requires op < |t.ops|
  {
    t.ops[op].container in t.registry && t.registry[t.ops[op].container] == op
  }

  // Operations are never forgotten, and never change what they were made as.
  lemma {:induction false} MadeForGood(es: seq<Event>, ts: seq<Table>, i: nat, j: nat, op: nat)
    requires Run(es, ts)
    requires i <= j < |ts| && op < |ts[i].ops|
    ensures op < |ts[j].ops| && ts[j].ops[op].container == ts[i].ops[op].container
    ensures ts[j].ops[op].action == ts[i].ops[op].action && ts[j].ops[op].reusable == ts[i].ops[op].reusable
    decreases j - i
  {
    if i < j {
      MadeForGood(es, ts, i, j - 1, op);
      assert Next(ts[j - 1], es[j - 1]) == Some(ts[j - 1 + 1]);
    }
  }

  lemma NotEndedYet(es: seq<Event>, ts: seq<Table>, k: nat, op: nat)
    requires Run(es, ts)
    requires k < |ts| && op >= |ts[k].ops|
    ensures forall i :: 0 <= i < k ==> op >= |ts[i].ops|
  {
    forall i | 0 <= i < k ensures op >= |ts[i].ops| {
      if op < |ts[i].ops| { MadeForGood(es, ts, i, k, op); }
    }
  }

  lemma {:induction false} CheckedBefore(es: seq<Event>, ts: seq<Table>, k: nat, thread: nat) returns (c: nat)
    requires Run(es, ts)
    requires k < |ts| && thread in ts[k].pending
    ensures c < k && es[c].Check? && es[c].thread == thread && es[c].container == ts[k].pending[thread]
    ensures es[c].container !in ts[c].registry
  {
    assert Next(ts[k - 1], es[k - 1]) == Some(ts[k - 1 + 1]);
    if thread in ts[k - 1].pending {
      c := CheckedBefore(es, ts, k - 1, thread);
    } else {
      c := k - 1;
    }
  }

  // An insert makes the operation that was asked for, open, with a running timer,
  // and enters it for the container that the same call had found free.
  lemma MadeAsAsked(es: seq<Event>, ts: seq<Table>, i: nat) returns (c: nat)
    requires Run(es, ts)
    requires i < |es| && es[i].Insert?
    ensures c < i && es[c].Check? && es[c].thread == es[i].thread && es[c].container !in ts[c].registry
    ensures ts[i + 1].ops == ts[i].ops + [Op(es[c].container, es[i].action, es[i].reusable, 0, None, true)]
    ensures ts[i + 1].registry == ts[i].registry[es[c].container := |ts[i].ops|]
  {
    assert Next(ts[i], es[i]) == Some(ts[i + 1]);
    c := CheckedBefore(es, ts, i, es[i].thread);
  }

  // A container with a running operation refuses another one, or has the call wait
  // for the reset of that operation, and nothing else changes; a free one lets it on.
  lemma CheckExactly(es: seq<Event>, ts: seq<Table>, i: nat)
    requires Run(es, ts)
    requires i < |es| && es[i].Check?
    ensures var (t, c) := (ts[i], es[i].container);
            && (c !in t.registry ==> ts[i + 1] == t.(pending := t.pending[es[i].thread := c]))
            && (c in t.registry && !(es[i].reuse && t.registry[c] < |t.ops| && t.ops[t.registry[c]].reusable) ==>
                  ts[i + 1] == t)
            && (c in t.registry && es[i].reuse && t.registry[c] < |t.ops| && t.ops[t.registry[c]].reusable ==>
                  ts[i + 1] == t.(resetting := t.resetting[es[i].thread := t.registry[c]]))
  {
    assert Next(ts[i], es[i]) == Some(ts[i + 1]);
  }

  // Nobody is stuck, but a reset whose timer has ended: at every moment a call can
  // come in, one that found its container free can insert, every operation can be
  // done and every timer can fire or take a reset, which lets its call go on.
  lemma NobodyIsStuck(es: seq<Event>, ts: seq<Table>, k: nat, thread: nat, op: nat, e: Event)
    requires Run(es, ts)
    requires k < |ts|
    ensures e.Check? && e.thread !in ts[k].pending && e.thread !in ts[k].resetting ==> Next(ts[k], e).Some?
    ensures e.Insert? && e.thread in ts[k].pending ==>
              Next(ts[k], e).Some? && e.thread !in Next(ts[k], e).value.pending
    ensures e.Done? && e.op < |ts[k].ops| ==> Next(ts[k], e).Some?
    ensures op < |ts[k].ops| && ts[k].ops[op].timer ==> Next(ts[k], Timeout(op)).Some?
    ensures thread in ts[k].resetting && ts[k].resetting[thread] < |ts[k].ops| &&
              ts[k].ops[ts[k].resetting[thread]].timer ==>
              Next(ts[k], Reset(thread)) == Some(ts[k].(resetting := ts[k].resetting - {thread}))
  {
  }

  // An operation that is not in the map is left alone by every event.
  lemma UnregisteredIsFinal(t: Table, e: Event, op: nat)
    requires Inv(t)
    requires Next(t, e).Some?
    requires op < |t.ops| && !Registered(t, op)
    ensures var u := Next(t, e).value;
            op < |u.ops| && !Registered(u, op) && u.ops[op].closes == t.ops[op].closes && u.ops[op].err == t.ops[op].err
  {
  }

  lemma {:induction false} UnregisteredStays(es: seq<Event>, ts: seq<Table>, i: nat, j: nat, op: nat)
    requires Run(es, ts)
    requires i <= j < |ts|
    requires op < |ts[i].ops| && !Registered(ts[i], op)
    ensures op < |ts[j].ops| && !Registered(ts[j], op)
    ensures ts[j].ops[op].closes == ts[i].ops[op].closes && ts[j].ops[op].err == ts[i].ops[op].err
    decreases j - i
  {
    if i < j {
      UnregisteredStays(es, ts, i, j - 1, op);
      ClosedAtMostOnce(es, ts, j - 1);
      assert Next(ts[j - 1], es[j - 1]) == Some(ts[j - 1 + 1]);
      UnregisteredIsFinal(ts[j - 1], es[j - 1], op);
    }
  }

  // Once closed, an operation stays out of the map and its error never changes,
  // so every Wait returns the same error.
  lemma ErrorIsFinal(es: seq<Event>, ts: seq<Table>, i: nat, j: nat, op: nat)
    requires Run(es, ts)
    requires i <= j < |ts|
    requires op < |ts[i].ops| && ts[i].ops[op].closes > 0
    ensures op < |ts[j].ops| && !Registered(ts[j], op)
    ensures ts[j].ops[op].closes == 1 && ts[j].ops[op].err == ts[i].ops[op].err
  {
    ClosedAtMostOnce(es, ts, i);
    ClosedAtMostOnce(es, ts, j);
    UnregisteredStays(es, ts, i, j, op);
  }

  // What is said when a registered operation is done is what every Wait returns
  // from then on: the error of Done, or the timer's own.
  lemma DoneIsHeard(es: seq<Event>, ts: seq<Table>, i: nat, j: nat, op: nat)
    requires Run(es, ts)
    requires i < j < |ts|
    requires op < |ts[i].ops| && ts[i].ops[op].container in ts[i].registry
    requires ts[i].registry[ts[i].ops[op].container] == op
    requires es[i] == Timeout(op) || (es[i].Done? && es[i].op == op)
    ensures op < |ts[j].ops| && ts[j].ops[op].closes == 1
    ensures es[i].Done? ==> ts[j].ops[op].err == es[i].err
    ensures es[i].Timeout? ==>
              ts[j].ops[op].err ==
                Some("Container " + ts[i].ops[op].action + " operation timed out after 30 seconds")
  {
    ClosedAtMostOnce(es, ts, i);
    assert Next(ts[i], es[i]) == Some(ts[i + 1]);
    ErrorIsFinal(es, ts, i + 1, j, op);
  }

  // The event at i is the end of operation op.
  predicate Ends(e: Event, t: Table, op: nat) {
    && op < |t.ops| && t.ops[op].container in t.registry && t.registry[t.ops[op].container] == op
    && (e == Timeout(op) || (e.Done? && e.op == op))
  }

  ghost predicate EndedBefore(es: seq<Event>, ts: seq<Table>, k: nat, op: nat)
    requires k <= |es| && |ts| > |es|
  {
    exists i :: 0 <= i < k && Ends(es[i], ts[i], op)
  }

  lemma ClosesExactlyThen(t: Table, e: Event, op: nat)
    requires Inv(t)
    requires Next(t, e).Some?
    requires op < |t.ops|
    ensures op < |Next(t, e).value.ops|
    ensures Next(t, e).value.ops[op].closes == t.ops[op].closes + if Ends(e, t, op) then 1 else 0
    ensures !Ends(e, t, op) ==> Next(t, e).value.ops[op].err == t.ops[op].err
  {
  }

  lemma MadeOpen(t: Table, e: Event, op: nat)
    requires Next(t, e).Some?
    requires |t.ops| <= op < |Next(t, e).value.ops|
    ensures Next(t, e).value.ops[op].closes == 0 && Next(t, e).value.ops[op].err.None?
  {
  }

  // An operation is closed exactly when it was done, or its timer fired, while it
  // was in the map; until then it has no error.
  lemma {:induction false} ClosedExactly(es: seq<Event>, ts: seq<Table>, k: nat, op: nat)
    requires Run(es, ts)
    requires k < |ts| && op < |ts[k].ops|
    ensures ts[k].ops[op].closes > 0 <==> EndedBefore(es, ts, k, op)
    ensures ts[k].ops[op].closes == 0 ==> ts[k].ops[op].err.None?
  {
    if k > 0 {
      assert Next(ts[k - 1], es[k - 1]) == Some(ts[k - 1 + 1]);
      ClosedAtMostOnce(es, ts, k - 1);
      assert EndedBefore(es, ts, k, op) <==> EndedBefore(es, ts, k - 1, op) || Ends(es[k - 1], ts[k - 1], op);
      if op < |ts[k - 1].ops| {
        ClosedExactly(es, ts, k - 1, op);
        ClosesExactlyThen(ts[k - 1], es[k - 1], op);
      } else {
        MadeOpen(ts[k - 1], es[k - 1], op);
        NotEndedYet(es, ts, k - 1, op);
      }
    }
  }

  // ------------------------------------------------------------ lost operations

  // Every operation can still be finished, or was: no waiter hangs.
  ghost predicate NoneLost(t: Table) {
    forall op :: 0 <= op < |t.ops| ==> Registered(t, op) || t.ops[op].closes > 0
  }

  // The insert overwrites an operation that came after the check.
  predicate Stale(t: Table, e: Event) {
    e.Insert? && e.thread in t.pending && t.pending[e.thread] in t.registry
  }

  lemma LosesExactlyWhenStale(t: Table, e: Event)
    requires Inv(t)
    requires NoneLost(t)
    requires Next(t, e).Some?
    ensures NoneLost(Next(t, e).value) <==> !Stale(t, e)
  {
    var u := Next(t, e).value;
    if Stale(t, e) {
      var op := t.registry[t.pending[e.thread]];
      assert u.ops[op] == t.ops[op];
      assert !Registered(u, op);
    } else {
      forall op | 0 <= op < |u.ops| ensures Registered(u, op) || u.ops[op].closes > 0 {
        if op < |t.ops| { assert Registered(t, op) || t.ops[op].closes > 0; }
      }
    }
  }

  ghost predicate NoneLostUpTo(ts: seq<Table>, k: nat)
    requires k < |ts|
  {
    forall i :: 0 <= i <= k ==> NoneLost(ts[i])
  }

  ghost predicate NoneStaleBefore(es: seq<Event>, ts: seq<Table>, k: nat)
    requires k <= |es| && k < |ts|
  {
    forall i :: 0 <= i < k ==> !Stale(ts[i], es[i])
  }

  lemma {:induction false} NothingLostBefore(es: seq<Event>, ts: seq<Table>, k: nat)
    requires Run(es, ts)
    requires k < |ts|
    ensures NoneLostUpTo(ts, k) <==> NoneStaleBefore(es, ts, k)
  {
    if k > 0 {
      NothingLostBefore(es, ts, k - 1);
      ClosedAtMostOnce(es, ts, k - 1);
      assert Next(ts[k - 1], es[k - 1]) == Some(ts[k - 1 + 1]);
      if NoneLost(ts[k - 1]) { LosesExactlyWhenStale(ts[k - 1], es[k - 1]); }
      assert NoneLostUpTo(ts, k) <==> NoneLostUpTo(ts, k - 1) && NoneLost(ts[k]);
      assert NoneStaleBefore(es, ts, k) <==> NoneStaleBefore(es, ts, k - 1) && !Stale(ts[k - 1], es[k - 1]);
    }
  }

  // In every run: all operations stay registered or get closed, if and only if no
  // insert of the run is stale.
  lemma NothingLostExactly(es: seq<Event>, ts: seq<Table>)
    requires Run(es, ts)
    ensures (forall i :: 0 <= i < |ts| ==> NoneLost(ts[i])) <==> (forall i :: 0 <= i < |es| ==> !Stale(ts[i], es[i]))
  {
    NothingLostBefore(es, ts, |es|);
  }

  // A lost operation stays open for ever: whoever waits for it hangs.
  lemma LostStaysOpen(es: seq<Event>, ts: seq<Table>, i: nat, j: nat, op: nat)
    requires Run(es, ts)
    requires i <= j < |ts|
    requires op < |ts[i].ops| && !Registered(ts[i], op) && ts[i].ops[op].closes == 0
    ensures op < |ts[j].ops| && ts[j].ops[op].closes == 0
  {
    UnregisteredStays(es, ts, i, j, op);
  }

  // No two creates for one container are between check and insert together.
  ghost predicate Exclusive(t: Table) {
    forall a, b :: a in t.pending && b in t.pending && a != b ==> t.pending[a] != t.pending[b]
  }

  ghost predicate PendingUnregistered(t: Table) {
    forall a :: a in t.pending ==> t.pending[a] !in t.registry
  }

  lemma {:induction false} ExclusiveCreatesAreFresh(es: seq<Event>, ts: seq<Table>, k: nat)
    requires Run(es, ts)
    requires k < |ts|
    requires forall i :: 0 <= i < |ts| ==> Exclusive(ts[i])
    ensures PendingUnregistered(ts[k])
  {
    if k > 0 {
      ExclusiveCreatesAreFresh(es, ts, k - 1);
      assert Exclusive(ts[k - 1]) && Next(ts[k - 1], es[k - 1]) == Some(ts[k - 1 + 1]);
    }
  }

  // When the creates of one container never interleave, nothing is ever lost.
  lemma ExclusiveCreatesLoseNothing(es: seq<Event>, ts: seq<Table>)
    requires Run(es, ts)
    requires forall i :: 0 <= i < |ts| ==> Exclusive(ts[i])
    ensures forall i :: 0 <= i < |ts| ==> NoneLost(ts[i])
  {
    forall i | 0 <= i < |es| ensures !Stale(ts[i], es[i]) {
      ExclusiveCreatesAreFresh(es, ts, i);
    }
    NothingLostExactly(es, ts);
  }

  // Two interleaved creates lose the first operation.
  lemma InterleavedCreatesLoseOne(container: int) returns (es: seq<Event>, ts: seq<Table>)
    ensures Run(es, ts) && |ts| == 5 && !NoneLost(ts[4])
  {
    es := [Check(0, container, false), Check(1, container, false), Insert(0, "stop", false), Insert(1, "start", false)];
    var t1 := Next(EMPTY, es[0]).value;
    var t2 := Next(t1, es[1]).value;
    var t3 := Next(t2, es[2]).value;
    var t4 := Next(t3, es[3]).value;
    ts := [EMPTY, t1, t2, t3, t4];
    assert !Registered(t4, 0) && t4.ops[0].closes == 0;
  }

  predicate OpenFor(t: Table, op: nat, container: int) {
    op < |t.ops| && t.ops[op].container == container && t.ops[op].closes == 0
  }

  // What getOperation finds, as long as nothing was lost: the one operation of the
  // container that is open, if it has the action asked for. One that is open with
  // another action is an error of its own.
  lemma FoundExactly(es: seq<Event>, ts: seq<Table>, k: nat, container: int, action: string)
    requires Run(es, ts)
    requires k < |ts| && NoneLost(ts[k])
    ensures container in ts[k].registry ==> ts[k].registry[container] < |ts[k].ops|
    ensures forall op: nat :: Found(ts[k], container, action) == Ok(op) <==>
              OpenFor(ts[k], op, container) && (action == "" || ts[k].ops[op].action == action)
    ensures forall op: nat :: OpenFor(ts[k], op, container) && action != "" && ts[k].ops[op].action != action ==>
              Found(ts[k], container, action) == Err(RunningOther(ts[k].ops[op].action, action))
    ensures Found(ts[k], container, action) == Err(NotRunning(action)) <==>
              forall op: nat :: !OpenFor(ts[k], op, container)
  {
    ClosedAtMostOnce(es, ts, k);
    forall op: nat
      ensures OpenFor(ts[k], op, container) <==> container in ts[k].registry && ts[k].registry[container] == op
    {
      if op < |ts[k].ops| { assert Registered(ts[k], op) || ts[k].ops[op].closes > 0; }
    }
    if container in ts[k].registry { assert OpenFor(ts[k], ts[k].registry[container], container); }
  }

  // ------------------------------------------------------------- blocked resets

  lemma TimerStep(t: Table, e: Event, op: nat)
    requires Next(t, e).Some?
    requires op < |t.ops|
    ensures op < |Next(t, e).value.ops|
    ensures Next(t, e).value.ops[op].timer <==> t.ops[op].timer && e != Timeout(op)
  {
  }

  lemma NewTimerRuns(t: Table, e: Event, op: nat)
    requires Next(t, e).Some?
    requires |t.ops| <= op < |Next(t, e).value.ops|
    ensures Next(t, e).value.ops[op].timer && e.Insert?
  {
  }

  lemma NoTimeoutStep(t: Table, e: Event, op: nat)
    requires Next(t, e).Some?
    requires op >= |Next(t, e).value.ops|
    ensures op >= |t.ops| && e != Timeout(op)
  {
  }

  ghost predicate FiredBefore(es: seq<Event>, k: nat, op: nat)
    requires k <= |es|
  {
    exists n :: 0 <= n < k && es[n] == Timeout(op)
  }

  lemma {:induction false} NoTimeoutBefore(es: seq<Event>, ts: seq<Table>, k: nat, op: nat)
    requires Run(es, ts)
    requires k < |ts| && op >= |ts[k].ops|
    ensures !FiredBefore(es, k, op)
  {
    if k > 0 {
      assert Next(ts[k - 1], es[k - 1]) == Some(ts[k - 1 + 1]);
      NoTimeoutStep(ts[k - 1], es[k - 1], op);
      NoTimeoutBefore(es, ts, k - 1, op);
    }
  }

  // An operation's timer goroutine has ended exactly when it fired.
  lemma {:induction false} TimerGoneExactly(es: seq<Event>, ts: seq<Table>, k: nat, op: nat)
    requires Run(es, ts)
    requires k < |ts| && op < |ts[k].ops|
    ensures !ts[k].ops[op].timer <==> FiredBefore(es, k, op)
  {
    if k > 0 {
      assert Next(ts[k - 1], es[k - 1]) == Some(ts[k - 1 + 1]);
      assert FiredBefore(es, k, op) <==> FiredBefore(es, k - 1, op) || es[k - 1] == Timeout(op);
      if op < |ts[k - 1].ops| {
        TimerGoneExactly(es, ts, k - 1, op);
        TimerStep(ts[k - 1], es[k - 1], op);
      } else {
        NoTimeoutBefore(es, ts, k - 1, op);
        NewTimerRuns(ts[k - 1], es[k - 1], op);
      }
    }
  }

  // A call that reuses an operation cannot send its reset, exactly when the timer
  // of that operation has fired since.
  lemma ResetBlockedExactly(es: seq<Event>, ts: seq<Table>, k: nat, thread: nat)
    requires Run(es, ts)
    requires k < |ts| && thread in ts[k].resetting
    ensures Next(ts[k], Reset(thread)).None? <==> FiredBefore(es, k, ts[k].resetting[thread])
  {
    ClosedAtMostOnce(es, ts, k);
    TimerGoneExactly(es, ts, k, ts[k].resetting[thread]);
  }

  lemma BlockedStep(t: Table, e: Event, thread: nat)
    requires Inv(t)
    requires Next(t, e).Some?
    requires thread in t.resetting && Next(t, Reset(thread)).None?
    ensures thread in Next(t, e).value.resetting && Next(Next(t, e).value, Reset(thread)).None?
  {
    var u := Next(t, e).value;
    assert thread in u.resetting && u.resetting[thread] == t.resetting[thread];
    TimerStep(t, e, t.resetting[thread]);
  }

  // Then the call never returns.
  lemma {:induction false} BlockedForGood(es: seq<Event>, ts: seq<Table>, i: nat, j: nat, thread: nat)
    requires Run(es, ts)
    requires i <= j < |ts|
    requires thread in ts[i].resetting && Next(ts[i], Reset(thread)).None?
    ensures thread in ts[j].resetting && Next(ts[j], Reset(thread)).None?
    decreases j - i
  {
    if i < j {
      BlockedForGood(es, ts, i, j - 1, thread);
      ClosedAtMostOnce(es, ts, j - 1);
      assert Next(ts[j - 1], es[j - 1]) == Some(ts[j - 1 + 1]);
      BlockedStep(ts[j - 1], es[j - 1], thread);
    }
  }

  // The timer fires between the check and the reset.
  lemma TimeoutBlocksReset(container: int) returns (es: seq<Event>, ts: seq<Table>)
    ensures Run(es, ts) && |ts| == 5 && 1 in ts[4].resetting && Next(ts[4], Reset(1)).None?
  {
    es := [Check(0, container, false), Insert(0, "stop", true), Check(1, container, true), Timeout(0)];
    var t1 := Next(EMPTY, es[0]).value;
    var t2 := Next(t1, es[1]).value;
    var t3 := Next(t2, es[2]).value;
    var t4 := Next(t3, es[3]).value;
    ts := [EMPTY, t1, t2, t3, t4];
  }
}
