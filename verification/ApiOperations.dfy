// The API operation object (apollo/operations.go), without a cancel hook: every
// call and goroutine is a thread that checks a field and sets it in two steps.
module ApiOperations {
  import opened Wrappers

  datatype Status = Pending | Running | Cancelling | Success | Failure | Cancelled

  predicate IsFinal(s: Status) { s.Success? || s.Failure? || s.Cancelled? }

  datatype Class = Task | Websocket | Token

  // What a thread does next.
  datatype Pc =
    | RunSet                     // Run: the operation was pending
    | Executing                  // onRun
    | CancelSet                  // Cancel: the operation was running
    | CancelAsk                  // canceler.Cancel(), if there is one
    | SetFinal(status: Status, error: string := "")
    | DoneTest                   // done: the test of readonly
    | DoneClose                  // done: the rest of it
    | Removal                    // the timer that leaves the registry
    | MetadataSet(metadata: string)
    | ResourcesSet(resources: string)
    | Waiting                    // WaitFinal(-1) on chanDone

  // `hasRun`: there is an onRun hook. `canceler`: a canceler may be attached, at
  // creation or later; whether it is there and cancelable is asked at each Cancel.
  // `closes` counts close(chanDone); `err` is the text of the error of onRun.
  datatype Op = Op(
    class_: Class, hasRun: bool, canceler: bool,
    status: Status, readonly: bool, closes: nat, metadata: string, resources: string,
    registered: bool, threads: map<nat, Pc>, err: string := "")

  datatype CreateError = ConnectHookNotAllowed | ConnectHookMissing | RunHookNotAllowed

  // operationCreate, for operations without a cancel hook.
  function Create(class_: Class, hasRun: bool, hasConnect: bool, canceler: bool, metadata: string, resources: string)
    : (r: Result<Op, CreateError>)
  {
    if class_ != Websocket && hasConnect then Err(ConnectHookNotAllowed)
    else if class_ == Websocket && !hasConnect then Err(ConnectHookMissing)
    else if class_ == Token && hasRun then Err(RunHookNotAllowed)
    else Ok(Op(class_, hasRun, canceler, Pending, false, 0, metadata, resources, true, map[]))
  }

  predicate MayCancel(op: Op, cancelable: bool) { op.class_ == Token || (op.canceler && cancelable) }

  predicate Updatable(op: Op) { (op.status == Pending || op.status == Running) && !op.readonly }

  datatype Event =
    | RunCheck(t: nat) | RunDo(t: nat) | RunReturns(t: nat, err: Option<string>)
    | CancelCheck(t: nat, cancelable: bool) | CancelDo(t: nat) | CancelAnswer(t: nat, ok: bool)
    | Finalize(t: nat) | Test(t: nat) | Close(t: nat) | Remove(t: nat)
    | MetadataCheck(t: nat, metadata: string) | ResourcesCheck(t: nat, resources: string) | UpdateDo(t: nat)
    | WaitCheck(t: nat) | WaitReturns(t: nat)

  function Become(op: Op, t: nat, pc: Pc): Op { op.(threads := op.threads[t := pc]) }

  function Leave(op: Op, t: nat): Op { op.(threads := op.threads - {t}) }

  predicate At(op: Op, t: nat, pc: Pc) { t in op.threads && op.threads[t] == pc }

  // A new call, by a thread not yet in use.
  function CallNext(op: Op, e: Event): Option<Op> {
    if e.t in op.threads then None
    else match e
      case RunCheck(t) => if op.status == Pending then Some(Become(op, t, RunSet)) else None
      case CancelCheck(t, cancelable) => if op.status == Running && MayCancel(op, cancelable)
          then Some(Become(op, t, CancelSet)) else None
      case MetadataCheck(t, m) => if Updatable(op) then Some(Become(op, t, MetadataSet(m))) else None
      case ResourcesCheck(t, r) => if Updatable(op) then Some(Become(op, t, ResourcesSet(r))) else None
      case WaitCheck(t) => if IsFinal(op.status) then Some(op) else Some(Become(op, t, Waiting))
      case _ => None
  }

  // The next step of a running thread.
  function ThreadNext(op: Op, e: Event): Option<Op> {
    if e.t !in op.threads then None
    else
      var pc := op.threads[e.t];
      match e
      case RunDo(t) =>
        if !pc.RunSet? then None
        else if op.hasRun && !op.readonly then Some(Become(op.(status := Running), t, Executing))
        else Some(Leave(op.(status := Running), t))
      case RunReturns(t, err) =>
        if !pc.Executing? then None
        else Some(Become(op, t, if err.None? then SetFinal(Success) else SetFinal(Failure, err.value)))
      case CancelDo(t) =>
        if pc.CancelSet? then Some(Become(op.(status := Cancelling), t, CancelAsk)) else None
      case CancelAnswer(t, ok) =>
        if !pc.CancelAsk? then None
        else if ok || !op.canceler then Some(Become(op, t, SetFinal(Cancelled))) else Some(Leave(op, t))
      case Finalize(t) =>
        if !pc.SetFinal? then None
        else
          var error := if pc.status.Failure? then pc.error else op.err;
          Some(Become(op.(status := pc.status, err := error), t, DoneTest))
      case Test(t) =>
        if !pc.DoneTest? then None
        else if op.readonly then Some(Leave(op, t)) else Some(Become(op, t, DoneClose))
      case Close(t) =>
        if pc.DoneClose? then Some(Become(op.(readonly := true, closes := op.closes + 1), t, Removal)) else None
      case Remove(t) => if pc.Removal? then Some(Leave(op.(registered := false), t)) else None
      case UpdateDo(t) =>
        if pc.MetadataSet? then Some(Leave(op.(metadata := pc.metadata), t))
        else if pc.ResourcesSet? then Some(Leave(op.(resources := pc.resources), t))
        else None
      case WaitReturns(t) => if pc.Waiting? && op.closes > 0 then Some(Leave(op, t)) else None
      case _ => None
  }

  function Next(op: Op, e: Event): Option<Op> {
    if e.t in op.threads then ThreadNext(op, e) else CallNext(op, e)
  }

  // A set whose check would fail by now.
  predicate Stale(op: Op, e: Event) {
    match e
    case RunDo(_) => op.status != Pending
    case CancelDo(_) => op.status != Running
    case Close(_) => op.readonly
    case UpdateDo(_) => !Updatable(op)
    case _ => false
  }

  // ---------------------------------------------------------------- the methods

  // The object, with each method running alone: it takes the same steps as a
  // thread `t` of the step relation.
  class Operation {
    const class_: Class
    const hasRun: bool
    const canceler: bool
    var status: Status
    var readonly: bool
    var closes: nat
    var metadata: string
    var resources: string
    var registered: bool
    var err: string
    ghost var threads: map<nat, Pc>

    ghost function View(): Op
      reads this
    {
      Op(class_, hasRun, canceler, status, readonly, closes, metadata, resources, registered, threads, err)
    }

    constructor (class_: Class, hasRun: bool, canceler: bool, metadata: string, resources: string)
      requires class_ == Token ==> !hasRun
      ensures View() == Op(class_, hasRun, canceler, Pending, false, 0, metadata, resources, true, map[])
    {
      this.class_, this.hasRun, this.canceler := class_, hasRun, canceler;
      status, readonly, closes, registered := Pending, false, 0, true;
      this.metadata, this.resources := metadata, resources;
      threads, err := map[], "";
    }

    method Run(ghost t: nat) returns (started: bool)
      requires t !in threads
      modifies this
      ensures started <==> old(status) == Pending
      ensures !started ==> View() == old(View())
      ensures started ==> Next(old(View()), RunCheck(t)).Some?
      ensures started ==> Next(Next(old(View()), RunCheck(t)).value, RunDo(t)) == Some(View())
      ensures started ==> View() == old(View()).(status := Running, threads := threads)
    {
      if status != Pending {
        return false;
      }
      status := Running;
      if hasRun && !readonly {
        threads := threads[t := Executing];
      }
      assert old(threads)[t := RunSet] - {t} == old(threads);
      assert old(threads)[t := RunSet][t := Executing] == old(threads)[t := Executing];
      return true;
    }

    method Done(ghost t: nat)
      requires t in threads && threads[t] == DoneTest
      modifies this
      ensures Next(old(View()), Test(t)).Some?
      ensures var u := Next(old(View()), Test(t)).value;
              if old(readonly) then u == View() else Next(u, Close(t)) == Some(View())
      ensures View() == old(View()).(readonly := true, closes := closes, threads := threads)
      ensures closes == old(closes) + if old(readonly) then 0 else 1
    {
      if readonly {
        threads := threads - {t};
        return;
      }
      readonly := true;
      closes := closes + 1;
      threads := threads[t := Removal];
      assert old(threads)[t := DoneClose][t := Removal] == threads;
    }

    // The goroutine of Run after onRun returned, or Cancel after the canceler
    // agreed: set the final status, then done().
    method Finish(ghost t: nat, final: Status, error: string)
      requires t in threads && threads[t] == SetFinal(final, error)
      modifies this
      ensures Next(old(View()), Finalize(t)).Some?
      ensures Next(Next(old(View()), Finalize(t)).value, Test(t)).Some?
      ensures var u := Next(Next(old(View()), Finalize(t)).value, Test(t)).value;
              if old(readonly) then u == View() else Next(u, Close(t)) == Some(View())
      ensures status == final && err == if final.Failure? then error else old(err)
      ensures readonly && closes == old(closes) + if old(readonly) then 0 else 1
      ensures metadata == old(metadata) && resources == old(resources) && registered == old(registered)
    {
      status := final;
      if final.Failure? {
        err := error;
      }
      threads := threads[t := DoneTest];
      Done(t);
    }

    // The goroutine of Run as a whole, from the answer of onRun on.
    method RunReturned(ghost t: nat, answer: Option<string>)
      requires t in threads && threads[t] == Executing
      modifies this
      ensures Next(old(View()), RunReturns(t, answer)).Some?
      ensures status == if answer.None? then Success else Failure
      ensures err == if answer.Some? then answer.value else old(err)
      ensures readonly && closes == old(closes) + if old(readonly) then 0 else 1
      ensures metadata == old(metadata) && resources == old(resources) && registered == old(registered)
    {
      if answer.Some? {
        threads := threads[t := SetFinal(Failure, answer.value)];
        Finish(t, Failure, answer.value);
        return;
      }
      threads := threads[t := SetFinal(Success)];
      Finish(t, Success, "");
    }

    method UpdateMetadata(ghost t: nat, value: string) returns (ok: bool)
      requires t !in threads
      modifies this
      ensures ok <==> (old(status) == Pending || old(status) == Running) && !old(readonly)
      ensures !ok ==> View() == old(View())
      ensures ok ==> Next(old(View()), MetadataCheck(t, value)).Some?
      ensures ok ==> Next(Next(old(View()), MetadataCheck(t, value)).value, UpdateDo(t)) == Some(View())
      ensures ok ==> View() == old(View()).(metadata := value)
    {
      if status != Pending && status != Running {
        return false;
      }
      if readonly {
        return false;
      }
      metadata := value;
      assert old(threads)[t := MetadataSet(value)] - {t} == threads;
      return true;
    }

    method UpdateResources(ghost t: nat, value: string) returns (ok: bool)
      requires t !in threads
      modifies this
      ensures ok <==> (old(status) == Pending || old(status) == Running) && !old(readonly)
      ensures !ok ==> View() == old(View())
      ensures ok ==> Next(old(View()), ResourcesCheck(t, value)).Some?
      ensures ok ==> Next(Next(old(View()), ResourcesCheck(t, value)).value, UpdateDo(t)) == Some(View())
      ensures ok ==> View() == old(View()).(resources := value)
    {
      if status != Pending && status != Running {
        return false;
      }
      if readonly {
        return false;
      }
      resources := value;
      assert old(threads)[t := ResourcesSet(value)] - {t} == threads;
      return true;
    }

    // `cancelable` is what the canceler says at the check, `agreed` whether it then
    // cancels.
    method Cancel(ghost t: nat, cancelable: bool, agreed: bool) returns (ok: bool)
      requires t !in threads
      modifies this
      ensures !(old(status) == Running && MayCancel(old(View()), cancelable)) ==> !ok && View() == old(View())
      ensures old(status) == Running && MayCancel(old(View()), cancelable) ==>
                && Next(old(View()), CancelCheck(t, cancelable)).Some?
                && Next(Next(old(View()), CancelCheck(t, cancelable)).value, CancelDo(t)).Some?
                && (ok <==> agreed || !canceler)
      ensures old(status) == Running && MayCancel(old(View()), cancelable) && !ok ==>
                status == Cancelling && View() == old(View()).(status := Cancelling)
      ensures ok ==> status == Cancelled && readonly && closes == old(closes) + if old(readonly) then 0 else 1
      ensures metadata == old(metadata) && resources == old(resources) && registered == old(registered)
    {
      if status != Running {
        return false;
      }
      if class_ != Token && !(canceler && cancelable) {
        return false;
      }
      status := Cancelling;
      if canceler && !agreed {
        return false;
      }
      FinishCancel(t);
      return true;
    }

    method FinishCancel(ghost t: nat)
      requires t !in threads
      modifies this
      ensures status == Cancelled && readonly && closes == old(closes) + if old(readonly) then 0 else 1
      ensures metadata == old(metadata) && resources == old(resources) && registered == old(registered)
    {
      threads := threads[t := SetFinal(Cancelled)];
      Finish(t, Cancelled, "");
    }
  }

  // ------------------------------------------------------------------- the runs

  predicate Created(op: Op) {
    op.status == Pending && !op.readonly && op.closes == 0 && op.registered && op.threads == map[] && op.err == ""
    && (op.class_ == Token ==> !op.hasRun)
  }

  ghost predicate Run(es: seq<Event>, ops: seq<Op>) {
    && |ops| == |es| + 1
    && Created(ops[0])
    && forall i :: 0 <= i < |es| ==> Next(ops[i], es[i]) == Some(ops[i + 1])
  }

  // Each check and its set are one step.
  ghost predicate Atomic(es: seq<Event>, ops: seq<Op>)
    requires |ops| == |es| + 1
  {
    forall i :: 0 <= i < |es| ==> !Stale(ops[i], es[i])
  }

  // An operation is created exactly when its hooks fit its class, and then as asked;
  // otherwise the error says which hook does not.
  lemma CreateIsPending(class_: Class, hasRun: bool, hasConnect: bool, canceler: bool, metadata: string,
                        resources: string)
    ensures var r := Create(class_, hasRun, hasConnect, canceler, metadata, resources);
            && (r.Ok? <==> (hasConnect <==> class_ == Websocket) && !(class_ == Token && hasRun))
            && (r.Ok? ==> Created(r.value) && r.value.class_ == class_ && r.value.hasRun == hasRun)
            && (r.Ok? ==> r.value.canceler == canceler)
            && (r.Ok? ==> r.value.metadata == metadata && r.value.resources == resources)
            && (r.Err? && hasConnect && class_ != Websocket ==> r.error == ConnectHookNotAllowed)
            && (r.Err? && !hasConnect && class_ == Websocket ==> r.error == ConnectHookMissing)
            && (r.Err? && (hasConnect <==> class_ == Websocket) ==> r.error == RunHookNotAllowed)
  {
  }

  ghost predicate Inv(op: Op) {
    && op.closes == (if op.readonly then 1 else 0)
    && (op.readonly ==> IsFinal(op.status))
    && (!op.registered ==> op.readonly)
    && (forall t :: t in op.threads && (op.threads[t].DoneTest? || op.threads[t].DoneClose?) ==> IsFinal(op.status))
    && (forall t :: t in op.threads && op.threads[t].Removal? ==> op.readonly)
    && (forall t :: t in op.threads && op.threads[t].SetFinal? ==> IsFinal(op.threads[t].status))
  }

  lemma NextKeeps(op: Op, e: Event)
    requires Inv(op)
    requires Next(op, e).Some?
    requires !Stale(op, e)
    ensures Inv(Next(op, e).value)
  {
  }

  // Where checks and sets do not interleave: chanDone is closed at most once, and
  // exactly when the operation turns read-only; a read-only operation has a final
  // status.
  lemma {:induction false} AtomicRunsAreSound(es: seq<Event>, ops: seq<Op>, k: nat)
    requires Run(es, ops)
    requires Atomic(es, ops)
    requires k < |ops|
    ensures Inv(ops[k])
  {
    if k > 0 {
      AtomicRunsAreSound(es, ops, k - 1);
      assert Next(ops[k - 1], es[k - 1]) == Some(ops[k - 1 + 1]) && !Stale(ops[k - 1], es[k - 1]);
      NextKeeps(ops[k - 1], es[k - 1]);
    }
  }

  ghost predicate ClosedInv(op: Op) {
    && (op.readonly <==> op.closes > 0)
    && (!op.registered ==> op.readonly)
    && (forall t :: t in op.threads && op.threads[t].Removal? ==> op.readonly)
  }

  lemma NextKeepsClosed(op: Op, e: Event)
    requires ClosedInv(op)
    requires Next(op, e).Some?
    ensures ClosedInv(Next(op, e).value)
    ensures op.readonly ==> Next(op, e).value.readonly
    ensures !op.registered ==> !Next(op, e).value.registered
  {
  }

  // Under every interleaving: read-only means closed, for good, and only such an
  // operation leaves the registry, for good.
  lemma {:induction false} OnlyClosedLeaves(es: seq<Event>, ops: seq<Op>, i: nat, j: nat)
    requires Run(es, ops)
    requires i <= j < |ops|
    ensures ClosedInv(ops[i]) && ClosedInv(ops[j])
    ensures ops[i].readonly ==> ops[j].readonly
    ensures !ops[i].registered ==> !ops[j].registered && ops[j].closes > 0
    decreases j
  {
    if j > 0 {
      OnlyClosedLeaves(es, ops, if i < j then i else j - 1, j - 1);
      assert Next(ops[j - 1], es[j - 1]) == Some(ops[j - 1 + 1]);
      NextKeepsClosed(ops[j - 1], es[j - 1]);
    }
  }

  // Once read-only, always read-only, with frozen metadata and resources and a
  // final status for good.
  lemma {:induction false} ReadOnlyIsFrozen(es: seq<Event>, ops: seq<Op>, i: nat, j: nat)
    requires Run(es, ops)
    requires Atomic(es, ops)
    requires i <= j < |ops|
    requires ops[i].readonly
    ensures ops[j].readonly && IsFinal(ops[j].status)
    ensures ops[j].metadata == ops[i].metadata && ops[j].resources == ops[i].resources
    decreases j - i
  {
    AtomicRunsAreSound(es, ops, j);
    if i < j {
      ReadOnlyIsFrozen(es, ops, i, j - 1);
    }
  }

  // WaitFinal(-1) returns only in a final status, at once or after the close.
  lemma WaitReturnsFinal(es: seq<Event>, ops: seq<Op>, i: nat)
    requires Run(es, ops)
    requires Atomic(es, ops)
    requires i < |es|
    requires es[i].WaitReturns? || (es[i].WaitCheck? && es[i].t !in ops[i + 1].threads)
    ensures IsFinal(ops[i + 1].status)
  {
    AtomicRunsAreSound(es, ops, i);
    assert Next(ops[i], es[i]) == Some(ops[i + 1]);
  }

  // The goroutine that set a final status has still to close chanDone, or it is closed.
  predicate Closing(op: Op, t: nat) { t in op.threads && (op.threads[t].DoneTest? || op.threads[t].DoneClose?) }

  ghost predicate WillClose(op: Op) { IsFinal(op.status) ==> op.readonly || exists t :: Closing(op, t) }

  lemma WillCloseStep(op: Op, e: Event)
    requires Inv(op)
    requires WillClose(op)
    requires Next(op, e).Some?
    requires !Stale(op, e)
    ensures WillClose(Next(op, e).value)
  {
    var op' := Next(op, e).value;
    if IsFinal(op'.status) && !op'.readonly {
      if IsFinal(op.status) {
        var t :| Closing(op, t);
        assert Closing(op', t);
      } else {
        assert Closing(op', e.t);
      }
    }
  }

  predicate Closes(op: Op, t: nat) {
    Next(op, Close(t)).Some? && Next(op, Close(t)).value.closes > 0
  }

  predicate TestsAndCloses(op: Op, t: nat) {
    Next(op, Test(t)).Some? && Closes(Next(op, Test(t)).value, t)
  }

  lemma {:induction false} AlwaysWillClose(es: seq<Event>, ops: seq<Op>, k: nat)
    requires Run(es, ops)
    requires Atomic(es, ops)
    requires k < |ops|
    ensures WillClose(ops[k])
  {
    if k > 0 {
      AlwaysWillClose(es, ops, k - 1);
      AtomicRunsAreSound(es, ops, k - 1);
      assert Next(ops[k - 1], es[k - 1]) == Some(ops[k - 1 + 1]) && !Stale(ops[k - 1], es[k - 1]);
      WillCloseStep(ops[k - 1], es[k - 1]);
    }
  }

  // Every waiter can be released: in a final status chanDone is closed, or a
  // thread of done is there whose next one or two steps close it.
  lemma WaitersAreReleased(es: seq<Event>, ops: seq<Op>, k: nat)
    requires Run(es, ops)
    requires Atomic(es, ops)
    requires k < |ops| && IsFinal(ops[k].status)
    ensures ops[k].closes > 0 || exists t :: Closing(ops[k], t) && (Closes(ops[k], t) || TestsAndCloses(ops[k], t))
  {
    AtomicRunsAreSound(es, ops, k);
    AlwaysWillClose(es, ops, k);
    if !ops[k].readonly {
      var t :| Closing(ops[k], t);
    }
  }

  // ------------------------------------------------------- one final status

  // A run of an operation of this kind.
  ghost predicate RunOf(es: seq<Event>, ops: seq<Op>, class_: Class, hasRun: bool, canceler: bool) {
    Run(es, ops) && ops[0].class_ == class_ && ops[0].hasRun == hasRun && ops[0].canceler == canceler
  }

  predicate Active(pc: Pc) { pc.Executing? || pc.CancelAsk? || pc.SetFinal? }

  // At most one thread is on its way to a final status, and none once it is there.
  ghost predicate SoleInv(op: Op) {
    && !(op.canceler && op.hasRun)
    && (op.class_ == Token ==> !op.hasRun)
    && (forall a, b :: a in op.threads && b in op.threads && Active(op.threads[a]) && Active(op.threads[b]) ==> a == b)
    && (forall a :: a in op.threads && Active(op.threads[a]) ==> op.status == if op.hasRun then Running else Cancelling)
    && (op.hasRun ==> !op.status.Cancelling?)
    && (forall a :: a in op.threads && op.threads[a].Executing? ==> op.hasRun)
    && (forall a :: a in op.threads && (op.threads[a].CancelSet? || op.threads[a].CancelAsk?) ==> !op.hasRun)
  }

  lemma SoleKeptByThread(op: Op, e: Event)
    requires Inv(op)
    requires SoleInv(op)
    requires ThreadNext(op, e).Some?
    requires !Stale(op, e)
    ensures SoleInv(ThreadNext(op, e).value)
    ensures IsFinal(op.status) ==> ThreadNext(op, e).value.status == op.status
  {
  }

  lemma SoleKept(op: Op, e: Event)
    requires Inv(op)
    requires SoleInv(op)
    requires Next(op, e).Some?
    requires !Stale(op, e)
    ensures SoleInv(Next(op, e).value)
    ensures IsFinal(op.status) ==> Next(op, e).value.status == op.status
  {
    if e.t in op.threads {
      SoleKeptByThread(op, e);
    }
  }

  lemma {:induction false} SoleAlways(es: seq<Event>, ops: seq<Op>, j: nat)
    requires Run(es, ops)
    requires Atomic(es, ops)
    requires !(ops[0].canceler && ops[0].hasRun)
    requires j < |ops|
    ensures SoleInv(ops[j])
    decreases j
  {
    if j > 0 {
      SoleAlways(es, ops, j - 1);
      AtomicRunsAreSound(es, ops, j - 1);
      assert Next(ops[j - 1], es[j - 1]) == Some(ops[j - 1 + 1]) && !Stale(ops[j - 1], es[j - 1]);
      SoleKept(ops[j - 1], es[j - 1]);
    }
  }

  lemma FinalStep(es: seq<Event>, ops: seq<Op>, k: nat)
    requires Run(es, ops)
    requires Atomic(es, ops)
    requires !(ops[0].canceler && ops[0].hasRun)
    requires k < |es|
    ensures IsFinal(ops[k].status) ==> ops[k + 1].status == ops[k].status
  {
    SoleAlways(es, ops, k);
    AtomicRunsAreSound(es, ops, k);
    assert Next(ops[k], es[k]) == Some(ops[k + 1]) && !Stale(ops[k], es[k]);
    SoleKept(ops[k], es[k]);
  }

  lemma {:induction false} FinalStatusStays(es: seq<Event>, ops: seq<Op>, i: nat, j: nat)
    requires Run(es, ops)
    requires Atomic(es, ops)
    requires !(ops[0].canceler && ops[0].hasRun)
    requires i <= j < |ops|
    ensures IsFinal(ops[i].status) ==> ops[j].status == ops[i].status
    decreases j
  {
    if i < j {
      FinalStatusStays(es, ops, i, j - 1);
      FinalStep(es, ops, j - 1);
    }
  }

  ghost predicate OneFinalStatus(ops: seq<Op>) {
    forall i, j :: 0 <= i <= j < |ops| && IsFinal(ops[i].status) ==> ops[j].status == ops[i].status
  }

  // One more event at the end of a run.
  lemma Then(es: seq<Event>, ops: seq<Op>, e: Event) returns (es': seq<Event>, ops': seq<Op>)
    requires Run(es, ops)
    requires Next(ops[|es|], e).Some?
    ensures Run(es', ops') && es' == es + [e] && ops' == ops + [Next(ops[|es|], e).value]
    ensures Atomic(es, ops) && !Stale(ops[|es|], e) ==> Atomic(es', ops')
  {
    es', ops' := es + [e], ops + [Next(ops[|es|], e).value];
    forall i | 0 <= i < |es'| ensures Next(ops'[i], es'[i]) == Some(ops'[i + 1]) {
      if i < |es| { assert Next(ops[i], es[i]) == Some(ops[i + 1]); }
    }
  }

  function New(class_: Class, hasRun: bool, canceler: bool): Op {
    Op(class_, hasRun, canceler, Pending, false, 0, "", "", true, map[])
  }

  lemma Start(class_: Class, hasRun: bool, canceler: bool) returns (es: seq<Event>, ops: seq<Op>)
    requires class_ == Token ==> !hasRun
    ensures RunOf(es, ops, class_, hasRun, canceler) && Atomic(es, ops)
    ensures ops[|es|] == New(class_, hasRun, canceler)
  {
    es, ops := [], [New(class_, hasRun, canceler)];
  }

  // A run and a cancel both finish: even atomic steps replace one final status by
  // another.
  lemma CancelReplacesFinal(class_: Class) returns (es: seq<Event>, ops: seq<Op>)
    requires class_ != Token
    ensures RunOf(es, ops, class_, true, true) && Atomic(es, ops) && |es| > 0
    ensures ops[|es| - 1].status == Success && ops[|es|].status == Cancelled
  {
    es, ops := Start(class_, true, true);
    es, ops := Then(es, ops, RunCheck(0));
    es, ops := Then(es, ops, RunDo(0));
    es, ops := Then(es, ops, CancelCheck(1, true));
    es, ops := Then(es, ops, CancelDo(1));
    es, ops := Then(es, ops, CancelAnswer(1, true));
    es, ops := Then(es, ops, RunReturns(0, None));
    es, ops := Then(es, ops, Finalize(0));
    es, ops := Then(es, ops, Finalize(1));
  }

  // With each check and its set as one step, the first final status is the last, in
  // every run of an operation of this kind, if and only if it does not have both a
  // run hook and a canceler.
  lemma FinalStatusIsUnique(class_: Class, hasRun: bool, canceler: bool)
    requires class_ == Token ==> !hasRun
    ensures (forall es: seq<Event>, ops: seq<Op> :: RunOf(es, ops, class_, hasRun, canceler) && Atomic(es, ops) ==>
              OneFinalStatus(ops))
       <==> !(canceler && hasRun)
  {
    if canceler && hasRun {
      var es, ops := CancelReplacesFinal(class_);
      assert !OneFinalStatus(ops) by { assert ops[|es|].status != ops[|es| - 1].status; }
    } else {
      forall es: seq<Event>, ops: seq<Op> | RunOf(es, ops, class_, hasRun, canceler) && Atomic(es, ops)
        ensures OneFinalStatus(ops)
      {
        forall i, j | 0 <= i <= j < |ops| && IsFinal(ops[i].status) ensures ops[j].status == ops[i].status {
          FinalStatusStays(es, ops, i, j);
        }
      }
    }
  }

  // ------------------------------------------------------------- building runs

  // ------------------------------------------- exactly where interleaving breaks it

  // An operation of this kind can get to a final status at all.
  predicate CanFinish(class_: Class, hasRun: bool, canceler: bool) { hasRun || class_ == Token || canceler }

  predicate NeverFinal(pc: Pc) { pc.RunSet? || pc.MetadataSet? || pc.ResourcesSet? || pc.Waiting? }

  ghost predicate Unfinished(op: Op) {
    && !CanFinish(op.class_, op.hasRun, op.canceler)
    && !op.readonly && op.closes == 0 && !IsFinal(op.status)
    && (forall t :: t in op.threads ==> NeverFinal(op.threads[t]))
  }

  lemma {:induction false} NeverFinishes(es: seq<Event>, ops: seq<Op>, k: nat)
    requires Run(es, ops)
    requires !CanFinish(ops[0].class_, ops[0].hasRun, ops[0].canceler)
    requires k < |ops|
    ensures Unfinished(ops[k])
  {
    if k > 0 {
      NeverFinishes(es, ops, k - 1);
      assert Next(ops[k - 1], es[k - 1]) == Some(ops[k - 1 + 1]);
    }
  }

  // Some run of an operation of this kind leads to `op`.
  ghost predicate Reached(class_: Class, hasRun: bool, canceler: bool, op: Op) {
    exists es, ops :: RunOf(es, ops, class_, hasRun, canceler) && ops[|es|] == op
  }

  lemma Go(class_: Class, hasRun: bool, canceler: bool, op: Op, e: Event) returns (op': Op)
    requires Reached(class_, hasRun, canceler, op)
    requires Next(op, e).Some?
    ensures op' == Next(op, e).value && Reached(class_, hasRun, canceler, op')
  {
    var es: seq<Event>, ops: seq<Op> :| RunOf(es, ops, class_, hasRun, canceler) && ops[|es|] == op;
    var es', ops' := Then(es, ops, e);
    op' := ops'[|es'|];
  }

  lemma NewIsReached(class_: Class, hasRun: bool, canceler: bool)
    requires class_ == Token ==> !hasRun
    ensures Reached(class_, hasRun, canceler, New(class_, hasRun, canceler))
  {
    var es, ops := Start(class_, hasRun, canceler);
  }

  function With(op: Op, status: Status, threads: map<nat, Pc>): Op { op.(status := status, threads := threads) }

  // The final status of a run, or else of a cancel.
  function Outcome(hasRun: bool): Status { if hasRun then Success else Cancelled }

  lemma TwoRunsCheck(class_: Class, canceler: bool)
    requires class_ != Token
    ensures Reached(class_, true, canceler, With(New(class_, true, canceler), Pending, map[0 := RunSet, 1 := RunSet]))
  {
    var op := New(class_, true, canceler);
    NewIsReached(class_, true, canceler);
    op := Go(class_, true, canceler, op, RunCheck(0));
    op := Go(class_, true, canceler, op, RunCheck(1));
    assert op.threads == map[0 := RunSet, 1 := RunSet];
  }

  // Two threads about to set a final status: of two interleaved runs.
  lemma TwoRunsFinish(class_: Class, canceler: bool)
    requires class_ != Token
    ensures Reached(class_, true, canceler,
              With(New(class_, true, canceler), Running, map[0 := SetFinal(Success), 1 := SetFinal(Success)]))
  {
    TwoRunsCheck(class_, canceler);
    var op := With(New(class_, true, canceler), Pending, map[0 := RunSet, 1 := RunSet]);
    op := Go(class_, true, canceler, op, RunDo(0));
    op := Go(class_, true, canceler, op, RunDo(1));
    op := Go(class_, true, canceler, op, RunReturns(0, None));
    op := Go(class_, true, canceler, op, RunReturns(1, None));
    assert op.threads == map[0 := SetFinal(Success), 1 := SetFinal(Success)];
  }

  lemma TwoCancelsCheck(class_: Class, canceler: bool)
    requires class_ == Token || canceler
    ensures Reached(class_, false, canceler,
              With(New(class_, false, canceler), Running, map[0 := CancelSet, 1 := CancelSet]))
  {
    var op := New(class_, false, canceler);
    NewIsReached(class_, false, canceler);
    op := Go(class_, false, canceler, op, RunCheck(0));
    op := Go(class_, false, canceler, op, RunDo(0));
    op := Go(class_, false, canceler, op, CancelCheck(0, true));
    op := Go(class_, false, canceler, op, CancelCheck(1, true));
    assert op.threads == map[0 := CancelSet, 1 := CancelSet];
  }

  lemma TwoCancelsSet(class_: Class, canceler: bool)
    requires class_ == Token || canceler
    ensures Reached(class_, false, canceler,
              With(New(class_, false, canceler), Cancelling, map[0 := CancelAsk, 1 := CancelAsk]))
  {
    TwoCancelsCheck(class_, canceler);
    var op := With(New(class_, false, canceler), Running, map[0 := CancelSet, 1 := CancelSet]);
    op := Go(class_, false, canceler, op, CancelDo(0));
    op := Go(class_, false, canceler, op, CancelDo(1));
    assert op.threads == map[0 := CancelAsk, 1 := CancelAsk];
  }

  // The same, of two interleaved cancels.
  lemma TwoCancelsFinish(class_: Class, canceler: bool)
    requires class_ == Token || canceler
    ensures Reached(class_, false, canceler,
              With(New(class_, false, canceler), Cancelling, map[0 := SetFinal(Cancelled), 1 := SetFinal(Cancelled)]))
  {
    TwoCancelsSet(class_, canceler);
    var op := With(New(class_, false, canceler), Cancelling, map[0 := CancelAsk, 1 := CancelAsk]);
    op := Go(class_, false, canceler, op, CancelAnswer(0, true));
    op := Go(class_, false, canceler, op, CancelAnswer(1, true));
    assert op.threads == map[0 := SetFinal(Cancelled), 1 := SetFinal(Cancelled)];
  }

  lemma TwoFinalize(class_: Class, hasRun: bool, canceler: bool)
    requires class_ == Token ==> !hasRun
    requires CanFinish(class_, hasRun, canceler)
    ensures Reached(class_, hasRun, canceler, With(New(class_, hasRun, canceler), Outcome(hasRun),
              map[0 := DoneTest, 1 := DoneTest]))
  {
    if hasRun { TwoRunsFinish(class_, canceler); } else { TwoCancelsFinish(class_, canceler); }
    var op := With(New(class_, hasRun, canceler), if hasRun then Running else Cancelling,
      map[0 := SetFinal(Outcome(hasRun)), 1 := SetFinal(Outcome(hasRun))]);
    op := Go(class_, hasRun, canceler, op, Finalize(0));
    op := Go(class_, hasRun, canceler, op, Finalize(1));
    assert op.threads == map[0 := DoneTest, 1 := DoneTest];
  }

  lemma TwoFinish(class_: Class, hasRun: bool, canceler: bool)
    requires class_ == Token ==> !hasRun
    requires CanFinish(class_, hasRun, canceler)
    ensures Reached(class_, hasRun, canceler, With(New(class_, hasRun, canceler), Outcome(hasRun),
              map[0 := DoneClose, 1 := DoneClose]))
  {
    TwoFinalize(class_, hasRun, canceler);
    var op := With(New(class_, hasRun, canceler), Outcome(hasRun), map[0 := DoneTest, 1 := DoneTest]);
    op := Go(class_, hasRun, canceler, op, Test(0));
    op := Go(class_, hasRun, canceler, op, Test(1));
    assert op.threads == map[0 := DoneClose, 1 := DoneClose];
  }

  // Two done calls that both test first close chanDone twice, which panics.
  lemma ClosesTwice(class_: Class, hasRun: bool, canceler: bool) returns (op: Op)
    requires class_ == Token ==> !hasRun
    requires CanFinish(class_, hasRun, canceler)
    ensures Reached(class_, hasRun, canceler, op) && op.closes == 2
  {
    TwoFinish(class_, hasRun, canceler);
    op := With(New(class_, hasRun, canceler), Outcome(hasRun), map[0 := DoneClose, 1 := DoneClose]);
    op := Go(class_, hasRun, canceler, op, Close(0));
    op := Go(class_, hasRun, canceler, op, Close(1));
  }

  // A thread at `pc`, and a run and an update that passed their checks.
  function Late(pc: Pc): map<nat, Pc> { map[0 := pc, 1 := RunSet, 2 := MetadataSet("late")] }

  lemma Checked(class_: Class, hasRun: bool, canceler: bool)
    requires class_ == Token ==> !hasRun
    ensures Reached(class_, hasRun, canceler, With(New(class_, hasRun, canceler), Pending, Late(RunSet)))
  {
    var op := New(class_, hasRun, canceler);
    NewIsReached(class_, hasRun, canceler);
    op := Go(class_, hasRun, canceler, op, RunCheck(0));
    op := Go(class_, hasRun, canceler, op, RunCheck(1));
    op := Go(class_, hasRun, canceler, op, MetadataCheck(2, "late"));
    assert op.threads == Late(RunSet);
  }

  lemma LateCancelCheck(class_: Class, canceler: bool)
    requires class_ == Token || canceler
    ensures Reached(class_, false, canceler, With(New(class_, false, canceler), Running, Late(CancelSet)))
  {
    Checked(class_, false, canceler);
    var op := With(New(class_, false, canceler), Pending, Late(RunSet));
    op := Go(class_, false, canceler, op, RunDo(0));
    op := Go(class_, false, canceler, op, CancelCheck(0, true));
    assert op.threads == Late(CancelSet);
  }

  lemma LateCancel(class_: Class, canceler: bool)
    requires class_ == Token || canceler
    ensures Reached(class_, false, canceler,
              With(New(class_, false, canceler), Cancelling, Late(SetFinal(Cancelled))))
  {
    LateCancelCheck(class_, canceler);
    var op := With(New(class_, false, canceler), Running, Late(CancelSet));
    op := Go(class_, false, canceler, op, CancelDo(0));
    op := Go(class_, false, canceler, op, CancelAnswer(0, true));
    assert op.threads == Late(SetFinal(Cancelled));
  }

  lemma LateRun(class_: Class, canceler: bool)
    requires class_ != Token
    ensures Reached(class_, true, canceler, With(New(class_, true, canceler), Running, Late(SetFinal(Success))))
  {
    Checked(class_, true, canceler);
    var op := With(New(class_, true, canceler), Pending, Late(RunSet));
    op := Go(class_, true, canceler, op, RunDo(0));
    op := Go(class_, true, canceler, op, RunReturns(0, None));
    assert op.threads == Late(SetFinal(Success));
  }

  lemma OneTests(class_: Class, hasRun: bool, canceler: bool)
    requires class_ == Token ==> !hasRun
    requires CanFinish(class_, hasRun, canceler)
    ensures Reached(class_, hasRun, canceler, With(New(class_, hasRun, canceler), Outcome(hasRun), Late(DoneTest)))
  {
    if hasRun { LateRun(class_, canceler); } else { LateCancel(class_, canceler); }
    var op := With(New(class_, hasRun, canceler), if hasRun then Running else Cancelling,
      Late(SetFinal(Outcome(hasRun))));
    op := Go(class_, hasRun, canceler, op, Finalize(0));
    assert op.threads == Late(DoneTest);
  }

  // The operation that thread 0 has finished.
  function Finished(class_: Class, hasRun: bool, canceler: bool): Op {
    With(New(class_, hasRun, canceler), Outcome(hasRun), Late(Removal)).(readonly := true, closes := 1)
  }

  lemma OneFinishes(class_: Class, hasRun: bool, canceler: bool)
    requires class_ == Token ==> !hasRun
    requires CanFinish(class_, hasRun, canceler)
    ensures Reached(class_, hasRun, canceler, Finished(class_, hasRun, canceler))
  {
    OneTests(class_, hasRun, canceler);
    var op := With(New(class_, hasRun, canceler), Outcome(hasRun), Late(DoneTest));
    op := Go(class_, hasRun, canceler, op, Test(0));
    op := Go(class_, hasRun, canceler, op, Close(0));
    assert op.threads == Late(Removal);
  }

  // An update that passed its check before done changes a read-only operation.
  lemma LateUpdateThaws(class_: Class, hasRun: bool, canceler: bool) returns (es: seq<Event>, ops: seq<Op>)
    requires class_ == Token ==> !hasRun
    requires CanFinish(class_, hasRun, canceler)
    ensures RunOf(es, ops, class_, hasRun, canceler) && |es| > 0
    ensures ops[|es| - 1].readonly && ops[|es|].metadata != ops[|es| - 1].metadata
  {
    OneFinishes(class_, hasRun, canceler);
    var op := Finished(class_, hasRun, canceler);
    es, ops :| RunOf(es, ops, class_, hasRun, canceler) && ops[|es|] == op;
    es, ops := Then(es, ops, UpdateDo(2));
  }

  // A run that passed its check before done sets a finished operation to running.
  lemma LateRunUnfinishes(class_: Class, hasRun: bool, canceler: bool) returns (op: Op)
    requires class_ == Token ==> !hasRun
    requires CanFinish(class_, hasRun, canceler)
    ensures Reached(class_, hasRun, canceler, op)
    ensures op.readonly && !IsFinal(op.status)
  {
    OneFinishes(class_, hasRun, canceler);
    op := Go(class_, hasRun, canceler, Finished(class_, hasRun, canceler), RunDo(1));
  }

  ghost predicate Frozen(ops: seq<Op>) {
    forall i, j :: 0 <= i <= j < |ops| && ops[i].readonly ==>
      ops[j].metadata == ops[i].metadata && ops[j].resources == ops[i].resources
  }

  ghost predicate ReadOnlyIsFinal(ops: seq<Op>) {
    forall i :: 0 <= i < |ops| && ops[i].readonly ==> IsFinal(ops[i].status)
  }

  // Under every interleaving, chanDone is closed at most once, if and only if an
  // operation of this kind cannot finish at all.
  lemma ClosedOnceExactly(class_: Class, hasRun: bool, canceler: bool)
    requires class_ == Token ==> !hasRun
    ensures (forall es: seq<Event>, ops: seq<Op> :: RunOf(es, ops, class_, hasRun, canceler) ==> ops[|es|].closes <= 1)
       <==> !CanFinish(class_, hasRun, canceler)
  {
    if CanFinish(class_, hasRun, canceler) {
      var op := ClosesTwice(class_, hasRun, canceler);
      var es: seq<Event>, ops: seq<Op> :| RunOf(es, ops, class_, hasRun, canceler) && ops[|es|] == op;
    } else {
      forall es: seq<Event>, ops: seq<Op> | RunOf(es, ops, class_, hasRun, canceler) ensures ops[|es|].closes <= 1 {
        NeverFinishes(es, ops, |es|);
      }
    }
  }

  // The same goes for a read-only operation being final.
  lemma FinalExactly(class_: Class, hasRun: bool, canceler: bool)
    requires class_ == Token ==> !hasRun
    ensures (forall es: seq<Event>, ops: seq<Op> :: RunOf(es, ops, class_, hasRun, canceler) ==> ReadOnlyIsFinal(ops))
       <==> !CanFinish(class_, hasRun, canceler)
  {
    if CanFinish(class_, hasRun, canceler) {
      var op := LateRunUnfinishes(class_, hasRun, canceler);
      var es: seq<Event>, ops: seq<Op> :| RunOf(es, ops, class_, hasRun, canceler) && ops[|es|] == op;
      assert !ReadOnlyIsFinal(ops);
    } else {
      forall es: seq<Event>, ops: seq<Op> | RunOf(es, ops, class_, hasRun, canceler) ensures ReadOnlyIsFinal(ops) {
        forall i | 0 <= i < |ops| ensures !ops[i].readonly { NeverFinishes(es, ops, i); }
      }
    }
  }

  // And for a read-only operation being frozen.
  lemma FrozenExactly(class_: Class, hasRun: bool, canceler: bool)
    requires class_ == Token ==> !hasRun
    ensures (forall es: seq<Event>, ops: seq<Op> :: RunOf(es, ops, class_, hasRun, canceler) ==> Frozen(ops))
       <==> !CanFinish(class_, hasRun, canceler)
  {
    if CanFinish(class_, hasRun, canceler) {
      var es, ops := LateUpdateThaws(class_, hasRun, canceler);
      assert !Frozen(ops) by { assert ops[|es|].metadata != ops[|es| - 1].metadata; }
    } else {
      forall es: seq<Event>, ops: seq<Op> | RunOf(es, ops, class_, hasRun, canceler) ensures Frozen(ops) {
        forall i | 0 <= i < |ops| ensures !ops[i].readonly { NeverFinishes(es, ops, i); }
      }
    }
  }
}
