// What an API operation says of its past (apollo/operations.go): which answer its
// final status stands for, and which update its metadata and resources.
module ApiHistory {
  import opened Wrappers
  import opened ApiOperations

  // ------------------------------------------------------------- what happened

  ghost predicate Started(es: seq<Event>, k: nat)
    requires k <= |es|
  {
    exists i :: 0 <= i < k && es[i].RunDo?
  }

  // onRun returned nil, or this error.
  ghost predicate Answered(es: seq<Event>, k: nat, err: Option<string>)
    requires k <= |es|
  {
    exists i :: 0 <= i < k && es[i].RunReturns? && es[i].err == err
  }

  // A call of Cancel passed its checks.
  ghost predicate MayBeCancelled(es: seq<Event>, k: nat, op: Op)
    requires k <= |es|
  {
    exists i :: 0 <= i < k && es[i].CancelCheck? && (op.class_ == Token || (op.canceler && es[i].cancelable))
  }

  // And its canceler, if there is one, did cancel.
  ghost predicate Agreed(es: seq<Event>, k: nat, op: Op)
    requires k <= |es|
  {
    exists i :: 0 <= i < k && es[i].CancelAnswer? && (es[i].ok || !op.canceler)
  }

  ghost predicate AskedMetadata(es: seq<Event>, k: nat, metadata: string)
    requires k <= |es|
  {
    exists i :: 0 <= i < k && es[i].MetadataCheck? && es[i].metadata == metadata
  }

  ghost predicate AskedResources(es: seq<Event>, k: nat, resources: string)
    requires k <= |es|
  {
    exists i :: 0 <= i < k && es[i].ResourcesCheck? && es[i].resources == resources
  }

  // ------------------------------------------------------------- the invariant

  ghost predicate StatusReason(es: seq<Event>, k: nat, op: Op, status: Status, error: string)
    requires k <= |es|
  {
    match status
    case Pending => !Started(es, k)
    case Running => Started(es, k)
    case Cancelling => MayBeCancelled(es, k, op)
    case Success => Answered(es, k, None)
    case Failure => Answered(es, k, Some(error))
    case Cancelled => MayBeCancelled(es, k, op) && Agreed(es, k, op)
  }

  ghost predicate PcReason(es: seq<Event>, k: nat, op: Op, pc: Pc)
    requires k <= |es|
  {
    match pc
    case Executing => Started(es, k)
    case CancelSet => MayBeCancelled(es, k, op)
    case CancelAsk => MayBeCancelled(es, k, op)
    case SetFinal(status, error) => StatusReason(es, k, op, status, error)
    case MetadataSet(metadata) => AskedMetadata(es, k, metadata)
    case ResourcesSet(resources) => AskedResources(es, k, resources)
    case _ => true
  }

  ghost predicate ValuesReason(es: seq<Event>, k: nat, first: Op, op: Op)
    requires k <= |es|
  {
    && (op.err == "" || Answered(es, k, Some(op.err)))
    && (op.metadata == first.metadata || AskedMetadata(es, k, op.metadata))
    && (op.resources == first.resources || AskedResources(es, k, op.resources))
  }

  predicate SameKind(a: Op, b: Op) { a.class_ == b.class_ && a.hasRun == b.hasRun && a.canceler == b.canceler }

  ghost predicate ThreadsReason(es: seq<Event>, k: nat, op: Op)
    requires k <= |es|
  {
    forall t :: t in op.threads ==> PcReason(es, k, op, op.threads[t])
  }

  lemma PcReasonStays(es: seq<Event>, k: nat, op: Op, op': Op, pc: Pc)
    requires k < |es| && SameKind(op, op')
    requires !pc.SetFinal? || IsFinal(pc.status)
    requires PcReason(es, k, op, pc)
    ensures PcReason(es, k + 1, op', pc)
  {
  }

  lemma NextKeepsOthers(op: Op, e: Event)
    requires Next(op, e).Some?
    ensures SameKind(op, Next(op, e).value)
    ensures forall t :: t != e.t ==> (t in op.threads <==> t in Next(op, e).value.threads)
    ensures forall t :: t != e.t && t in op.threads && t in Next(op, e).value.threads ==>
              Next(op, e).value.threads[t] == op.threads[t]
  {
  }

  // Which calls get through, and which steps a thread can take: a call needs a new
  // thread, and a step of a thread needs the one before it.
  lemma CallsExactly(op: Op, e: Event)
    requires e.t !in op.threads
    ensures e.RunCheck? ==> (Next(op, e).Some? <==> op.status == Pending)
    ensures e.CancelCheck? ==>
              (Next(op, e).Some? <==> op.status == Running && (op.class_ == Token || (op.canceler && e.cancelable)))
    ensures e.MetadataCheck? || e.ResourcesCheck? ==>
              (Next(op, e).Some? <==> (op.status == Pending || op.status == Running) && !op.readonly)
    ensures e.WaitCheck? && op.status in {Success, Failure, Cancelled} ==> Next(op, e) == Some(op)
    ensures e.WaitCheck? && op.status !in {Success, Failure, Cancelled} ==>
              Next(op, e) == Some(op.(threads := op.threads[e.t := Waiting]))
    ensures Next(op, e).Some? ==>
              e.RunCheck? || e.CancelCheck? || e.MetadataCheck? || e.ResourcesCheck? || e.WaitCheck?
  {
  }

  predicate IsNext(pc: Pc, e: Event) {
    match e
    case RunDo(_) => pc.RunSet?
    case RunReturns(_, _) => pc.Executing?
    case CancelDo(_) => pc.CancelSet?
    case CancelAnswer(_, _) => pc.CancelAsk?
    case Finalize(_) => pc.SetFinal?
    case Test(_) => pc.DoneTest?
    case Close(_) => pc.DoneClose?
    case Remove(_) => pc.Removal?
    case UpdateDo(_) => pc.MetadataSet? || pc.ResourcesSet?
    case WaitReturns(_) => pc.Waiting?
    case _ => false
  }

  // Only a waiter is ever held up, and only until the channel is closed.
  lemma StepsExactly(op: Op, e: Event)
    requires e.t in op.threads
    ensures Next(op, e).Some? <==> IsNext(op.threads[e.t], e) && (e.WaitReturns? ==> op.closes > 0)
  {
  }

  // Where a step takes its thread.
  lemma StepLeadsTo(op: Op, e: Event)
    requires e.t in op.threads && Next(op, e).Some?
    ensures var ts := Next(op, e).value.threads;
            && (e.RunDo? && op.hasRun && !op.readonly ==> e.t in ts && ts[e.t] == Executing)
            && (e.RunDo? && !(op.hasRun && !op.readonly) ==> e.t !in ts)
            && (e.RunReturns? ==> e.t in ts && ts[e.t].SetFinal?)
            && (e.CancelDo? ==> e.t in ts && ts[e.t] == CancelAsk)
            && (e.CancelAnswer? ==> (e.t in ts <==> e.ok || !op.canceler))
            && (e.Finalize? ==> e.t in ts && ts[e.t] == DoneTest)
            && (e.Test? && op.readonly ==> e.t !in ts)
            && (e.Test? && !op.readonly ==> e.t in ts && ts[e.t] == DoneClose)
            && (e.Close? ==> e.t in ts && ts[e.t] == Removal)
            && (e.Remove? || e.UpdateDo? || e.WaitReturns? ==> e.t !in ts)
    ensures e.Close? ==> Next(op, e).value.readonly && Next(op, e).value.closes == op.closes + 1
    ensures e.Remove? ==> !Next(op, e).value.registered
    ensures !e.Close? ==> Next(op, e).value.readonly == op.readonly && Next(op, e).value.closes == op.closes
    ensures !e.Remove? ==> Next(op, e).value.registered == op.registered
  {
  }

  // What each step writes.
  lemma NextWrites(op: Op, e: Event)
    requires Next(op, e).Some?
    ensures var op' := Next(op, e).value;
            && (e.RunDo? ==> op'.status == Running)
            && (e.CancelDo? ==> op'.status == Cancelling && e.t in op.threads && op.threads[e.t].CancelSet?)
            && (e.Finalize? ==> e.t in op.threads && op.threads[e.t].SetFinal? && op'.status == op.threads[e.t].status)
            && (e.Finalize? && op'.status.Failure? ==> op'.err == op.threads[e.t].error)
            && (!(e.Finalize? && op'.status.Failure?) ==> op'.err == op.err)
            && (!e.RunDo? && !e.CancelDo? && !e.Finalize? ==> op'.status == op.status)
  {
  }

  lemma NextWritesValues(op: Op, e: Event)
    requires Next(op, e).Some?
    ensures var op' := Next(op, e).value;
            && (!e.UpdateDo? ==> op'.metadata == op.metadata && op'.resources == op.resources)
            && (e.UpdateDo? ==>
                  e.t in op.threads && (op.threads[e.t].MetadataSet? || op.threads[e.t].ResourcesSet?))
            && (e.UpdateDo? && op.threads[e.t].MetadataSet? ==>
                  op' == op.(metadata := op.threads[e.t].metadata, threads := op'.threads))
            && (e.UpdateDo? && op.threads[e.t].ResourcesSet? ==>
                  op' == op.(resources := op.threads[e.t].resources, threads := op'.threads))
  {
  }

  ghost predicate FinalPcs(op: Op) {
    forall t :: t in op.threads && op.threads[t].SetFinal? ==> IsFinal(op.threads[t].status)
  }

  ghost predicate PcIsFinal(pc: Pc) { pc.SetFinal? ==> IsFinal(pc.status) }

  lemma CallPcReason(es: seq<Event>, k: nat, op: Op)
    requires k < |es| && CallNext(op, es[k]).Some?
    ensures var op' := CallNext(op, es[k]).value;
            es[k].t in op'.threads ==>
              PcReason(es, k + 1, op', op'.threads[es[k].t]) && PcIsFinal(op'.threads[es[k].t])
  {
  }

  lemma ThreadPcReason(es: seq<Event>, k: nat, op: Op)
    requires k < |es| && ThreadNext(op, es[k]).Some?
    requires es[k].t in op.threads && PcReason(es, k, op, op.threads[es[k].t])
    ensures var op' := ThreadNext(op, es[k]).value;
            es[k].t in op'.threads ==>
              PcReason(es, k + 1, op', op'.threads[es[k].t]) && PcIsFinal(op'.threads[es[k].t])
  {
  }

  lemma StatusReasonStays(es: seq<Event>, k: nat, op: Op, op': Op, status: Status, error: string)
    requires k < |es| && SameKind(op, op')
    requires StatusReason(es, k, op, status, error)
    requires status.Pending? ==> !es[k].RunDo?
    ensures StatusReason(es, k + 1, op', status, error)
  {
  }

  lemma NewStatusReason(es: seq<Event>, k: nat, op: Op, op': Op)
    requires k < |es| && Next(op, es[k]) == Some(op')
    requires SameKind(op, op')
    requires es[k].t in op.threads ==> PcReason(es, k, op, op.threads[es[k].t]) && PcIsFinal(op.threads[es[k].t])
    requires StatusReason(es, k, op, op.status, op.err)
    ensures StatusReason(es, k + 1, op', op'.status, op'.err)
  {
    NextWrites(op, es[k]);
    if es[k].Finalize? {
      StatusReasonStays(es, k, op, op', op'.status, if op'.status.Failure? then op'.err else op.threads[es[k].t].error);
    } else if es[k].CancelDo? {
      StatusReasonStays(es, k, op, op', Cancelling, op.err);
    } else if !es[k].RunDo? {
      StatusReasonStays(es, k, op, op', op.status, op.err);
    }
  }

  lemma AskedStays(es: seq<Event>, k: nat, v: string)
    requires k < |es|
    ensures AskedMetadata(es, k, v) ==> AskedMetadata(es, k + 1, v)
    ensures AskedResources(es, k, v) ==> AskedResources(es, k + 1, v)
    ensures Answered(es, k, Some(v)) ==> Answered(es, k + 1, Some(v))
  {
  }

  lemma NewValuesReason(es: seq<Event>, k: nat, first: Op, op: Op, op': Op)
    requires k < |es| && Next(op, es[k]) == Some(op')
    requires es[k].t in op.threads ==> PcReason(es, k, op, op.threads[es[k].t])
    requires ValuesReason(es, k, first, op)
    ensures ValuesReason(es, k + 1, first, op')
  {
    NextWrites(op, es[k]);
    NextWritesValues(op, es[k]);
    AskedStays(es, k, op'.metadata);
    AskedStays(es, k, op'.resources);
    AskedStays(es, k, op'.err);
  }

  ghost predicate Reasoned(es: seq<Event>, k: nat, first: Op, op: Op)
    requires k <= |es|
  {
    && SameKind(first, op)
    && ThreadsReason(es, k, op)
    && FinalPcs(op)
    && StatusReason(es, k, op, op.status, op.err)
    && ValuesReason(es, k, first, op)
  }

  lemma ThreadsReasonNext(es: seq<Event>, k: nat, op: Op, op': Op)
    requires k < |es| && Next(op, es[k]) == Some(op')
    requires ThreadsReason(es, k, op)
    requires FinalPcs(op)
    ensures SameKind(op, op')
    ensures ThreadsReason(es, k + 1, op')
    ensures FinalPcs(op')
  {
    NextKeepsOthers(op, es[k]);
    if es[k].t in op.threads {
      ThreadPcReason(es, k, op);
    } else {
      CallPcReason(es, k, op);
    }
    forall t | t in op'.threads ensures PcReason(es, k + 1, op', op'.threads[t]) {
      if t != es[k].t { PcReasonStays(es, k, op, op', op.threads[t]); }
    }
  }

  lemma ReasonedNext(es: seq<Event>, k: nat, first: Op, op: Op, op': Op)
    requires k < |es| && Next(op, es[k]) == Some(op')
    requires Reasoned(es, k, first, op)
    ensures Reasoned(es, k + 1, first, op')
  {
    ThreadsReasonNext(es, k, op, op');
    NewStatusReason(es, k, op, op');
    NewValuesReason(es, k, first, op, op');
  }

  // ------------------------------------------------------------ every interleaving

  // In every interleaving: an operation is pending until it is started; success
  // stands for an onRun that returned nil, failure for one that returned just this
  // error, cancelled for a call of Cancel that was allowed to and did; metadata and
  // resources are the first ones, or what an update asked for.
  lemma {:induction false} EverythingHasReason(es: seq<Event>, ops: seq<Op>, k: nat)
    requires Run(es, ops)
    requires k < |ops|
    ensures Reasoned(es, k, ops[0], ops[k])
  {
    if k > 0 {
      EverythingHasReason(es, ops, k - 1);
      assert Next(ops[k - 1], es[k - 1]) == Some(ops[k - 1 + 1]);
      ReasonedNext(es, k - 1, ops[0], ops[k - 1], ops[k]);
    }
  }

  // No event between the two is one of thread t.
  predicate Asleep(es: seq<Event>, i: nat, j: nat, t: nat)
    requires i <= j <= |es|
  {
    forall m :: i <= m < j ==> es[m].t != t
  }

  lemma {:induction false} PcKept(es: seq<Event>, ops: seq<Op>, i: nat, j: nat, t: nat)
    requires Run(es, ops)
    requires i <= j < |ops|
    requires Asleep(es, i, j, t)
    ensures t in ops[i].threads <==> t in ops[j].threads
    ensures t in ops[i].threads ==> ops[j].threads[t] == ops[i].threads[t]
    decreases j - i
  {
    if i < j {
      PcKept(es, ops, i, j - 1, t);
      assert Next(ops[j - 1], es[j - 1]) == Some(ops[j - 1 + 1]);
      NextKeepsOthers(ops[j - 1], es[j - 1]);
    }
  }

  // What onRun returned is the status that its thread sets, with the error.
  lemma AnswerIsSet(es: seq<Event>, ops: seq<Op>, i: nat, j: nat)
    requires Run(es, ops)
    requires i < j < |es| && es[i].RunReturns? && es[j] == Finalize(es[i].t)
    requires Asleep(es, i + 1, j, es[i].t)
    ensures ops[j + 1].status == if es[i].err.None? then Success else Failure
    ensures ops[j + 1].err == if es[i].err.Some? then es[i].err.value else ops[j].err
  {
    assert Next(ops[i], es[i]) == Some(ops[i + 1]) && Next(ops[j], es[j]) == Some(ops[j + 1]);
    PcKept(es, ops, i + 1, j, es[i].t);
  }

  // A canceler that refuses leaves the operation as it is; one that agrees, or none
  // at all, cancels it.
  lemma CancelIsSet(es: seq<Event>, ops: seq<Op>, i: nat, j: nat)
    requires Run(es, ops)
    requires i < j < |es| && es[i].CancelAnswer? && es[j] == Finalize(es[i].t)
    requires Asleep(es, i + 1, j, es[i].t)
    ensures es[i].ok || !ops[i].canceler
    ensures ops[j + 1].status == Cancelled && ops[j + 1].err == ops[j].err
  {
    assert Next(ops[i], es[i]) == Some(ops[i + 1]) && Next(ops[j], es[j]) == Some(ops[j + 1]);
    PcKept(es, ops, i + 1, j, es[i].t);
  }

  // An update writes what its check was asked for, and nothing else.
  lemma UpdateIsWritten(es: seq<Event>, ops: seq<Op>, i: nat, j: nat)
    requires Run(es, ops)
    requires i < j < |es| && es[j] == UpdateDo(es[i].t)
    requires Asleep(es, i + 1, j, es[i].t)
    ensures es[i].MetadataCheck? ==>
              ops[j + 1] == ops[j].(metadata := es[i].metadata, threads := ops[j].threads - {es[i].t})
    ensures es[i].ResourcesCheck? ==>
              ops[j + 1] == ops[j].(resources := es[i].resources, threads := ops[j].threads - {es[i].t})
  {
    assert Next(ops[i], es[i]) == Some(ops[i + 1]) && Next(ops[j], es[j]) == Some(ops[j + 1]);
    PcKept(es, ops, i + 1, j, es[i].t);
  }

  // --------------------------------------------------------------- atomic runs

  // The first answer of onRun.
  function FirstAnswer(es: seq<Event>, k: nat): Option<Option<string>>
    requires k <= |es|
  {
    if k == 0 then None
    else if FirstAnswer(es, k - 1).Some? then FirstAnswer(es, k - 1)
    else if es[k - 1].RunReturns? then Some(es[k - 1].err)
    else None
  }

  predicate Calls(answer: Option<string>, status: Status, error: string) {
    match answer
    case None => status == Success
    case Some(e) => status == Failure && error == e
  }

  predicate IsCancel(pc: Pc) { pc.CancelSet? || pc.CancelAsk? }

  ghost predicate OneAnswer(answer: Option<Option<string>>, op: Op) {
    && op.hasRun && !op.canceler && op.class_ != Token
    && (forall t :: t in op.threads ==> !IsCancel(op.threads[t]))
    && (forall a, b ::
          a in op.threads && b in op.threads && op.threads[a].Executing? && op.threads[b].Executing? ==> a == b)
    && (op.status.Pending? ==> answer.None? && forall t :: t in op.threads ==> !op.threads[t].Executing?)
    && (answer.None? ==> !IsFinal(op.status) && forall t :: t in op.threads ==> !op.threads[t].SetFinal?)
    && (answer.Some? ==> forall t :: t in op.threads ==> !op.threads[t].Executing?)
    && (answer.Some? ==> forall t :: t in op.threads && op.threads[t].SetFinal? ==>
          Calls(answer.value, op.threads[t].status, op.threads[t].error))
    && (answer.Some? && IsFinal(op.status) ==> Calls(answer.value, op.status, op.err))
  }

  lemma OneAnswerCall(answer: Option<Option<string>>, op: Op, e: Event)
    requires CallNext(op, e).Some?
    requires OneAnswer(answer, op)
    ensures OneAnswer(answer, CallNext(op, e).value)
  {
  }

  lemma OneAnswerReturns(op: Op, t: nat, err: Option<string>)
    requires ThreadNext(op, RunReturns(t, err)).Some?
    requires OneAnswer(None, op)
    ensures OneAnswer(Some(err), ThreadNext(op, RunReturns(t, err)).value)
  {
  }

  lemma OneAnswerThread(answer: Option<Option<string>>, op: Op, e: Event)
    requires ThreadNext(op, e).Some?
    requires !Stale(op, e)
    requires !e.RunReturns?
    requires OneAnswer(answer, op)
    ensures OneAnswer(answer, ThreadNext(op, e).value)
  {
  }

  lemma OneAnswerNext(es: seq<Event>, k: nat, op: Op, op': Op)
    requires k < |es| && Next(op, es[k]) == Some(op')
    requires !Stale(op, es[k])
    requires OneAnswer(FirstAnswer(es, k), op)
    ensures OneAnswer(FirstAnswer(es, k + 1), op')
  {
    if es[k].t !in op.threads {
      OneAnswerCall(FirstAnswer(es, k), op, es[k]);
    } else if es[k].RunReturns? {
      OneAnswerReturns(op, es[k].t, es[k].err);
    } else {
      OneAnswerThread(FirstAnswer(es, k), op, es[k]);
    }
  }

  // With each check and its set as one step, an operation with a run hook and no
  // canceler ends in the status, and with the error, of the first answer of onRun.
  lemma {:induction false} EndsAsAnswered(es: seq<Event>, ops: seq<Op>, k: nat)
    requires Run(es, ops)
    requires Atomic(es, ops)
    requires ops[0].hasRun && !ops[0].canceler
    requires k < |ops|
    ensures OneAnswer(FirstAnswer(es, k), ops[k])
    ensures IsFinal(ops[k].status) ==>
              FirstAnswer(es, k).Some? && Calls(FirstAnswer(es, k).value, ops[k].status, ops[k].err)
  {
    if k > 0 {
      EndsAsAnswered(es, ops, k - 1);
      assert Next(ops[k - 1], es[k - 1]) == Some(ops[k - 1 + 1]) && !Stale(ops[k - 1], es[k - 1]);
      OneAnswerNext(es, k - 1, ops[k - 1], ops[k]);
    }
  }
}
