// What the two ends of a migration return, and what each tells the other
// (apollo/migrate.go).
module MigrationEnds {
  import opened Wrappers
  import opened Migration

  // --------------------------------------------------------------- what can happen

  // Where the source, or a goroutine of its dump, stands before each of its steps.
  predicate SourceMay(cfg: Config, s: Source, inbox: seq<Msg>, e: SrcEvent) {
    match e
    case SetupFails => s.pc == SrcSetup
    case SendHeader(_) => s.pc == SrcSetup
    case DriverFails => s.pc == SrcSetup
    case RecvReply => s.pc == SrcAwaitReply && inbox != []
    case SrcRecvFails => s.pc in {SrcAwaitReply, SrcAwaitVerdict}
    case SendFs(_) => s.pc == SrcTransfer
    case Checkpoint(_) => s.pc == SrcCheckCriu
    case SyncDump(_) => s.pc == SrcDumping && !cfg.script
    case SeesDumpDone => s.pc == SrcDumping && s.dumpDone
    case SeesDumpEnd => s.pc == SrcDumping && s.dump.DumpEnded?
    case SendImages(_) => s.pc == SrcImages
    case SendAfter(_) => s.pc == SrcAfter
    case RecvVerdict => s.pc == SrcAwaitVerdict && inbox != []
    case JoinDump => s.pc == SrcJoinDump && s.dump.DumpEnded?
    case ScriptConnects => s.dump == DumpRunning && s.script == ScriptIdle
    case OpEnds => s.op == OpRunning && s.restoreSuccess != None
    case ScriptExits(failed) => s.script == ScriptHanging && (!failed ==> s.op in {OpEnded(true), OpEnded(false)})
    case DumpEnds(ok) => s.dump == DumpRunning && (ok ==> s.script == ScriptExit(true))
  }

  // In particular, every call may fail wherever it is made.
  lemma SourceStepsExactly(cfg: Config, s: Source, inbox: seq<Msg>, e: SrcEvent)
    ensures SrcNext(cfg, s, inbox, e).Moved? <==> SourceMay(cfg, s, inbox, e)
  {
  }

  // Where its calls take the source, one after the other, when they succeed.
  lemma SourceGoesOn(cfg: Config, s: Source, inbox: seq<Msg>, e: SrcEvent)
    requires SrcNext(cfg, s, inbox, e).Moved?
    ensures var t := SrcNext(cfg, s, inbox, e).to;
            && (e == SendHeader(true) ==> t.pc == SrcAwaitReply)
            && (e == RecvReply && inbox[0].Header? ==> t.pc == SrcTransfer && t.reply == Some(inbox[0]))
            && (e == SendFs(true) ==> t.pc == if cfg.liveSrc then SrcCheckCriu else SrcAwaitVerdict)
            && (e == Checkpoint(true) && ReplyHasCriu(s) ==> t.pc == SrcDumping && t.checkpointed)
            && (e == Checkpoint(true) && cfg.script && ReplyHasCriu(s) ==> t.op == OpRunning && t.dump == DumpRunning)
            && (e == SyncDump(true) || e == SeesDumpDone ==> t.pc == SrcImages)
            && (e == SendImages(true) ==> t.pc == SrcAfter)
            && (e == SendAfter(true) ==> t.pc == SrcAwaitVerdict)
            && (e == SeesDumpEnd ==> t.pc == SrcDone(s.dump == DumpEnded(true)) && t.dump == DumpTaken)
            && (e == JoinDump ==> t.pc == SrcDone(s.verdict) && t.dump == DumpTaken)
  {
  }

  // The dump, its action script and the operation each end as what they wait for says.
  lemma DumpGoesOn(cfg: Config, s: Source, inbox: seq<Msg>, e: SrcEvent)
    requires SrcNext(cfg, s, inbox, e).Moved?
    ensures var t := SrcNext(cfg, s, inbox, e).to;
            && (e == ScriptConnects ==> t == s.(script := ScriptHanging, dumpDone := true))
            && (e == OpEnds && s.restoreSuccess == Some(true) ==> t == s.(op := OpEnded(true), restoreSuccess := None))
            && (e == OpEnds && s.restoreSuccess == Some(false) ==>
                  t == s.(op := OpEnded(false), restoreSuccess := None))
            && (e.ScriptExits? ==> t == s.(script := ScriptExit(!e.failed && s.op == OpEnded(true))))
            && (e.DumpEnds? ==> t == s.(dump := DumpEnded(e.ok)))
  {
  }

  predicate SinkMay(s: Sink, inbox: seq<Msg>, e: SinkEvent) {
    match e
    case Unreachable => s.pc == SinkConnecting
    case Connect(_) => s.pc == SinkConnecting
    case RecvHeader => s.pc == SinkAwaitHeader && inbox != []
    case SinkRecvFails => s.pc == SinkAwaitHeader
    case Reply(_) => s.pc == SinkReplying
    case TakesResult => s.pc == SinkServing && s.restore in {RestReport(true), RestReport(false)}
    case Reports(_) => s.pc == SinkReporting
    case Returns => s.pc == SinkReturning
    case TakesControl => s.pc == SinkServing && (s.reader == ReaderClosed || s.reader.ReaderGot?)
    case RecvImages(_) => s.restore == RestImages
    case FsReceive(_) => s.fs == FsReceiving
    case FsTest => s.fs in {FsReceivedTest, FsShiftedTest}
    case FsShift(_) => s.fs == FsShifting
    case FsHandOver => s.fs in {FsSend(true), FsSend(false)} && s.restore == RestAwaitFs
    case Restore(_) => s.restore == RestRunning
    case ReaderReads => s.reader == ReaderWaiting && inbox != []
    case ReaderFails => s.reader == ReaderWaiting
  }

  lemma SinkStepsExactly(cfg: Config, s: Sink, inbox: seq<Msg>, e: SinkEvent)
    ensures SinkNext(cfg, s, inbox, e).Moved? <==> SinkMay(s, inbox, e)
  {
  }

  // Where its calls take the sink.
  lemma SinkGoesOn(cfg: Config, s: Sink, inbox: seq<Msg>, e: SinkEvent)
    requires SinkNext(cfg, s, inbox, e).Moved?
    ensures var t := SinkNext(cfg, s, inbox, e).to;
            && (e == Unreachable ==> t == s.(pc := SinkDone(false)))
            && (e == Connect(true) ==> t == s.(pc := SinkAwaitHeader))
            && (e == RecvHeader && inbox[0].Header? ==>
                  t == s.(pc := SinkReplying, format := if inbox[0].fs == cfg.sinkType then cfg.sinkType else Rsync))
            && (e == RecvHeader && !inbox[0].Header? ==> t == s.(pc := SinkDone(false)))
            && (e == Reply(true) ==>
                  t == s.(pc := SinkServing, fs := FsReceiving, reader := ReaderWaiting,
                          restore := if cfg.liveSink then RestImages else RestAwaitFs))
            && (e.Returns? ==> t == s.(pc := SinkDone(s.errNil)))
  {
  }

  // A refusal of the source, or its silence, ends a sink that serves; anything else
  // it says is passed over.
  lemma SinkHeedsSource(cfg: Config, s: Sink, inbox: seq<Msg>)
    requires s.pc == SinkServing
    ensures s.reader == ReaderClosed || s.reader == ReaderGot(Control(false)) ==>
              SinkNext(cfg, s, inbox, TakesControl) == Moved(s.(pc := SinkDone(false)), inbox, [])
    ensures s.reader.ReaderGot? && s.reader.msg != Control(false) ==>
              SinkNext(cfg, s, inbox, TakesControl) == Moved(s.(reader := ReaderEnded), inbox, [])
    ensures s.reader == ReaderWaiting && inbox != [] ==>
              SinkNext(cfg, s, inbox, ReaderReads) ==
                Moved(s.(reader := if inbox[0].Control? then ReaderGot(inbox[0]) else ReaderClosed), inbox[1..], [])
    ensures s.reader == ReaderWaiting ==>
              SinkNext(cfg, s, inbox, ReaderFails) == Moved(s.(reader := ReaderClosed), inbox, [])
  {
  }

  // What each step of the source sends, and takes from its inbox: a header, a refusal
  // for every failure that comes later than the header, and nothing else; a dump that
  // ends too early is reported as what it ended with.
  lemma SourceSays(cfg: Config, s: Source, inbox: seq<Msg>, e: SrcEvent)
    requires SrcNext(cfg, s, inbox, e).Moved?
    ensures var m := SrcNext(cfg, s, inbox, e);
            && (e == SendHeader(true) ==>
                  m.sent == [Header(cfg.srcType, if cfg.liveSrc then Some(CriuRsync) else None)])
            && (e == DriverFails ==>
                  m.sent == [Header(cfg.srcType, if cfg.liveSrc then Some(CriuRsync) else None), Control(false)])
            && (e in {SendHeader(false), SendFs(false), Checkpoint(false)} ==> m.sent == [Control(false)])
            && (e in {SyncDump(false), SendImages(false), SendAfter(false)} ==> m.sent == [Control(false)])
            && (e == SrcRecvFails ==> m.sent == if s.pc == SrcAwaitReply then [Control(false)] else [])
            && (e == RecvReply ==> m.sent == if inbox[0].Header? then [] else [Control(false)])
            && (e == Checkpoint(true) ==> m.sent == if ReplyHasCriu(s) then [] else [Control(false)])
            && (e == SeesDumpEnd ==> m.sent == [Control(s.dump == DumpEnded(true))])
            && (e in {SendFs(true), SyncDump(true), SendImages(true), SendAfter(true)} ==> m.sent == [])
            && (e in {SetupFails, SeesDumpDone, RecvVerdict, JoinDump, ScriptConnects, OpEnds} ==> m.sent == [])
            && (e.ScriptExits? || e.DumpEnds? ==> m.sent == [])
            && m.inbox == if e == RecvReply || e == RecvVerdict then inbox[1..] else inbox
  {
  }

  lemma SinkSays(cfg: Config, s: Sink, inbox: seq<Msg>, e: SinkEvent)
    requires SinkNext(cfg, s, inbox, e).Moved?
    ensures var m := SinkNext(cfg, s, inbox, e);
            && (e == Reply(true) ==> m.sent == [Header(s.format, if cfg.liveSink then Some(CriuRsync) else None)])
            && (e in {Connect(false), Reply(false), SinkRecvFails} ==> m.sent == [Control(false)])
            && (e == RecvHeader ==> m.sent == if inbox[0].Header? then [] else [Control(false)])
            && (e.Reports? ==> m.sent == if e.sent then [Control(s.errNil)] else [])
            && (e in {Unreachable, Connect(true), TakesResult, Returns, TakesControl} ==> m.sent == [])
            && (e.RecvImages? || e.FsReceive? || e.FsTest? || e.FsShift? ==> m.sent == [])
            && (e.FsHandOver? || e.Restore? || e.ReaderReads? || e.ReaderFails? ==> m.sent == [])
            && m.inbox == if e == RecvHeader || e == ReaderReads then inbox[1..] else inbox
  {
  }

  // What the sink's goroutines make of their calls, and what they hand on.
  lemma WorkersGoOn(cfg: Config, s: Sink, inbox: seq<Msg>, e: SinkEvent)
    requires SinkNext(cfg, s, inbox, e).Moved?
    ensures var t := SinkNext(cfg, s, inbox, e).to;
            && (e == TakesResult ==>
                  t == s.(pc := SinkReporting, errNil := s.restore == RestReport(true), restore := RestEnded))
            && (e.Reports? ==> t == s.(pc := SinkReturning, reportedOk := s.errNil))
            && (e.RecvImages? ==> t == s.(restore := if e.ok then RestAwaitFs else RestReport(false)))
            && (e.FsReceive? ==> t == s.(fs := FsReceivedTest, errNil := e.ok, received := e.ok))
            && (e.FsTest? && s.fs == FsReceivedTest ==> t == s.(fs := if s.errNil then FsShifting else FsSend(false)))
            && (e.FsTest? && s.fs == FsShiftedTest ==> t == s.(fs := FsSend(s.errNil)))
            && (e.FsShift? ==> t == s.(fs := FsShiftedTest, errNil := e.ok, shifted := e.ok))
            && (e.Restore? ==> t == s.(restore := RestReport(e.ok), restored := e.ok))
            && (e.FsHandOver? && s.fs == FsSend(false) ==> t == s.(fs := FsEnded, restore := RestReport(false)))
            && (e.FsHandOver? && s.fs == FsSend(true) ==>
                  t == s.(fs := FsEnded, restore := if cfg.liveSink then RestRunning else RestReport(true)))
  {
  }

  // ------------------------------------------------------ the source's own failures

  // A call of the source fails, or a receive does.
  predicate SourceFails(e: Event) {
    e.Src? && match e.s
              case SetupFails => true
              case DriverFails => true
              case SrcRecvFails => true
              case SendHeader(ok) => !ok
              case SendFs(ok) => !ok
              case Checkpoint(ok) => !ok
              case SyncDump(ok) => !ok
              case SendImages(ok) => !ok
              case SendAfter(ok) => !ok
              case _ => false
  }

  lemma FailingEndsSource(cfg: Config, s: State, e: Event)
    requires Next(cfg, s, e).Some?
    ensures SourceFails(e) || s.src.pc == SrcDone(false) ==> Next(cfg, s, e).value.src.pc == SrcDone(false)
  {
  }

  lemma {:induction false} SourceStaysFailed(cfg: Config, s: State, es: seq<Event>)
    requires s.src.pc == SrcDone(false)
    requires Exec(cfg, s, es).Some?
    ensures Exec(cfg, s, es).value.src.pc == SrcDone(false)
    decreases es
  {
    if es != [] {
      FailingEndsSource(cfg, s, es[0]);
      SourceStaysFailed(cfg, Next(cfg, s, es[0]).value, es[1..]);
    }
  }

  // Whatever fails at the source, it ends with an error, and for good.
  lemma {:induction false} SourceReturnsItsFailures(cfg: Config, s: State, es: seq<Event>, i: nat)
    requires Exec(cfg, s, es).Some?
    requires i < |es| && SourceFails(es[i])
    ensures Exec(cfg, s, es).value.src.pc == SrcDone(false)
    decreases es
  {
    FailingEndsSource(cfg, s, es[0]);
    if i == 0 {
      SourceStaysFailed(cfg, Next(cfg, s, es[0]).value, es[1..]);
    } else {
      SourceReturnsItsFailures(cfg, Next(cfg, s, es[0]).value, es[1..], i - 1);
    }
  }

  // The sink is told of every failure of the source, once the source has something
  // to send on: but for one before its header, and one of a receive after the images.
  lemma FailureIsTold(cfg: Config, s: State, e: Event)
    requires Next(cfg, s, e).Some?
    requires SourceFails(e) && !e.s.SetupFails? && !(e.s.SrcRecvFails? && s.src.pc.SrcAwaitVerdict?)
    ensures Next(cfg, s, e).value.toSink ==
              s.toSink + (if e.s.DriverFails? then [SrcHeader(cfg)] else []) + [Control(false)]
  {
  }

  // The source's verdict is the sink's: a refusal is never taken for a success.
  lemma VerdictIsHeeded(cfg: Config, s: State)
    requires Next(cfg, s, Src(RecvVerdict)).Some?
    ensures s.toSource != [] && s.toSource[0] == Control(false) ==>
              var t := Next(cfg, s, Src(RecvVerdict)).value.src;
              !t.verdict && if cfg.liveSrc then t.pc.SrcJoinDump? else t.pc == SrcDone(false)
    ensures s.toSource != [] && s.toSource[0] == Control(true) ==>
              var t := Next(cfg, s, Src(RecvVerdict)).value.src;
              t.verdict && if cfg.liveSrc then t.pc.SrcJoinDump? else t.pc == SrcDone(true)
  {
  }

  // ----------------------------------------------------------------- the sink

  // The filesystem goroutine assigns err after the delivery of a result and before
  // Do has returned it.
  predicate RacesReturn(s: State, e: Event) {
    (s.sink.pc.SinkReporting? || s.sink.pc.SinkReturning?) && e.Snk? && (e.k.FsReceive? || e.k.FsShift?)
  }

  ghost predicate ReturnsFree(cfg: Config, s: State, es: seq<Event>)
    decreases es
  {
    es == [] ||
    (!RacesReturn(s, es[0]) && (Next(cfg, s, es[0]).Some? ==> ReturnsFree(cfg, Next(cfg, s, es[0]).value, es[1..])))
  }

  ghost predicate ReturnInv(s: Sink) { s.pc == SinkDone(true) ==> s.received }

  lemma ReturnKept(cfg: Config, s: Sink, inbox: seq<Msg>, e: SinkEvent)
    requires SinkInv(cfg, s)
    requires ReturnInv(s)
    requires s.pc == SinkDone(true) ==> !s.fs.FsReceiving?
    requires SinkNext(cfg, s, inbox, e).Moved?
    ensures ReturnInv(SinkNext(cfg, s, inbox, e).to)
  {
  }

  lemma {:induction false} ReturnAlways(cfg: Config, s: State, es: seq<Event>)
    requires Inv(cfg, s)
    requires ReturnInv(s.sink)
    requires Exec(cfg, s, es).Some?
    ensures ReturnInv(Exec(cfg, s, es).value.sink)
    decreases es
  {
    if es != [] {
      NextKeeps(cfg, s, es[0]);
      if es[0].Snk? { ReturnKept(cfg, s.sink, s.toSink, es[0].k); }
      ReturnAlways(cfg, Next(cfg, s, es[0]).value, es[1..]);
    }
  }

  // In every run a sink that returns nil has received the filesystem.
  lemma SinkSuccessMeansReceived(cfg: Config, es: seq<Event>, s: State)
    requires Reaches(cfg, es, s)
    requires s.sink.pc == SinkDone(true)
    ensures s.sink.received
  {
    ReturnAlways(cfg, Init(cfg), es);
  }

  // What is reported is returned, and both stand for all the work.
  ghost predicate HonestInv(cfg: Config, s: Sink) {
    && (s.pc.SinkReporting? && s.errNil ==> Complete(cfg, s) && s.fs.FsEnded?)
    && (s.pc.SinkReturning? ==> (s.errNil <==> s.reportedOk))
    && (s.pc.SinkReturning? && s.errNil ==> Complete(cfg, s) && s.fs.FsEnded?)
    && (s.pc.SinkDone? ==> (s.pc.ok <==> s.reportedOk))
    && (s.pc == SinkDone(true) ==> Complete(cfg, s) && s.fs.FsEnded?)
    && (s.reportedOk ==> s.restore.RestEnded?)
  }

  lemma HonestMain(cfg: Config, s: Sink, inbox: seq<Msg>, e: SinkEvent)
    requires SinkInv(cfg, s)
    requires HonestInv(cfg, s)
    requires SinkMain(cfg, s, inbox, e).Moved?
    ensures HonestInv(cfg, SinkMain(cfg, s, inbox, e).to)
  {
  }

  lemma HonestWorker(cfg: Config, s: Sink, inbox: seq<Msg>, e: SinkEvent)
    requires SinkInv(cfg, s)
    requires HonestInv(cfg, s)
    requires s.pc.SinkReporting? || s.pc.SinkReturning? ==> !e.FsReceive? && !e.FsShift?
    requires WorkerNext(cfg, s, inbox, e).Moved?
    ensures HonestInv(cfg, WorkerNext(cfg, s, inbox, e).to)
  {
  }

  lemma HonestKept(cfg: Config, s: Sink, inbox: seq<Msg>, e: SinkEvent)
    requires SinkInv(cfg, s)
    requires HonestInv(cfg, s)
    requires s.pc.SinkReporting? || s.pc.SinkReturning? ==> !e.FsReceive? && !e.FsShift?
    requires SinkNext(cfg, s, inbox, e).Moved?
    ensures HonestInv(cfg, SinkNext(cfg, s, inbox, e).to)
  {
    if SinkMain(cfg, s, inbox, e).Moved? {
      HonestMain(cfg, s, inbox, e);
    } else {
      HonestWorker(cfg, s, inbox, e);
    }
  }

  lemma {:induction false} HonestAlways(cfg: Config, s: State, es: seq<Event>)
    requires Inv(cfg, s)
    requires HonestInv(cfg, s.sink)
    requires Exec(cfg, s, es).Some?
    requires ReturnsFree(cfg, s, es)
    ensures HonestInv(cfg, Exec(cfg, s, es).value.sink)
    decreases es
  {
    if es != [] {
      NextKeeps(cfg, s, es[0]);
      if es[0].Snk? { HonestKept(cfg, s.sink, s.toSink, es[0].k); }
      HonestAlways(cfg, Next(cfg, s, es[0]).value, es[1..]);
    }
  }

  // Without such an assignment the sink returns what it reported to the source, and
  // nil only when everything was done.
  lemma SinkReturnsItsReport(cfg: Config, es: seq<Event>, s: State)
    requires Reaches(cfg, es, s)
    requires ReturnsFree(cfg, Init(cfg), es)
    requires s.sink.pc.SinkDone?
    ensures s.sink.pc.ok <==> s.sink.reportedOk
    ensures s.sink.pc.ok ==> Complete(cfg, s.sink)
  {
    HonestAlways(cfg, Init(cfg), es);
  }

  lemma RefusalRun(cfg: Config) returns (s: State)
    requires cfg.liveSink
    ensures Can(cfg, s, false)
    ensures s.sink == Opened(cfg).sink.(pc := SinkReturning, errNil := false, restore := RestEnded)
  {
    OpeningRun(cfg, false);
    s := Go(cfg, Opened(cfg), Snk(RecvImages(false)), false);
    s := Go(cfg, s, Snk(TakesResult), false);
    s := Go(cfg, s, Snk(Reports(true)), false);
  }

  // A live sink whose images failed reports the failure, and yet returns nil.
  lemma FalseReturn(cfg: Config) returns (es: seq<Event>, s: State)
    requires cfg.liveSink
    ensures Reaches(cfg, es, s) && s.sink.pc == SinkDone(true) && !s.sink.reportedOk && !Complete(cfg, s.sink)
  {
    s := RefusalRun(cfg);
    s := Go(cfg, s, Snk(FsReceive(true)), false);
    s := Go(cfg, s, Snk(Returns), false);
    es :| Reaches(cfg, es, s);
  }

  ghost predicate ColdReturnInv(s: Sink) {
    && (s.pc == SinkDone(true) ==> s.received && s.shifted && s.fs.FsEnded?)
    && (s.pc.SinkReporting? || s.pc.SinkReturning? ==> s.fs.FsEnded?)
  }

  lemma ColdReturnKept(cfg: Config, s: Sink, inbox: seq<Msg>, e: SinkEvent)
    requires !cfg.liveSink
    requires SinkInv(cfg, s)
    requires ColdSinkInv(s)
    requires ColdReturnInv(s)
    requires SinkNext(cfg, s, inbox, e).Moved?
    ensures ColdReturnInv(SinkNext(cfg, s, inbox, e).to)
  {
  }

  lemma {:induction false} ColdReturns(cfg: Config, s: State, es: seq<Event>)
    requires !cfg.liveSink
    requires Inv(cfg, s)
    requires ColdReturnInv(s.sink)
    requires Exec(cfg, s, es).Some?
    ensures ColdReturnInv(Exec(cfg, s, es).value.sink)
    decreases es
  {
    if es != [] {
      NextKeeps(cfg, s, es[0]);
      if es[0].Snk? { ColdReturnKept(cfg, s.sink, s.toSink, es[0].k); }
      ColdReturns(cfg, Next(cfg, s, es[0]).value, es[1..]);
    }
  }

  // Exactly when the sink's nil can be trusted in every run: when it is not live.
  lemma SinkSuccessExactly(cfg: Config)
    ensures (forall es, s :: Reaches(cfg, es, s) && s.sink.pc == SinkDone(true) ==> Complete(cfg, s.sink))
       <==> !cfg.liveSink
  {
    if cfg.liveSink {
      var es, s := FalseReturn(cfg);
    } else {
      forall es, s | Reaches(cfg, es, s) && s.sink.pc == SinkDone(true) ensures Complete(cfg, s.sink) {
        ColdReturns(cfg, Init(cfg), es);
      }
    }
  }

  // ------------------------------------------------------- the sink's own failures

  predicate SinkFails(e: Event) {
    e.Snk? && match e.k
              case Unreachable => true
              case SinkRecvFails => true
              case Connect(ok) => !ok
              case Reply(ok) => !ok
              case RecvImages(ok) => !ok
              case FsReceive(ok) => !ok
              case FsShift(ok) => !ok
              case Restore(ok) => !ok
              case _ => false
  }

  // The sink has failed, and the error is on its way.
  predicate Doomed(s: Sink) {
    && s.pc != SinkDone(true)
    && (|| s.pc == SinkDone(false)
        || s.restore == RestReport(false)
        || s.fs == FsSend(false)
        || ((s.fs.FsReceivedTest? || s.fs.FsShiftedTest?) && !s.errNil)
        || ((s.pc.SinkReporting? || s.pc.SinkReturning?) && !s.errNil))
  }

  lemma DoomedKept(cfg: Config, s: Sink, inbox: seq<Msg>, e: SinkEvent)
    requires SinkInv(cfg, s)
    requires HonestInv(cfg, s)
    requires s.pc != SinkDone(true)
    requires Doomed(s) || SinkFails(Snk(e))
    requires s.pc.SinkReporting? || s.pc.SinkReturning? ==> !e.FsReceive? && !e.FsShift?
    requires SinkNext(cfg, s, inbox, e).Moved?
    ensures Doomed(SinkNext(cfg, s, inbox, e).to)
  {
  }

  lemma {:induction false} DoomedAlways(cfg: Config, s: State, es: seq<Event>)
    requires Inv(cfg, s)
    requires HonestInv(cfg, s.sink)
    requires Doomed(s.sink)
    requires Exec(cfg, s, es).Some?
    requires ReturnsFree(cfg, s, es)
    ensures Doomed(Exec(cfg, s, es).value.sink)
    decreases es
  {
    if es != [] {
      NextKeeps(cfg, s, es[0]);
      if es[0].Snk? {
        HonestKept(cfg, s.sink, s.toSink, es[0].k);
        DoomedKept(cfg, s.sink, s.toSink, es[0].k);
      }
      DoomedAlways(cfg, Next(cfg, s, es[0]).value, es[1..]);
    }
  }

  lemma {:induction false} FailuresFrom(cfg: Config, s: State, es: seq<Event>, i: nat)
    requires Inv(cfg, s)
    requires HonestInv(cfg, s.sink)
    requires Exec(cfg, s, es).Some?
    requires ReturnsFree(cfg, s, es)
    requires i < |es| && SinkFails(es[i])
    ensures Exec(cfg, s, es).value.sink.pc != SinkDone(true)
    decreases es
  {
    NextKeeps(cfg, s, es[0]);
    if es[0].Snk? { HonestKept(cfg, s.sink, s.toSink, es[0].k); }
    if i == 0 {
      DoomedKept(cfg, s.sink, s.toSink, es[0].k);
      DoomedAlways(cfg, Next(cfg, s, es[0]).value, es[1..]);
    } else {
      FailuresFrom(cfg, Next(cfg, s, es[0]).value, es[1..], i - 1);
    }
  }

  // Without such an assignment, whatever fails at the sink, it does not return nil.
  lemma SinkReturnsItsFailures(cfg: Config, es: seq<Event>, s: State, i: nat)
    requires Reaches(cfg, es, s)
    requires ReturnsFree(cfg, Init(cfg), es)
    requires i < |es| && SinkFails(es[i])
    ensures s.sink.pc != SinkDone(true)
  {
    FailuresFrom(cfg, Init(cfg), es, i);
  }

  // The source is told of every failure of the sink that ends it before it serves.
  lemma SinkFailureIsTold(cfg: Config, s: State, e: Event)
    requires Next(cfg, s, e).Some?
    requires SinkFails(e) && (e.k.Connect? || e.k.SinkRecvFails? || e.k.Reply?)
    ensures Next(cfg, s, e).value.toSource == s.toSource + [Control(false)]
    ensures Next(cfg, s, e).value.sink.pc == SinkDone(false)
  {
  }
}
