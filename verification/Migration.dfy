// The live migration protocol (apollo/migrate.go) as steps of its goroutines over
// FIFO control channels. Every call into storage, CRIU, rsync or the network may
// fail, and a receive may fail at any time.
module Migration {
  import opened Wrappers

  datatype Format = Rsync | Btrfs | Zfs

  datatype Criu = CriuRsync | Phaul

  datatype Msg =
    | Header(fs: Format, criu: Option<Criu>)
    | Control(success: bool)

  // What is fixed before the two sides start. `script` is
  // mercury.VersionAtLeast(2, 0, 4): the dump runs with an action script.
  datatype Config = Config(liveSrc: bool, liveSink: bool, script: bool, srcType: Format, sinkType: Format)

  function LiveCriu(live: bool): Option<Criu> {
    if live then Some(CriuRsync) else None
  }

  // ------------------------------------------------------------- the source side

  datatype SrcPc =
    | SrcSetup           // storage, idmap, driver
    | SrcAwaitReply
    | SrcTransfer        // SendWhileRunning
    | SrcCheckCriu       // live: look at the reply, set up the checkpoint
    | SrcDumping         // live: waiting for dumpSuccess or dumpDone
    | SrcImages          // live: RsyncSend
    | SrcAfter           // live: SendAfterCheckpoint
    | SrcAwaitVerdict
    | SrcJoinDump        // live: waiting for dumpSuccess
    | SrcDone(ok: bool)

  datatype OpPc = OpNone | OpRunning | OpEnded(ok: bool)

  datatype ScriptPc = ScriptIdle | ScriptHanging | ScriptExit(ok: bool)

  datatype DumpPc = DumpIdle | DumpRunning | DumpEnded(ok: bool) | DumpTaken

  datatype Source = Source(
    pc: SrcPc, format: Format, reply: Option<Msg>, verdict: bool, checkpointed: bool,
    restoreSuccess: Option<bool>, dumpDone: bool, op: OpPc, script: ScriptPc, dump: DumpPc)

  // A step leaves the party in a new state, with the rest of its inbox and the
  // messages it sent.
  datatype Move<T> = Stuck | Moved(to: T, inbox: seq<Msg>, sent: seq<Msg>)

  function SrcHeader(cfg: Config): Msg { Header(cfg.srcType, LiveCriu(cfg.liveSrc)) }

  predicate ReplyHasCriu(s: Source) {
    s.reply.Some? && s.reply.value.Header? && s.reply.value.criu == Some(CriuRsync)
  }

  // sendControl(err), return err.
  function SrcAbort(s: Source, inbox: seq<Msg>): Move<Source> {
    Moved(s.(pc := SrcDone(false)), inbox, [Control(false)])
  }

  datatype SrcEvent =
    | SetupFails | SendHeader(ok: bool) | DriverFails | RecvReply | SrcRecvFails
    | SendFs(ok: bool) | Checkpoint(ok: bool) | SyncDump(ok: bool) | SeesDumpDone | SeesDumpEnd
    | SendImages(ok: bool) | SendAfter(ok: bool) | RecvVerdict | JoinDump
    | ScriptConnects | OpEnds | ScriptExits(failed: bool) | DumpEnds(ok: bool)

  // migrationSourceWs.Do up to the filesystem transfer.
  function SrcOpening(cfg: Config, s: Source, inbox: seq<Msg>, e: SrcEvent): Move<Source> {
    match e
    case SetupFails => if s.pc.SrcSetup? then Moved(s.(pc := SrcDone(false)), inbox, []) else Stuck
    // a header goes out no matter what, then perhaps the driver's error
    case SendHeader(ok) =>
      if !s.pc.SrcSetup? then Stuck
      else if ok then Moved(s.(pc := SrcAwaitReply), inbox, [SrcHeader(cfg)])
      else SrcAbort(s, inbox)
    case DriverFails =>
      if s.pc.SrcSetup? then Moved(s.(pc := SrcDone(false)), inbox, [SrcHeader(cfg), Control(false)]) else Stuck
    case RecvReply =>
      if !s.pc.SrcAwaitReply? || inbox == [] then Stuck
      else if inbox[0].Header? then
        Moved(s.(pc := SrcTransfer, reply := Some(inbox[0]),
                 format := if inbox[0].fs != cfg.srcType then Rsync else cfg.srcType), inbox[1..], [])
      else SrcAbort(s, inbox[1..])
    case SrcRecvFails =>
      if s.pc.SrcAwaitReply? then SrcAbort(s, inbox)
      else if s.pc.SrcAwaitVerdict? then Moved(s.(pc := SrcDone(false)), inbox, [])
      else Stuck
    case SendFs(ok) =>
      if !s.pc.SrcTransfer? then Stuck
      else if !ok then SrcAbort(s, inbox)
      else Moved(s.(pc := if cfg.liveSrc then SrcCheckCriu else SrcAwaitVerdict), inbox, [])
    case _ => Stuck
  }

  // The rest of it: checkpoint, images, verdict.
  function SrcClosing(cfg: Config, s: Source, inbox: seq<Msg>, e: SrcEvent): Move<Source> {
    match e
    case Checkpoint(ok) =>
      if !s.pc.SrcCheckCriu? then Stuck
      else if !ok || !ReplyHasCriu(s) then SrcAbort(s, inbox)
      else Moved(s.(pc := SrcDumping, checkpointed := true,
                    op := if cfg.script then OpRunning else OpNone,
                    dump := if cfg.script then DumpRunning else DumpIdle), inbox, [])
    // without the action script the dump is one blocking call
    case SyncDump(ok) =>
      if !s.pc.SrcDumping? || cfg.script then Stuck
      else if ok then Moved(s.(pc := SrcImages), inbox, []) else SrcAbort(s, inbox)
    case SeesDumpDone =>
      if s.pc.SrcDumping? && s.dumpDone then Moved(s.(pc := SrcImages, dumpDone := false), inbox, []) else Stuck
    // abort(err), also when err is nil
    case SeesDumpEnd =>
      if !s.pc.SrcDumping? || !s.dump.DumpEnded? then Stuck
      else Moved(s.(pc := SrcDone(s.dump.ok), dump := DumpTaken), inbox, [Control(s.dump.ok)])
    case SendImages(ok) =>
      if !s.pc.SrcImages? then Stuck
      else if ok then Moved(s.(pc := SrcAfter), inbox, []) else SrcAbort(s, inbox)
    case SendAfter(ok) =>
      if !s.pc.SrcAfter? then Stuck
      else if ok then Moved(s.(pc := SrcAwaitVerdict), inbox, []) else SrcAbort(s, inbox)
    case RecvVerdict =>
      if !s.pc.SrcAwaitVerdict? || inbox == [] then Stuck
      else if !inbox[0].Control? then Moved(s.(pc := SrcDone(false)), inbox[1..], [])
      else if cfg.liveSrc then
        Moved(s.(pc := SrcJoinDump, verdict := inbox[0].success, restoreSuccess := Some(inbox[0].success)), inbox[1..],
            [])
      else Moved(s.(pc := SrcDone(inbox[0].success), verdict := inbox[0].success), inbox[1..], [])
    case JoinDump =>
      if s.pc.SrcJoinDump? && s.dump.DumpEnded? then Moved(s.(pc := SrcDone(s.verdict), dump := DumpTaken), inbox, [])
      else Stuck
    case _ => Stuck
  }

  // CRIU, its action script, and the operation the script waits for. The dump
  // succeeds only when the script exited with success.
  function DumpNext(s: Source, inbox: seq<Msg>, e: SrcEvent): Move<Source> {
    match e
    case ScriptConnects =>
      if s.dump.DumpRunning? && s.script.ScriptIdle?
      then Moved(s.(script := ScriptHanging, dumpDone := true), inbox, []) else Stuck
    case OpEnds =>
      if s.op.OpRunning? && s.restoreSuccess.Some?
      then Moved(s.(op := OpEnded(s.restoreSuccess.value), restoreSuccess := None), inbox, []) else Stuck
    case ScriptExits(failed) =>
      if s.script.ScriptHanging? && (failed || s.op.OpEnded?)
      then Moved(s.(script := ScriptExit(!failed && s.op == OpEnded(true))), inbox, []) else Stuck
    case DumpEnds(ok) =>
      if s.dump.DumpRunning? && (ok ==> s.script == ScriptExit(true))
      then Moved(s.(dump := DumpEnded(ok)), inbox, []) else Stuck
    case _ => Stuck
  }

  function SrcNext(cfg: Config, s: Source, inbox: seq<Msg>, e: SrcEvent): Move<Source> {
    match e
    case SetupFails | SendHeader(_) | DriverFails | RecvReply | SrcRecvFails | SendFs(_) => SrcOpening(cfg, s, inbox, e)
    case ScriptConnects | OpEnds | ScriptExits(_) | DumpEnds(_) => DumpNext(s, inbox, e)
    case _ => SrcClosing(cfg, s, inbox, e)
  }

  // --------------------------------------------------------------- the sink side

  datatype SinkPc =
    | SinkConnecting
    | SinkAwaitHeader
    | SinkReplying
    | SinkServing        // the select loop
    | SinkReporting      // took a result from `restore`
    | SinkReturning
    | SinkDone(ok: bool)

  datatype RestorePc = RestIdle | RestImages | RestAwaitFs | RestRunning | RestReport(ok: bool) | RestEnded

  datatype FsPc = FsIdle | FsReceiving | FsReceivedTest | FsShifting | FsShiftedTest | FsSend(ok: bool) | FsEnded

  datatype ReaderPc = ReaderIdle | ReaderWaiting | ReaderGot(msg: Msg) | ReaderClosed | ReaderEnded

  // `errNil` says whether the variable err of migrationSink.Do is nil. The last
  // four fields are history: the filesystem was received, shifted, the container
  // restored, and success reported to the source.
  datatype Sink = Sink(
    pc: SinkPc, format: Format, errNil: bool, restore: RestorePc, fs: FsPc, reader: ReaderPc,
    received: bool, shifted: bool, restored: bool, reportedOk: bool)

  datatype SinkEvent =
    | Unreachable | Connect(ok: bool) | RecvHeader | SinkRecvFails | Reply(ok: bool)
    | TakesResult | Reports(sent: bool) | Returns | TakesControl
    | RecvImages(ok: bool) | FsReceive(ok: bool) | FsTest | FsShift(ok: bool) | FsHandOver | Restore(ok: bool)
    | ReaderReads | ReaderFails

  function SinkAbort(s: Sink, inbox: seq<Msg>): Move<Sink> {
    Moved(s.(pc := SinkDone(false)), inbox, [Control(false)])
  }

  // migrationSink.Do itself.
  function SinkMain(cfg: Config, s: Sink, inbox: seq<Msg>, e: SinkEvent): Move<Sink> {
    match e
    case Unreachable => if s.pc.SinkConnecting? then Moved(s.(pc := SinkDone(false)), inbox, []) else Stuck
    case Connect(ok) =>
      if !s.pc.SinkConnecting? then Stuck
      else if ok then Moved(s.(pc := SinkAwaitHeader), inbox, []) else SinkAbort(s, inbox)
    case RecvHeader =>
      if !s.pc.SinkAwaitHeader? || inbox == [] then Stuck
      else if inbox[0].Header? then
        Moved(s.(pc := SinkReplying, format := if inbox[0].fs != cfg.sinkType then Rsync else cfg.sinkType), inbox[1..],
            [])
      else SinkAbort(s, inbox[1..])
    case SinkRecvFails => if s.pc.SinkAwaitHeader? then SinkAbort(s, inbox) else Stuck
    case Reply(ok) =>
      if !s.pc.SinkReplying? then Stuck
      else if ok then
        Moved(s.(pc := SinkServing, restore := if cfg.liveSink then RestImages else RestAwaitFs,
                 fs := FsReceiving, reader := ReaderWaiting), inbox, [Header(s.format, LiveCriu(cfg.liveSink))])
      else SinkAbort(s, inbox)
    // case err = <-restore
    case TakesResult =>
      if s.pc.SinkServing? && s.restore.RestReport?
      then Moved(s.(pc := SinkReporting, errNil := s.restore.ok, restore := RestEnded), inbox, []) else Stuck
    // controller(err): a failing send is ignored
    case Reports(sent) =>
      if s.pc.SinkReporting?
      then Moved(s.(pc := SinkReturning, reportedOk := s.errNil), inbox, if sent then [Control(s.errNil)] else [])
      else Stuck
    case Returns => if s.pc.SinkReturning? then Moved(s.(pc := SinkDone(s.errNil)), inbox, []) else Stuck
    case TakesControl =>
      if !s.pc.SinkServing? then Stuck
      else if s.reader.ReaderClosed? then Moved(s.(pc := SinkDone(false)), inbox, [])
      else if !s.reader.ReaderGot? then Stuck
      else if s.reader.msg == Control(false) then Moved(s.(pc := SinkDone(false)), inbox, [])
      else Moved(s.(reader := ReaderEnded), inbox, [])
    case _ => Stuck
  }

  // The goroutines it started: restore, filesystem receive, control reader. The
  // filesystem goroutine assigns to Do's own err.
  function WorkerNext(cfg: Config, s: Sink, inbox: seq<Msg>, e: SinkEvent): Move<Sink> {
    match e
    case RecvImages(ok) =>
      if s.restore.RestImages? then Moved(s.(restore := if ok then RestAwaitFs else RestReport(false)), inbox, [])
          else Stuck
    case FsReceive(ok) =>
      if s.fs.FsReceiving? then Moved(s.(fs := FsReceivedTest, errNil := ok, received := ok), inbox, []) else Stuck
    // err is read for the test and, when set, for the value to send
    case FsTest =>
      if s.fs.FsReceivedTest? then Moved(s.(fs := if s.errNil then FsShifting else FsSend(false)), inbox, [])
      else if s.fs.FsShiftedTest? then Moved(s.(fs := FsSend(s.errNil)), inbox, [])
      else Stuck
    case FsShift(ok) =>
      if s.fs.FsShifting? then Moved(s.(fs := FsShiftedTest, errNil := ok, shifted := ok), inbox, []) else Stuck
    // fsTransfer is unbuffered
    case FsHandOver =>
      if s.fs.FsSend? && s.restore.RestAwaitFs? then
        Moved(s.(fs := FsEnded,
                 restore := if !s.fs.ok then RestReport(false) else if cfg.liveSink then RestRunning
                     else RestReport(true)),
              inbox, [])
      else Stuck
    case Restore(ok) =>
      if s.restore.RestRunning? then Moved(s.(restore := RestReport(ok), restored := ok), inbox, []) else Stuck
    case ReaderReads =>
      if s.reader.ReaderWaiting? && inbox != []
      then Moved(s.(reader := if inbox[0].Control? then ReaderGot(inbox[0]) else ReaderClosed), inbox[1..], [])
          else Stuck
    case ReaderFails => if s.reader.ReaderWaiting? then Moved(s.(reader := ReaderClosed), inbox, []) else Stuck
    case _ => Stuck
  }

  function SinkNext(cfg: Config, s: Sink, inbox: seq<Msg>, e: SinkEvent): Move<Sink> {
    match e
    case Unreachable | Connect(_) | RecvHeader | SinkRecvFails | Reply(_) | TakesResult | Reports(_) | Returns |
        TakesControl =>
      SinkMain(cfg, s, inbox, e)
    case _ => WorkerNext(cfg, s, inbox, e)
  }

  // -------------------------------------------------------------------- the runs

  datatype State = State(src: Source, sink: Sink, toSink: seq<Msg>, toSource: seq<Msg>)

  datatype Event = Src(s: SrcEvent) | Snk(k: SinkEvent)

  function Init(cfg: Config): State {
    State(Source(SrcSetup, cfg.srcType, None, false, false, None, false, OpNone, ScriptIdle, DumpIdle),
          Sink(SinkConnecting, cfg.sinkType, true, RestIdle, FsIdle, ReaderIdle, false, false, false, false), [], [])
  }

  function Next(cfg: Config, s: State, e: Event): Option<State> {
    match e
    case Src(se) =>
      (match SrcNext(cfg, s.src, s.toSource, se)
       case Stuck => None
       case Moved(src, inbox, sent) => Some(State(src, s.sink, s.toSink + sent, inbox)))
    case Snk(ke) =>
      (match SinkNext(cfg, s.sink, s.toSink, ke)
       case Stuck => None
       case Moved(sink, inbox, sent) => Some(State(s.src, sink, inbox, s.toSource + sent)))
  }

  // The state after the events, or None when one of them was not possible.
  function Exec(cfg: Config, s: State, es: seq<Event>): Option<State>
    decreases es
  {
    if es == [] then Some(s)
    else match Next(cfg, s, es[0])
      case None => None
      case Some(t) => Exec(cfg, t, es[1..])
  }

  // ------------------------------------------------------------------- invariants

  function Agreed(cfg: Config): Format {
    if cfg.srcType != cfg.sinkType then Rsync else cfg.sinkType
  }

  function SinkReplyMsg(cfg: Config): Msg { Header(Agreed(cfg), LiveCriu(cfg.liveSink)) }

  // Messages a party may find: the other side's one header, and controls; a
  // success on the way to the source was reported by the sink.
  ghost predicate ToSourceOk(cfg: Config, ms: seq<Msg>, reportedOk: bool) {
    forall i :: 0 <= i < |ms| ==> if ms[i].Header? then ms[i] == SinkReplyMsg(cfg) else (ms[i].success ==> reportedOk)
  }

  ghost predicate ToSinkOk(cfg: Config, ms: seq<Msg>) {
    forall i :: 0 <= i < |ms| && ms[i].Header? ==> ms[i] == SrcHeader(cfg)
  }

  ghost predicate SrcInv(cfg: Config, s: Source, reportedOk: bool) {
    && (s.reply.Some? ==> s.reply.value == SinkReplyMsg(cfg) && s.format == Agreed(cfg))
    && (s.checkpointed ==> cfg.liveSrc && ReplyHasCriu(s))
    && (s.verdict ==> reportedOk)
    && (s.restoreSuccess == Some(true) ==> reportedOk)
    && (s.op == OpEnded(true) ==> reportedOk)
    && (s.script == ScriptExit(true) ==> reportedOk)
    && (s.dump == DumpEnded(true) ==> reportedOk)
    && (s.pc == SrcDone(true) ==> reportedOk)
    && (s.pc.SrcCheckCriu? || s.pc.SrcJoinDump? ==> cfg.liveSrc)
    && (!cfg.script ==> s.dump.DumpIdle?)
    && (s.dump.DumpEnded? || s.dump.DumpRunning? ==> cfg.script)
    && (s.pc == SrcDone(true) && cfg.liveSrc ==> cfg.script)
    && (s.pc == SrcDone(true) && cfg.liveSrc ==> ReplyHasCriu(s))
    && (cfg.liveSrc && (s.pc.SrcDumping? || s.pc.SrcImages? || s.pc.SrcAfter? || s.pc.SrcAwaitVerdict? ||
        s.pc.SrcJoinDump?)
        ==> ReplyHasCriu(s))
  }

  predicate BeforeReply(pc: SinkPc) {
    pc.SinkConnecting? || pc.SinkAwaitHeader? || pc.SinkReplying?
  }

  ghost predicate SinkInv(cfg: Config, s: Sink) {
    && (BeforeReply(s.pc) ==> s.fs.FsIdle? && s.restore.RestIdle? && !s.reportedOk)
    && (!s.fs.FsIdle? || s.pc.SinkReplying? ==> s.format == Agreed(cfg))
    && (s.fs.FsIdle? || s.fs.FsReceiving? ==> !s.received)
    && (s.fs.FsIdle? || s.fs.FsReceiving? || s.fs.FsReceivedTest? || s.fs.FsShifting? ==> !s.shifted)
    && (s.fs.FsReceivedTest? && s.errNil ==> s.received)
    && (s.fs.FsShifting? || s.fs.FsShiftedTest? ==> s.received)
    && (s.fs.FsShiftedTest? && s.errNil ==> s.shifted)
    && (s.fs == FsSend(true) ==> s.received && s.shifted)
    && (s.restore.RestRunning? || s.restore == RestReport(true) ==> s.fs.FsEnded? && s.received && s.shifted)
    && (s.restore == RestReport(true) && cfg.liveSink ==> s.restored)
    && (s.restore.RestEnded? ==> s.pc.SinkReporting? || s.pc.SinkReturning? || s.pc.SinkDone?)
    && (s.pc.SinkReporting? || s.pc.SinkReturning? ==> s.restore.RestEnded? && (s.errNil ==> s.received))
    && (s.reportedOk ==> s.received && (s.pc.SinkReturning? || s.pc.SinkDone?))
  }

  // Without CRIU the sink reports only after the filesystem goroutine has ended,
  // so nobody else assigns err any more.
  ghost predicate ColdSinkInv(s: Sink) {
    && !s.restore.RestImages? && !s.restore.RestRunning?
    && (s.restore.RestReport? || s.restore.RestEnded? ==> s.fs.FsEnded?)
    && (s.pc.SinkReporting? || s.pc.SinkReturning? ==> s.errNil ==> s.received && s.shifted)
    && (s.reportedOk ==> s.fs.FsEnded? && s.received && s.shifted)
  }

  lemma OpeningKeeps(cfg: Config, s: Source, inbox: seq<Msg>, e: SrcEvent, reportedOk: bool)
    requires SrcInv(cfg, s, reportedOk)
    requires ToSourceOk(cfg, inbox, reportedOk)
    requires SrcOpening(cfg, s, inbox, e).Moved?
    ensures var m := SrcOpening(cfg, s, inbox, e);
            SrcInv(cfg, m.to, reportedOk) && ToSourceOk(cfg, m.inbox, reportedOk) && ToSinkOk(cfg, m.sent)
  {
    var m := SrcOpening(cfg, s, inbox, e);
    if e.RecvReply? {
      assert m.inbox == inbox[1..];
      assert m.to.pc == SrcDone(false) || m.to.reply == Some(SinkReplyMsg(cfg));
    } else {
      assert m.inbox == inbox && m.to == s.(pc := m.to.pc);
    }
  }

  predicate IsDumping(e: SrcEvent) { e.Checkpoint? || e.SyncDump? || e.SeesDumpDone? || e.SeesDumpEnd? }

  lemma DumpingKeeps(cfg: Config, s: Source, inbox: seq<Msg>, e: SrcEvent, reportedOk: bool)
    requires IsDumping(e)
    requires SrcInv(cfg, s, reportedOk)
    requires ToSourceOk(cfg, inbox, reportedOk)
    requires SrcClosing(cfg, s, inbox, e).Moved?
    ensures var m := SrcClosing(cfg, s, inbox, e);
            SrcInv(cfg, m.to, reportedOk) && ToSourceOk(cfg, m.inbox, reportedOk) && ToSinkOk(cfg, m.sent)
  {
  }

  lemma ClosingKeeps(cfg: Config, s: Source, inbox: seq<Msg>, e: SrcEvent, reportedOk: bool)
    requires SrcInv(cfg, s, reportedOk)
    requires ToSourceOk(cfg, inbox, reportedOk)
    requires SrcClosing(cfg, s, inbox, e).Moved?
    ensures var m := SrcClosing(cfg, s, inbox, e);
            SrcInv(cfg, m.to, reportedOk) && ToSourceOk(cfg, m.inbox, reportedOk) && ToSinkOk(cfg, m.sent)
  {
    if IsDumping(e) { DumpingKeeps(cfg, s, inbox, e, reportedOk); }
  }

  lemma DumpKeeps(cfg: Config, s: Source, inbox: seq<Msg>, e: SrcEvent, reportedOk: bool)
    requires SrcInv(cfg, s, reportedOk)
    requires ToSourceOk(cfg, inbox, reportedOk)
    requires DumpNext(s, inbox, e).Moved?
    ensures var m := DumpNext(s, inbox, e);
            SrcInv(cfg, m.to, reportedOk) && ToSourceOk(cfg, m.inbox, reportedOk) && ToSinkOk(cfg, m.sent)
  {
  }

  lemma SrcKeeps(cfg: Config, s: Source, inbox: seq<Msg>, e: SrcEvent, reportedOk: bool)
    requires SrcInv(cfg, s, reportedOk)
    requires ToSourceOk(cfg, inbox, reportedOk)
    requires SrcNext(cfg, s, inbox, e).Moved?
    ensures var m := SrcNext(cfg, s, inbox, e);
            SrcInv(cfg, m.to, reportedOk) && ToSourceOk(cfg, m.inbox, reportedOk) && ToSinkOk(cfg, m.sent)
  {
    if SrcOpening(cfg, s, inbox, e).Moved? {
      OpeningKeeps(cfg, s, inbox, e, reportedOk);
    } else if SrcClosing(cfg, s, inbox, e).Moved? {
      ClosingKeeps(cfg, s, inbox, e, reportedOk);
    } else if DumpNext(s, inbox, e).Moved? {
      DumpKeeps(cfg, s, inbox, e, reportedOk);
    }
  }

  lemma SinkStartKeeps(cfg: Config, s: Sink, inbox: seq<Msg>, e: SinkEvent)
    requires e.Unreachable? || e.Connect? || e.RecvHeader? || e.SinkRecvFails? || e.Reply?
    requires SinkInv(cfg, s)
    requires ToSinkOk(cfg, inbox)
    requires SinkMain(cfg, s, inbox, e).Moved?
    ensures var m := SinkMain(cfg, s, inbox, e);
            SinkInv(cfg, m.to) && ToSinkOk(cfg, m.inbox) && ToSourceOk(cfg, m.sent, m.to.reportedOk)
            && (s.reportedOk ==> m.to.reportedOk)
  {
  }

  lemma SinkEndKeeps(cfg: Config, s: Sink, inbox: seq<Msg>, e: SinkEvent)
    requires e.TakesResult? || e.Reports? || e.Returns? || e.TakesControl?
    requires SinkInv(cfg, s)
    requires ToSinkOk(cfg, inbox)
    requires SinkMain(cfg, s, inbox, e).Moved?
    ensures var m := SinkMain(cfg, s, inbox, e);
            SinkInv(cfg, m.to) && ToSinkOk(cfg, m.inbox) && ToSourceOk(cfg, m.sent, m.to.reportedOk)
            && (s.reportedOk ==> m.to.reportedOk)
  {
  }

  lemma SinkMainKeeps(cfg: Config, s: Sink, inbox: seq<Msg>, e: SinkEvent)
    requires SinkInv(cfg, s)
    requires ToSinkOk(cfg, inbox)
    requires SinkMain(cfg, s, inbox, e).Moved?
    ensures var m := SinkMain(cfg, s, inbox, e);
            SinkInv(cfg, m.to) && ToSinkOk(cfg, m.inbox) && ToSourceOk(cfg, m.sent, m.to.reportedOk)
            && (s.reportedOk ==> m.to.reportedOk)
  {
    if e.TakesResult? || e.Reports? || e.Returns? || e.TakesControl? {
      SinkEndKeeps(cfg, s, inbox, e);
    } else {
      SinkStartKeeps(cfg, s, inbox, e);
    }
  }

  lemma FsKeeps(cfg: Config, s: Sink, inbox: seq<Msg>, e: SinkEvent)
    requires e.FsReceive? || e.FsTest? || e.FsShift?
    requires SinkInv(cfg, s)
    requires ToSinkOk(cfg, inbox)
    requires WorkerNext(cfg, s, inbox, e).Moved?
    ensures var m := WorkerNext(cfg, s, inbox, e);
            SinkInv(cfg, m.to) && ToSinkOk(cfg, m.inbox) && m.sent == [] && m.to.reportedOk == s.reportedOk
  {
  }

  lemma RestoreKeeps(cfg: Config, s: Sink, inbox: seq<Msg>, e: SinkEvent)
    requires e.RecvImages? || e.FsHandOver? || e.Restore?
    requires SinkInv(cfg, s)
    requires ToSinkOk(cfg, inbox)
    requires WorkerNext(cfg, s, inbox, e).Moved?
    ensures var m := WorkerNext(cfg, s, inbox, e);
            SinkInv(cfg, m.to) && ToSinkOk(cfg, m.inbox) && m.sent == [] && m.to.reportedOk == s.reportedOk
  {
  }

  lemma ReaderKeeps(cfg: Config, s: Sink, inbox: seq<Msg>, e: SinkEvent)
    requires e.ReaderReads? || e.ReaderFails?
    requires SinkInv(cfg, s)
    requires ToSinkOk(cfg, inbox)
    requires WorkerNext(cfg, s, inbox, e).Moved?
    ensures var m := WorkerNext(cfg, s, inbox, e);
            SinkInv(cfg, m.to) && ToSinkOk(cfg, m.inbox) && m.sent == [] && m.to.reportedOk == s.reportedOk
  {
  }

  lemma WorkerKeeps(cfg: Config, s: Sink, inbox: seq<Msg>, e: SinkEvent)
    requires SinkInv(cfg, s)
    requires ToSinkOk(cfg, inbox)
    requires WorkerNext(cfg, s, inbox, e).Moved?
    ensures var m := WorkerNext(cfg, s, inbox, e);
            SinkInv(cfg, m.to) && ToSinkOk(cfg, m.inbox) && m.sent == [] && m.to.reportedOk == s.reportedOk
  {
    if e.FsReceive? || e.FsTest? || e.FsShift? {
      FsKeeps(cfg, s, inbox, e);
    } else if e.ReaderReads? || e.ReaderFails? {
      ReaderKeeps(cfg, s, inbox, e);
    } else {
      RestoreKeeps(cfg, s, inbox, e);
    }
  }

  lemma SinkKeeps(cfg: Config, s: Sink, inbox: seq<Msg>, e: SinkEvent)
    requires SinkInv(cfg, s)
    requires ToSinkOk(cfg, inbox)
    requires SinkNext(cfg, s, inbox, e).Moved?
    ensures var m := SinkNext(cfg, s, inbox, e);
            SinkInv(cfg, m.to) && ToSinkOk(cfg, m.inbox) && ToSourceOk(cfg, m.sent, m.to.reportedOk)
            && (s.reportedOk ==> m.to.reportedOk)
  {
    if SinkMain(cfg, s, inbox, e).Moved? {
      SinkMainKeeps(cfg, s, inbox, e);
    }
    if WorkerNext(cfg, s, inbox, e).Moved? {
      WorkerKeeps(cfg, s, inbox, e);
    }
  }

  lemma ColdSinkKeeps(cfg: Config, s: Sink, inbox: seq<Msg>, e: SinkEvent)
    requires SinkInv(cfg, s)
    requires ColdSinkInv(s)
    requires !cfg.liveSink
    requires SinkNext(cfg, s, inbox, e).Moved?
    ensures ColdSinkInv(SinkNext(cfg, s, inbox, e).to)
  {
  }

  ghost predicate Inv(cfg: Config, s: State) {
    && SrcInv(cfg, s.src, s.sink.reportedOk)
    && SinkInv(cfg, s.sink)
    && (!cfg.liveSink ==> ColdSinkInv(s.sink))
    && ToSourceOk(cfg, s.toSource, s.sink.reportedOk)
    && ToSinkOk(cfg, s.toSink)
  }

  lemma NextKeeps(cfg: Config, s: State, e: Event)
    requires Inv(cfg, s)
    requires Next(cfg, s, e).Some?
    ensures Inv(cfg, Next(cfg, s, e).value)
  {
    match e
    case Src(se) => SrcKeeps(cfg, s.src, s.toSource, se, s.sink.reportedOk);
    case Snk(ke) =>
      SinkKeeps(cfg, s.sink, s.toSink, ke);
      if !cfg.liveSink { ColdSinkKeeps(cfg, s.sink, s.toSink, ke); }
  }

  lemma {:induction false} ExecKeeps(cfg: Config, s: State, es: seq<Event>)
    requires Inv(cfg, s)
    requires Exec(cfg, s, es).Some?
    ensures Inv(cfg, Exec(cfg, s, es).value)
    decreases es
  {
    if es != [] {
      NextKeeps(cfg, s, es[0]);
      ExecKeeps(cfg, Next(cfg, s, es[0]).value, es[1..]);
    }
  }

  // ---------------------------------------------------------------- main results

  ghost predicate Reaches(cfg: Config, es: seq<Event>, s: State) {
    Exec(cfg, Init(cfg), es) == Some(s)
  }

  // Both sides transfer in the same format as soon as they transfer at all.
  lemma SameFormat(cfg: Config, es: seq<Event>, s: State)
    requires Reaches(cfg, es, s)
    ensures s.src.reply.Some? && !s.sink.fs.FsIdle? ==> s.src.format == s.sink.format
  {
    ExecKeeps(cfg, Init(cfg), es);
  }

  // A checkpoint is taken only after a reply carrying the CRIU type, which only
  // a live sink sends.
  lemma CheckpointAfterCriuReply(cfg: Config, es: seq<Event>, s: State)
    requires Reaches(cfg, es, s)
    requires s.src.checkpointed
    ensures cfg.liveSrc && cfg.liveSink && ReplyHasCriu(s.src)
  {
    ExecKeeps(cfg, Init(cfg), es);
  }

  // The dump script exits with success only after the sink reported success.
  lemma ScriptSuccessFromSink(cfg: Config, es: seq<Event>, s: State)
    requires Reaches(cfg, es, s)
    requires s.src.script == ScriptExit(true) || s.src.dump == DumpEnded(true)
    ensures s.sink.reportedOk
  {
    ExecKeeps(cfg, Init(cfg), es);
  }

  // In every run, whatever fails: a source that returns nil has a sink that
  // received the whole filesystem and said so.
  lemma SourceSuccessMeansReceived(cfg: Config, es: seq<Event>, s: State)
    requires Reaches(cfg, es, s)
    requires s.src.pc == SrcDone(true)
    ensures s.sink.received && s.sink.reportedOk
  {
    ExecKeeps(cfg, Init(cfg), es);
  }

  // With CRIU and without the action script nobody sends on dumpSuccess: the
  // source never returns nil.
  lemma LiveWithoutScriptNeverSucceeds(cfg: Config, es: seq<Event>, s: State)
    requires Reaches(cfg, es, s)
    requires cfg.liveSrc && !cfg.script
    ensures s.src.pc != SrcDone(true)
  {
    ExecKeeps(cfg, Init(cfg), es);
  }

  // Everything the sink had to do.
  ghost predicate Complete(cfg: Config, s: Sink) {
    s.received && s.shifted && (cfg.liveSink ==> s.restored)
  }

  // The filesystem goroutine assigns err between the delivery of a result and
  // the report of it.
  predicate Races(s: State, e: Event) {
    s.sink.pc.SinkReporting? && e.Snk? && (e.k.FsReceive? || e.k.FsShift?)
  }

  ghost predicate RaceFree(cfg: Config, s: State, es: seq<Event>)
    decreases es
  {
    es == [] ||
    (!Races(s, es[0]) && (Next(cfg, s, es[0]).Some? ==> RaceFree(cfg, Next(cfg, s, es[0]).value, es[1..])))
  }

  lemma {:induction false} ExecSnoc(cfg: Config, s: State, es: seq<Event>, e: Event)
    requires Exec(cfg, s, es).Some?
    ensures Exec(cfg, s, es + [e]) == Next(cfg, Exec(cfg, s, es).value, e)
    decreases es
  {
    if es == [] {
      assert es + [e] == [e] && [e][1..] == [];
    } else {
      assert (es + [e])[1..] == es[1..] + [e];
      ExecSnoc(cfg, Next(cfg, s, es[0]).value, es[1..], e);
    }
  }

  lemma {:induction false} RaceFreeSnoc(cfg: Config, s: State, es: seq<Event>, e: Event)
    requires Exec(cfg, s, es).Some?
    requires RaceFree(cfg, s, es)
    requires !Races(Exec(cfg, s, es).value, e)
    ensures RaceFree(cfg, s, es + [e])
    decreases es
  {
    if es == [] {
      assert es + [e] == [e] && [e][1..] == [];
    } else {
      assert (es + [e])[1..] == es[1..] + [e] && (es + [e])[0] == es[0];
      RaceFreeSnoc(cfg, Next(cfg, s, es[0]).value, es[1..], e);
    }
  }

  // Some run leads to s; if clean, one without the racing assignment.
  ghost predicate Can(cfg: Config, s: State, clean: bool) {
    exists es :: Reaches(cfg, es, s) && (clean ==> RaceFree(cfg, Init(cfg), es))
  }

  lemma InitCan(cfg: Config, clean: bool)
    ensures Can(cfg, Init(cfg), clean)
  {
    assert Reaches(cfg, [], Init(cfg)) && RaceFree(cfg, Init(cfg), []);
  }

  // One more event at the end of a run.
  lemma Go(cfg: Config, s: State, e: Event, clean: bool) returns (s': State)
    requires Can(cfg, s, clean)
    requires Next(cfg, s, e).Some?
    requires clean ==> !Races(s, e)
    ensures s' == Next(cfg, s, e).value && Can(cfg, s', clean)
  {
    var es :| Reaches(cfg, es, s) && (clean ==> RaceFree(cfg, Init(cfg), es));
    ExecSnoc(cfg, Init(cfg), es, e);
    if clean { RaceFreeSnoc(cfg, Init(cfg), es, e); }
    s' := Next(cfg, s, e).value;
    assert Reaches(cfg, es + [e], s');
  }

  function HeaderSent(cfg: Config): State {
    var s := Init(cfg);
    s.(src := s.src.(pc := SrcAwaitReply), sink := s.sink.(pc := SinkReplying, format := Agreed(cfg)))
  }

  lemma HeaderRun(cfg: Config, clean: bool)
    ensures Can(cfg, HeaderSent(cfg), clean)
  {
    InitCan(cfg, clean);
    var s := Go(cfg, Init(cfg), Snk(Connect(true)), clean);
    s := Go(cfg, s, Src(SendHeader(true)), clean);
    s := Go(cfg, s, Snk(RecvHeader), clean);
    assert s == HeaderSent(cfg);
  }

  // Headers exchanged and the filesystem sent.
  function Opened(cfg: Config): State {
    var s := Init(cfg);
    s.(src := s.src.(pc := if cfg.liveSrc then SrcCheckCriu else SrcAwaitVerdict,
                     reply := Some(SinkReplyMsg(cfg)), format := Agreed(cfg)),
       sink := s.sink.(pc := SinkServing, format := Agreed(cfg),
                       restore := if cfg.liveSink then RestImages else RestAwaitFs,
                       fs := FsReceiving, reader := ReaderWaiting))
  }

  function Replied(cfg: Config): State {
    State(HeaderSent(cfg).src, Opened(cfg).sink, [], [SinkReplyMsg(cfg)])
  }

  lemma ReplyRun(cfg: Config, clean: bool)
    ensures Can(cfg, Replied(cfg), clean)
  {
    HeaderRun(cfg, clean);
    var s := Go(cfg, HeaderSent(cfg), Snk(Reply(true)), clean);
    assert s == Replied(cfg);
  }

  lemma OpeningRun(cfg: Config, clean: bool)
    ensures Can(cfg, Opened(cfg), clean)
  {
    ReplyRun(cfg, clean);
    var s := Go(cfg, Replied(cfg), Src(RecvReply), clean);
    s := Go(cfg, s, Src(SendFs(true)), clean);
    assert s == Opened(cfg);
  }

  // A live source checkpoints, with the action script or without.
  function Dumped(cfg: Config, s: State): State {
    if cfg.script then
      s.(src := s.src.(pc := SrcImages, checkpointed := true, op := OpRunning,
                       dump := DumpRunning, script := ScriptHanging, dumpDone := false))
    else s.(src := s.src.(pc := SrcImages, checkpointed := true))
  }

  lemma DumpRun(cfg: Config, s0: State, clean: bool)
    requires Can(cfg, s0, clean)
    requires s0.src.pc.SrcCheckCriu? && ReplyHasCriu(s0.src) && s0.src.script.ScriptIdle?
    requires s0.src.op.OpNone? && s0.src.dump.DumpIdle?
    ensures Can(cfg, Dumped(cfg, s0), clean)
  {
    var s := Go(cfg, s0, Src(Checkpoint(true)), clean);
    if cfg.script {
      s := Go(cfg, s, Src(ScriptConnects), clean);
      s := Go(cfg, s, Src(SeesDumpDone), clean);
    } else {
      s := Go(cfg, s, Src(SyncDump(true)), clean);
    }
    assert s == Dumped(cfg, s0);
  }

  // Then it sends the images.
  lemma ImagesRun(cfg: Config, s0: State, clean: bool)
    requires Can(cfg, s0, clean)
    requires s0.src.pc.SrcImages?
    ensures Can(cfg, s0.(src := s0.src.(pc := SrcAwaitVerdict)), clean)
  {
    var s := Go(cfg, s0, Src(SendImages(true)), clean);
    s := Go(cfg, s, Src(SendAfter(true)), clean);
    assert s == s0.(src := s0.src.(pc := SrcAwaitVerdict));
  }

  // Everything up to the images is sent, and the source awaits the verdict.
  function Transferred(cfg: Config): State {
    var s := Opened(cfg);
    if cfg.liveSrc then Dumped(cfg, s).(src := Dumped(cfg, s).src.(pc := SrcAwaitVerdict)) else s
  }

  lemma TransferRun(cfg: Config, clean: bool)
    requires cfg.liveSrc ==> cfg.liveSink
    ensures Can(cfg, Transferred(cfg), clean)
  {
    OpeningRun(cfg, clean);
    if cfg.liveSrc {
      DumpRun(cfg, Opened(cfg), clean);
      ImagesRun(cfg, Dumped(cfg, Opened(cfg)), clean);
    }
  }

  // Receiving the images fails; `restore` delivers the error to Do; before it is
  // sent, the filesystem goroutine sets the same err to nil; success is reported.
  lemma FalseReport(cfg: Config, s0: State) returns (s: State)
    requires Can(cfg, s0, false)
    requires s0.sink.pc.SinkServing? && s0.sink.restore.RestImages? && s0.sink.fs.FsReceiving?
    requires s0.toSource == []
    ensures Can(cfg, s, false)
    ensures s == s0.(sink := s.sink, toSource := [Control(true)])
    ensures s.sink.shifted == s0.sink.shifted && s.sink.restored == s0.sink.restored
  {
    s := Go(cfg, s0, Snk(RecvImages(false)), false);
    s := Go(cfg, s, Snk(TakesResult), false);
    s := Go(cfg, s, Snk(FsReceive(true)), false);
    s := Go(cfg, s, Snk(Reports(true)), false);
  }

  // With an action script, a success that was reported ends the script, then the
  // dump, and then the source.
  function ScriptEnded(s: State): State {
    s.(src := s.src.(op := OpEnded(true), restoreSuccess := None, script := ScriptExit(true)))
  }

  lemma ScriptEndsRun(cfg: Config, s0: State, clean: bool)
    requires Can(cfg, s0, clean)
    requires s0.src.restoreSuccess == Some(true) && s0.src.op.OpRunning? && s0.src.script.ScriptHanging?
    ensures Can(cfg, ScriptEnded(s0), clean)
  {
    var s := Go(cfg, s0, Src(OpEnds), clean);
    s := Go(cfg, s, Src(ScriptExits(false)), clean);
    assert s == ScriptEnded(s0);
  }

  lemma DumpJoinedRun(cfg: Config, s0: State, clean: bool) returns (s: State)
    requires Can(cfg, s0, clean)
    requires s0.src.pc.SrcJoinDump? && s0.src.restoreSuccess == Some(true) && s0.src.verdict
    requires s0.src.op.OpRunning? && s0.src.script.ScriptHanging? && s0.src.dump.DumpRunning?
    ensures Can(cfg, s, clean)
    ensures s.src.pc == SrcDone(true) && s.sink == s0.sink
  {
    ScriptEndsRun(cfg, s0, clean);
    s := Go(cfg, ScriptEnded(s0), Src(DumpEnds(true)), clean);
    s := Go(cfg, s, Src(JoinDump), clean);
  }

  lemma VerdictRun(cfg: Config, s0: State, clean: bool) returns (s: State)
    requires cfg.liveSrc ==> cfg.script
    requires Can(cfg, s0, clean)
    requires s0.src == Transferred(cfg).src && s0.toSource == [Control(true)]
    ensures Can(cfg, s, clean)
    ensures s.src.pc == SrcDone(true) && s.sink == s0.sink
  {
    s := Go(cfg, s0, Src(RecvVerdict), clean);
    if cfg.liveSrc { s := DumpJoinedRun(cfg, s, clean); }
  }

  // A source that returns nil although the sink restored nothing.
  lemma FalseSuccess(cfg: Config) returns (es: seq<Event>, s: State)
    requires cfg.liveSink && (cfg.liveSrc ==> cfg.script)
    ensures Reaches(cfg, es, s) && s.src.pc == SrcDone(true) && !Complete(cfg, s.sink)
  {
    TransferRun(cfg, false);
    s := FalseReport(cfg, Transferred(cfg));
    s := VerdictRun(cfg, s, false);
    es :| Reaches(cfg, es, s);
  }

  // The sink receives the filesystem, after the images if it is live.
  function Received(s: Sink): Sink {
    s.(restore := RestAwaitFs, fs := FsReceivedTest, errNil := true, received := true)
  }

  lemma ReceiveRun(cfg: Config, s0: State, clean: bool)
    requires Can(cfg, s0, clean)
    requires s0.sink.pc.SinkServing?
    requires s0.sink.fs.FsReceiving? && s0.sink.restore == if cfg.liveSink then RestImages else RestAwaitFs
    ensures Can(cfg, s0.(sink := Received(s0.sink)), clean)
  {
    var s := s0;
    if cfg.liveSink { s := Go(cfg, s, Snk(RecvImages(true)), clean); }
    s := Go(cfg, s, Snk(FsReceive(true)), clean);
    assert s == s0.(sink := Received(s0.sink));
  }

  // And shifts it.
  function Shifted(s: Sink): Sink { Received(s).(fs := FsSend(true), shifted := true) }

  lemma FilesystemRun(cfg: Config, s0: State, clean: bool)
    requires Can(cfg, s0, clean)
    requires s0.sink.pc.SinkServing?
    requires s0.sink.fs.FsReceiving? && s0.sink.restore == if cfg.liveSink then RestImages else RestAwaitFs
    ensures Can(cfg, s0.(sink := Shifted(s0.sink)), clean)
  {
    ReceiveRun(cfg, s0, clean);
    var s := Go(cfg, s0.(sink := Received(s0.sink)), Snk(FsTest), clean);
    s := Go(cfg, s, Snk(FsShift(true)), clean);
    s := Go(cfg, s, Snk(FsTest), clean);
    assert s == s0.(sink := Shifted(s0.sink));
  }

  // Then it restores the container if it is live, and reports.
  lemma ReportRun(cfg: Config, s0: State, clean: bool) returns (s: State)
    requires Can(cfg, s0, clean)
    requires s0.sink.pc.SinkServing? && s0.sink.restore.RestAwaitFs? && s0.sink.fs == FsSend(true)
    requires s0.sink.received && s0.sink.shifted
    requires s0.toSource == []
    ensures Can(cfg, s, clean) && Complete(cfg, s.sink)
    ensures s == s0.(sink := s.sink, toSource := [Control(true)])
  {
    s := Go(cfg, s0, Snk(FsHandOver), clean);
    if cfg.liveSink { s := Go(cfg, s, Snk(Restore(true)), clean); }
    s := Go(cfg, s, Snk(TakesResult), clean);
    s := Go(cfg, s, Snk(Reports(true)), clean);
  }

  // All goes well at the sink, and it says so.
  lemma SinkRun(cfg: Config, clean: bool) returns (s: State)
    requires cfg.liveSrc ==> cfg.liveSink
    ensures Can(cfg, s, clean) && Complete(cfg, s.sink)
    ensures s == Transferred(cfg).(sink := s.sink, toSource := [Control(true)])
  {
    TransferRun(cfg, clean);
    FilesystemRun(cfg, Transferred(cfg), clean);
    s := ReportRun(cfg, Transferred(cfg).(sink := Shifted(Transferred(cfg).sink)), clean);
  }

  // Which migrations can succeed at all, and then with all the work done: those of
  // a stopped container, and live ones with an action script to a live sink.
  lemma CanSucceedExactly(cfg: Config)
    ensures (exists es, s :: Reaches(cfg, es, s) && s.src.pc == SrcDone(true)) <==>
              (cfg.liveSrc ==> cfg.script && cfg.liveSink)
    ensures (cfg.liveSrc ==> cfg.script && cfg.liveSink) ==>
              exists es, s :: Reaches(cfg, es, s) && RaceFree(cfg, Init(cfg), es) && s.src.pc == SrcDone(true) &&
                  Complete(cfg, s.sink)
  {
    if cfg.liveSrc ==> cfg.script && cfg.liveSink {
      var s := SinkRun(cfg, true);
      s := VerdictRun(cfg, s, true);
      var es :| Reaches(cfg, es, s) && RaceFree(cfg, Init(cfg), es);
    }
    forall es, s | Reaches(cfg, es, s) && s.src.pc == SrcDone(true) ensures cfg.liveSrc ==> cfg.script && cfg.liveSink {
      ExecKeeps(cfg, Init(cfg), es);
    }
  }

  // ------------------------------------------------------------ waiting for ever

  // The source waits for dumpSuccess, whatever happens from here on.
  ghost predicate Hangs(cfg: Config, s: State) {
    forall es :: Exec(cfg, s, es).Some? ==> Exec(cfg, s, es).value.src.pc.SrcJoinDump?
  }

  // Nothing is sent on dumpSuccess where there is no dump goroutine.
  lemma {:induction false} NothingToJoin(cfg: Config, s: State, es: seq<Event>)
    requires !cfg.script
    requires s.src.pc.SrcJoinDump? && s.src.dump.DumpIdle?
    requires Exec(cfg, s, es).Some?
    ensures Exec(cfg, s, es).value.src.pc.SrcJoinDump?
    decreases es
  {
    if es != [] { NothingToJoin(cfg, Next(cfg, s, es[0]).value, es[1..]); }
  }

  // Without the action script a source that awaits the end of the dump hangs.
  lemma JoinWithoutScriptHangs(cfg: Config, es: seq<Event>, s: State)
    requires Reaches(cfg, es, s)
    requires !cfg.script && s.src.pc.SrcJoinDump?
    ensures Hangs(cfg, s)
  {
    ExecKeeps(cfg, Init(cfg), es);
    forall next | Exec(cfg, s, next).Some? ensures Exec(cfg, s, next).value.src.pc.SrcJoinDump? {
      NothingToJoin(cfg, s, next);
    }
  }

  // With it, the dump goroutine runs or has a result as long as it may be waited for.
  predicate DumpAlive(cfg: Config, s: Source) {
    cfg.liveSrc && cfg.script &&
    (s.pc.SrcDumping? || s.pc.SrcImages? || s.pc.SrcAfter? || s.pc.SrcAwaitVerdict? || s.pc.SrcJoinDump?) ==>
      s.dump.DumpRunning? || s.dump.DumpEnded?
  }

  lemma SrcKeepsAlive(cfg: Config, s: Source, inbox: seq<Msg>, e: SrcEvent)
    requires DumpAlive(cfg, s)
    requires SrcNext(cfg, s, inbox, e).Moved?
    ensures DumpAlive(cfg, SrcNext(cfg, s, inbox, e).to)
  {
  }

  lemma {:induction false} DumpStaysAlive(cfg: Config, s: State, es: seq<Event>)
    requires DumpAlive(cfg, s.src)
    requires Exec(cfg, s, es).Some?
    ensures DumpAlive(cfg, Exec(cfg, s, es).value.src)
    decreases es
  {
    if es != [] {
      if es[0].Src? { SrcKeepsAlive(cfg, s.src, s.toSource, es[0].s); }
      DumpStaysAlive(cfg, Next(cfg, s, es[0]).value, es[1..]);
    }
  }

  lemma JoinWithScriptMayEnd(cfg: Config, s: State) returns (es: seq<Event>)
    requires s.src.pc.SrcJoinDump?
    requires s.src.dump.DumpRunning? || s.src.dump.DumpEnded?
    ensures Exec(cfg, s, es).Some? && Exec(cfg, s, es).value.src.pc.SrcDone?
  {
    var join := Src(JoinDump);
    if s.src.dump.DumpEnded? {
      es := [join];
      assert es[1..] == [];
      assert Exec(cfg, Next(cfg, s, join).value, []).Some?;
    } else {
      es := [Src(DumpEnds(false)), join];
      var t := Next(cfg, s, es[0]).value;
      assert es[1..] == [join] && es[1..][1..] == [];
      assert Exec(cfg, t, [join]) == Exec(cfg, Next(cfg, t, join).value, []);
    }
  }

  lemma HangsOnlyThere(cfg: Config, es: seq<Event>, s: State)
    requires Reaches(cfg, es, s)
    requires Hangs(cfg, s)
    ensures cfg.liveSrc && cfg.liveSink && !cfg.script
  {
    assert Exec(cfg, s, []).value.src.pc.SrcJoinDump?;
    ExecKeeps(cfg, Init(cfg), es);
    DumpStaysAlive(cfg, Init(cfg), es);
    if cfg.script { var next := JoinWithScriptMayEnd(cfg, s); }
  }

  // Which sources can wait for ever: live ones without the action script that
  // migrate to a live sink, and then even after a complete migration.
  lemma HangsExactly(cfg: Config)
    ensures (exists es, s :: Reaches(cfg, es, s) && Hangs(cfg, s)) <==> cfg.liveSrc && cfg.liveSink && !cfg.script
    ensures cfg.liveSrc && cfg.liveSink && !cfg.script ==>
              exists es, s :: Reaches(cfg, es, s) && Hangs(cfg, s) && Complete(cfg, s.sink)
  {
    if cfg.liveSrc && cfg.liveSink && !cfg.script {
      var s := SinkRun(cfg, false);
      s := Go(cfg, s, Src(RecvVerdict), false);
      var es :| Reaches(cfg, es, s);
      JoinWithoutScriptHangs(cfg, es, s);
      assert Reaches(cfg, es, s) && Hangs(cfg, s) && Complete(cfg, s.sink);
    }
    forall es, s | Reaches(cfg, es, s) && Hangs(cfg, s) ensures cfg.liveSrc && cfg.liveSink && !cfg.script {
      HangsOnlyThere(cfg, es, s);
    }
  }

  // -------------------------------------------------------- what success means

  // Exactly when a source's nil can be trusted: in every run of a configuration
  // it means that the sink did all its work, if and only if the sink does not
  // restore with CRIU, or the source would hang on dumpSuccess anyway.
  lemma SourceSuccessExactly(cfg: Config)
    ensures (forall es, s :: Reaches(cfg, es, s) && s.src.pc == SrcDone(true) ==> Complete(cfg, s.sink))
       <==> (cfg.liveSink ==> cfg.liveSrc && !cfg.script)
  {
    if cfg.liveSink && (cfg.liveSrc ==> cfg.script) {
      var es, s := FalseSuccess(cfg);
    } else {
      forall es, s | Reaches(cfg, es, s) && s.src.pc == SrcDone(true)
        ensures Complete(cfg, s.sink)
      {
        ExecKeeps(cfg, Init(cfg), es);
      }
    }
  }

  ghost predicate ReportInv(cfg: Config, s: Sink) {
    && (s.pc.SinkReporting? && s.errNil ==> Complete(cfg, s) && s.fs.FsEnded?)
    && (s.reportedOk ==> Complete(cfg, s) && s.fs.FsEnded? && s.restore.RestEnded?)
  }

  lemma MainReportKept(cfg: Config, s: Sink, inbox: seq<Msg>, e: SinkEvent)
    requires SinkInv(cfg, s)
    requires ReportInv(cfg, s)
    requires SinkMain(cfg, s, inbox, e).Moved?
    ensures ReportInv(cfg, SinkMain(cfg, s, inbox, e).to)
  {
  }

  lemma SinkReportKept(cfg: Config, s: Sink, inbox: seq<Msg>, e: SinkEvent)
    requires SinkInv(cfg, s)
    requires ReportInv(cfg, s)
    requires !(s.pc.SinkReporting? && (e.FsReceive? || e.FsShift?))
    requires SinkNext(cfg, s, inbox, e).Moved?
    ensures ReportInv(cfg, SinkNext(cfg, s, inbox, e).to)
  {
    if SinkMain(cfg, s, inbox, e).Moved? { MainReportKept(cfg, s, inbox, e); }
  }

  lemma ReportKept(cfg: Config, s: State, e: Event)
    requires SinkInv(cfg, s.sink)
    requires ReportInv(cfg, s.sink)
    requires !Races(s, e)
    requires Next(cfg, s, e).Some?
    ensures ReportInv(cfg, Next(cfg, s, e).value.sink)
  {
    if e.Snk? { SinkReportKept(cfg, s.sink, s.toSink, e.k); }
  }

  lemma {:induction false} RaceFreeKeeps(cfg: Config, s: State, es: seq<Event>)
    requires Inv(cfg, s)
    requires ReportInv(cfg, s.sink)
    requires Exec(cfg, s, es).Some?
    requires RaceFree(cfg, s, es)
    ensures Inv(cfg, Exec(cfg, s, es).value) && ReportInv(cfg, Exec(cfg, s, es).value.sink)
    decreases es
  {
    if es != [] {
      NextKeeps(cfg, s, es[0]);
      ReportKept(cfg, s, es[0]);
      RaceFreeKeeps(cfg, Next(cfg, s, es[0]).value, es[1..]);
    }
  }

  // That assignment is the only way a success can be false: without it every
  // configuration keeps the promise, live ones included.
  lemma RaceFreeSuccessIsTrue(cfg: Config, es: seq<Event>, s: State)
    requires Reaches(cfg, es, s)
    requires RaceFree(cfg, Init(cfg), es)
    requires s.src.pc == SrcDone(true)
    ensures Complete(cfg, s.sink)
  {
    RaceFreeKeeps(cfg, Init(cfg), es);
  }
}
