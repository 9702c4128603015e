// What a failing `apollo init` leaves behind, from the server, the requests and
// the replies as they were before it.
module InitOutcome {
  import opened Wrappers
  import opened ServerConfig
  import opened InitTransaction
  import opened InitCommand

  // Everything that an init meets.
  datatype Plan = Plan(schema: Schema, changes: seq<Change>, replies: seq<Reply>, undoReplies: seq<Reply>)

  ghost predicate Sound(p: Plan) {
    && DistinctTargets(p.changes)
    && |p.replies| == |p.changes| == |p.undoReplies|
    && (forall i :: 0 <= i < |p.replies| ==> FaithfulAnswers(p.schema, p.replies[i].answers))
    && (forall i :: 0 <= i < |p.undoReplies| ==> FaithfulAnswers(p.schema, p.undoReplies[i].answers))
    && (forall k :: k in p.schema && p.schema[k].hidden ==> p.schema[k].defaultValue == "")
  }

  ghost predicate Starts(p: Plan, s0: State) { Valid(p.schema, s0.server) }

  // A run of the plan from s0 in which a change fails and the reverters succeed.
  ghost predicate Fails(p: Plan, s0: State, run: Run) {
    && AppliedBy(p.schema, p.changes, p.replies, run.ss, run.revs) && run.ss[0] == s0
    && |run.revs| < |p.changes|
    && ChangesBy(p.schema, run.ss[|run.revs|], p.changes[|run.revs|], p.replies[|run.revs|], run.t, None)
    && RevertedBy(p.schema, run.t, run.revs, p.undoReplies, run.us) && |run.us| == |run.revs| + 1
  }

  ghost predicate LooksAlike(p: Plan, s0: State, run: Run) {
    |run.us| == |run.revs| + 1 && SameView(p.schema, run.us[|run.revs|], s0)
  }

  // ------------------------------------------ judged by the state before the init

  function ConfigFor(p: Plan, s: Server, req: map<string, Json>): map<string, Json> {
    Effective(p.schema, s.table, req)
  }

  // All keys that the request changes are accepted.
  ghost predicate Accepts(p: Plan, s: Server, req: map<string, Json>, answers: Answers) {
    forall k :: IsChanged(s.table, ConfigFor(p, s, req), k)
                ==> Accepted(p.schema, s, ConfigFor(p, s, req), WorldFor(p.schema, s, req, answers), k)
  }

  ghost predicate FailsOn(p: Plan, s0: State, i: nat)
    requires i < |p.changes| && i < |p.replies|
  {
    match p.changes[i]
    case SetConfig(req) => !p.replies[i].found || !p.replies[i].effect.Done? ||
        !Accepts(p, s0.server, req, p.replies[i].answers)
    case PutObject(ref, otype, body) => ObjectPut(s0, ref, otype, body, p.replies[i]).1.None?
  }

  // The request may stop half way and show, or show as a whole with its answer lost.
  ghost predicate ConfigShows(p: Plan, s: Server, req: map<string, Json>, reply: Reply) {
    var config, world := ConfigFor(p, s, req), WorldFor(p.schema, s, req, reply.answers);
    IsHalfBad(p.schema, s, config, world) || (reply.effect.Halfway? && SomethingShows(p.schema, s, config, world))
  }

  // The change may fail and yet show.
  ghost predicate ShowsOn(p: Plan, s0: State, i: nat)
    requires i < |p.changes| && i < |p.replies|
  {
    match p.changes[i]
    case SetConfig(req) =>
      p.replies[i].found && !p.replies[i].effect.Failed? && ConfigShows(p, s0.server, req, p.replies[i])
    case PutObject(ref, otype, body) => ObjectPut(s0, ref, otype, body, p.replies[i]).0 != s0
  }

  // The change drops a secret.
  ghost predicate DropsOn(p: Plan, s0: State, i: nat)
    requires i < |p.changes|
  {
    p.changes[i].SetConfig?
    && exists k :: k in p.schema && IsSecretShown(p.schema, s0.server, k) &&
        InitTransaction.Drops(p.schema, s0.server, p.changes[i].config, k)
  }

  // ------------------------------------------------------------------ each step

  // What change i meets is still as it was at first.
  lemma TargetAsBefore(p: Plan, ss: seq<State>, revs: seq<Reverter>, i: nat)
    requires DistinctTargets(p.changes)
    requires AppliedBy(p.schema, p.changes, p.replies, ss, revs)
    requires i <= |revs| && i < |p.changes|
    ensures p.changes[i].SetConfig? ==> ss[i].server == ss[0].server
    ensures p.changes[i].PutObject? ==> ObjectAt(ss[i], p.changes[i].ref) == ObjectAt(ss[0], p.changes[i].ref)
  {
    forall n | 0 <= n < i ensures !SameTarget(p.changes[n], p.changes[i]) {}
    if p.changes[i].SetConfig? {
      AppliedServer(p.schema, p.changes, ss, revs, 0, i);
    } else {
      AppliedElsewhere(p.schema, p.changes, ss, revs, 0, i, p.changes[i].ref);
    }
  }

  // ------------------------------------------------------------- a run that succeeds

  ghost predicate Succeeds(p: Plan, ss: seq<State>, revs: seq<Reverter>) {
    && DistinctTargets(p.changes)
    && AppliedBy(p.schema, p.changes, p.replies, ss, revs)
    && |revs| == |p.changes|
  }

  // Afterwards every pool, network and profile is as it was asked for.
  lemma ObjectsAreAsAsked(p: Plan, ss: seq<State>, revs: seq<Reverter>, i: nat)
    requires Succeeds(p, ss, revs)
    requires i < |p.changes| && p.changes[i].PutObject?
    ensures p.changes[i].ref in ss[|revs|].objects
    ensures var (c, before, after) := (p.changes[i], ss[0].objects, ss[|revs|].objects[p.changes[i].ref]);
            if c.ref in before then
              && after.otype == before[c.ref].otype && after.body.config == c.body.config
              && (c.ref.kind == Profile ==> after.body == c.body)
              && (c.ref.kind != Profile ==> after.body.description == "" && after.body.devices == map[])
              && (c.ref.kind == Network ==> c.otype == "" || c.otype == "bridge")
            else after == p.replies[i].created
  {
    var c := p.changes[i];
    TargetAsBefore(p, ss, revs, i);
    assert ChangesBy(p.schema, ss[i], c, p.replies[i], ss[i + 1], Some(revs[i]));
    ObjectPutAsAsked(ss[i], c.ref, c.otype, c.body, p.replies[i]);
    forall n | i < n < |revs| ensures !Targets(p.changes[n], c.ref) {
      assert !SameTarget(p.changes[i], p.changes[n]);
    }
    AppliedElsewhere(p.schema, p.changes, ss, revs, i + 1, |revs|, c.ref);
    assert ObjectAt(ss[|revs|], c.ref) == ObjectAt(ss[i + 1], c.ref);
  }

  lemma PutIsAsAsked(schema: Schema, s: Server, req: map<string, Json>, answers: Answers, s': Server, k: string)
    requires Valid(schema, s)
    requires Consistent(s)
    requires FaithfulAnswers(schema, answers)
    requires PutsBy(schema, s, req, answers, s', true)
    requires k in schema && !schema[k].hidden
    ensures k in s'.cache && s'.cache[k] == if k in req && req[k].Text? then req[k].text else ""
  {
    var config, world := Effective(schema, s.table, req), WorldFor(schema, s, req, answers);
    var order :| PutsIn(schema, s, req, s', true, world, order);
    var n := SetAllStops(schema, s, config, world, order);
    if IsChanged(s.table, config, k) {
      var j := IndexOf(order, k);
      assert SetAt(s, s', config, world, order[j]);
    } else {
      UnchangedIsWanted(s.table, config, k);
    }
  }

  // And so is the configuration: every key that is not hidden has the string that
  // was asked for, and is unset if it was left out.
  lemma ConfigIsAsAsked(p: Plan, ss: seq<State>, revs: seq<Reverter>, i: nat, k: string)
    requires Succeeds(p, ss, revs)
    requires i < |p.changes| && p.changes[i].SetConfig?
    requires Valid(p.schema, ss[0].server)
    requires Consistent(ss[0].server)
    requires |p.replies| == |p.changes| && FaithfulAnswers(p.schema, p.replies[i].answers)
    requires k in p.schema && !p.schema[k].hidden
    ensures k in ss[|revs|].server.cache
    ensures ss[|revs|].server.cache[k] ==
              if k in p.changes[i].config && p.changes[i].config[k].Text? then p.changes[i].config[k].text else ""
  {
    var req := p.changes[i].config;
    TargetAsBefore(p, ss, revs, i);
    assert ChangesBy(p.schema, ss[i], p.changes[i], p.replies[i], ss[i + 1], Some(revs[i]));
    forall n | i < n < |revs| ensures !p.changes[n].SetConfig? {
      assert !SameTarget(p.changes[i], p.changes[n]);
    }
    AppliedServer(p.schema, p.changes, ss, revs, i + 1, |revs|);
    PutIsAsAsked(p.schema, ss[i].server, req, p.replies[i].answers, ss[i + 1].server, k);
  }

  // ------------------------------------------------------------- a run that fails

  lemma ConfigFailsExactly(p: Plan, a: State, req: map<string, Json>, reply: Reply, b: State, r: Option<Reverter>)
    requires Valid(p.schema, a.server)
    requires ChangesBy(p.schema, a, SetConfig(req), reply, b, r)
    ensures r.None? <==> !reply.found || !reply.effect.Done? || !Accepts(p, a.server, req, reply.answers)
  {
    if reply.found && reply.effect.Done? {
      var world := WorldFor(p.schema, a.server, req, reply.answers);
      var order :| PutsIn(p.schema, a.server, req, b.server, r.Some?, world, order);
      SucceedsExactly(p.schema, a.server, ConfigFor(p, a.server, req), world, order);
    }
  }

  lemma StepFailsExactly(p: Plan, s0: State, ss: seq<State>, revs: seq<Reverter>, i: nat, b: State, r: Option<Reverter>)
    requires Sound(p) && Starts(p, s0)
    requires AppliedBy(p.schema, p.changes, p.replies, ss, revs) && ss[0] == s0
    requires i <= |revs| && i < |p.changes|
    requires ChangesBy(p.schema, ss[i], p.changes[i], p.replies[i], b, r)
    ensures r.None? <==> FailsOn(p, s0, i)
  {
    TargetAsBefore(p, ss, revs, i);
    match p.changes[i]
    case SetConfig(req) => ConfigFailsExactly(p, ss[i], req, p.replies[i], b, r);
    case PutObject(_, _, _) =>
  }

  lemma FirstFailure(p: Plan, s0: State, run: Run)
    requires Sound(p) && Starts(p, s0)
    requires Fails(p, s0, run)
    ensures FailsOn(p, s0, |run.revs|)
    ensures forall i :: 0 <= i < |run.revs| ==> !FailsOn(p, s0, i)
  {
    var k := |run.revs|;
    StepFailsExactly(p, s0, run.ss, run.revs, k, run.t, None);
    forall i | 0 <= i < k ensures !FailsOn(p, s0, i) {
      assert ChangesBy(p.schema, run.ss[i], p.changes[i], p.replies[i], run.ss[i + 1], Some(run.revs[i]));
      StepFailsExactly(p, s0, run.ss, run.revs, i, run.ss[i + 1], Some(run.revs[i]));
    }
  }

  // Every run fails at the same change: the first that fails on the state before.
  lemma FailsAtSame(p: Plan, s0: State, run: Run, run': Run)
    requires Sound(p) && Starts(p, s0)
    requires Fails(p, s0, run)
    requires Fails(p, s0, run')
    ensures |run.revs| == |run'.revs|
  {
    FirstFailure(p, s0, run);
    FirstFailure(p, s0, run');
  }

  lemma FailsIsFailed(p: Plan, s0: State, run: Run)
    requires Sound(p) && Starts(p, s0)
    requires Fails(p, s0, run)
    ensures FailedRun(p.schema, p.changes, run)
    ensures LooksAlike(p, s0, run) <==>
              SameView(p.schema, run.t, run.ss[|run.revs|]) && !SecretDropped(p.schema, p.changes, run)
  {
    RunFailed(p.schema, p.changes, p.replies, p.undoReplies, run);
    RestoredExactly(p.schema, p.changes, run);
  }

  // ------------------------------------------------------- the two conditions

  lemma ServerAfter(p: Plan, run: Run, i: nat)
    requires DistinctTargets(p.changes)
    requires FailedRun(p.schema, p.changes, run)
    requires i < |run.revs| && p.changes[i].SetConfig?
    ensures run.t.server == run.ss[i + 1].server
  {
    forall n | 0 <= n < |p.changes| && n != i ensures !p.changes[n].SetConfig? {
      OnlyOneSetsConfig(p.changes, i, n);
    }
    AppliedServer(p.schema, p.changes, run.ss, run.revs, i + 1, |run.revs|);
  }

  // Whether a secret is dropped can be told before.
  lemma DroppedExactly(p: Plan, s0: State, run: Run)
    requires Sound(p) && Starts(p, s0)
    requires Fails(p, s0, run)
    ensures SecretDropped(p.schema, p.changes, run) <==> exists i :: 0 <= i < |run.revs| && DropsOn(p, s0, i)
  {
    FailsIsFailed(p, s0, run);
    forall i | 0 <= i < |run.revs| && p.changes[i].SetConfig?
      ensures LostSecret(p.schema, s0.server, run.t.server) <==> DropsOn(p, s0, i)
    {
      assert ChangesBy(p.schema, run.ss[i], p.changes[i], p.replies[i], run.ss[i + 1], Some(run.revs[i]));
      ChangeIsChange(p.schema, run.ss[i], p.changes[i], p.replies[i], run.ss[i + 1], Some(run.revs[i]));
      TargetAsBefore(p, run.ss, run.revs, i);
      ServerAfter(p, run, i);
      SecretLostExactly(p.schema, s0.server, p.changes[i].config, run.t.server);
    }
  }

  // A change that fails on an object shows exactly as it would have before.
  lemma ObjectShowsExactly(p: Plan, s0: State, run: Run)
    requires Sound(p) && Starts(p, s0)
    requires Fails(p, s0, run) && p.changes[|run.revs|].PutObject?
    ensures SameView(p.schema, run.t, run.ss[|run.revs|]) <==> !ShowsOn(p, s0, |run.revs|)
  {
    var k := |run.revs|;
    TargetAsBefore(p, run.ss, run.revs, k);
  }

  lemma ConfigPutDoesNotShow(p: Plan, s: Server, req: map<string, Json>, reply: Reply, t: Server)
    requires Valid(p.schema, s)
    requires !reply.effect.Failed? && !ConfigShows(p, s, req, reply)
    requires || PutsBy(p.schema, s, req, reply.answers, t, false)
             || (reply.effect.Halfway? && PutsBy(p.schema, s, req, reply.answers, t, true))
    ensures Rendered(p.schema, t) == Rendered(p.schema, s)
  {
    var config, world := ConfigFor(p, s, req), WorldFor(p.schema, s, req, reply.answers);
    if PutsBy(p.schema, s, req, reply.answers, t, false) {
      FailsHalfwayExactly(p.schema, s, config, world);
      var order :| PutsIn(p.schema, s, req, t, false, world, order);
      assert ChangedIn(s.table, config, order) && !FailsHalfway(p.schema, s, config, world, order);
    } else {
      var order :| PutsIn(p.schema, s, req, t, true, world, order);
      SuccessShowsExactly(p.schema, s, config, world, order);
    }
  }

  // A change that fails on the configuration does not show if no order of its keys does.
  lemma ConfigDoesNotShow(p: Plan, s0: State, run: Run)
    requires Sound(p) && Starts(p, s0)
    requires Fails(p, s0, run) && p.changes[|run.revs|].SetConfig?
    requires !ShowsOn(p, s0, |run.revs|)
    ensures SameView(p.schema, run.t, run.ss[|run.revs|])
  {
    var k := |run.revs|;
    TargetAsBefore(p, run.ss, run.revs, k);
    var req, reply := p.changes[k].config, p.replies[k];
    if reply.found && !reply.effect.Failed? {
      ConfigPutDoesNotShow(p, s0.server, req, reply, run.t.server);
    }
  }

  // ---------------------------------------- another order of the failing request

  // The same run with another server after the failing change.
  function Elsewhere(run: Run, s: Server): Run {
    run.(t := run.t.(server := s), us := seq(|run.us|, i requires 0 <= i < |run.us| => run.us[i].(server := s)))
  }

  lemma ElsewhereReverts(p: Plan, run: Run, s: Server)
    requires RevertedBy(p.schema, run.t, run.revs, p.undoReplies, run.us)
    requires forall i :: 0 <= i < |run.revs| ==> !run.revs[i].RestoreConfig?
    ensures RevertedBy(p.schema, Elsewhere(run, s).t, run.revs, p.undoReplies, Elsewhere(run, s).us)
  {
    var us' := Elsewhere(run, s).us;
    forall i | 0 <= i < |us'| - 1 ensures RevertsBy(p.schema, us'[i], run.revs[i], p.undoReplies[i], us'[i + 1], true) {
      assert RevertsBy(p.schema, run.us[i], run.revs[i], p.undoReplies[i], run.us[i + 1], true);
    }
  }

  lemma ObjectReverters(p: Plan, run: Run)
    requires DistinctTargets(p.changes)
    requires AppliedBy(p.schema, p.changes, p.replies, run.ss, run.revs)
    requires |run.revs| < |p.changes| && p.changes[|run.revs|].SetConfig?
    ensures forall i :: 0 <= i < |run.revs| ==> !run.revs[i].RestoreConfig?
  {
    forall i | 0 <= i < |run.revs| ensures !run.revs[i].RestoreConfig? {
      OnlyOneSetsConfig(p.changes, |run.revs|, i);
      assert ChangesBy(p.schema, run.ss[i], p.changes[i], p.replies[i], run.ss[i + 1], Some(run.revs[i]));
    }
  }

  // A request that may show, but stops half way in no order, is taken on as a whole.
  lemma ShowsAsAWhole(p: Plan, s: Server, req: map<string, Json>, reply: Reply, t: Server)
    requires Valid(p.schema, s)
    requires ConfigShows(p, s, req, reply)
    requires !IsHalfBad(p.schema, s, ConfigFor(p, s, req), WorldFor(p.schema, s, req, reply.answers))
    requires PutsUnheard(p.schema, s, req, reply.answers, t)
    ensures Rendered(p.schema, t) != Rendered(p.schema, s)
  {
    var config, world := ConfigFor(p, s, req), WorldFor(p.schema, s, req, reply.answers);
    var ok := PutsBy(p.schema, s, req, reply.answers, t, true);
    var order :| PutsIn(p.schema, s, req, t, ok, world, order);
    SucceedsExactly(p.schema, s, config, world, order);
    SuccessShowsExactly(p.schema, s, config, world, order);
  }

  lemma SomeRunStops(p: Plan, s0: State, run: Run) returns (run': Run)
    requires Sound(p) && Starts(p, s0)
    requires Fails(p, s0, run) && p.changes[|run.revs|].SetConfig?
    requires p.replies[|run.revs|].found && !p.replies[|run.revs|].effect.Failed?
    requires IsHalfBad(p.schema, s0.server, ConfigFor(p, s0.server, p.changes[|run.revs|].config),
               WorldFor(p.schema, s0.server, p.changes[|run.revs|].config, p.replies[|run.revs|].answers))
    ensures Fails(p, s0, run') && !LooksAlike(p, s0, run')
  {
    var k := |run.revs|;
    TargetAsBefore(p, run.ss, run.revs, k);
    var req, reply := p.changes[k].config, p.replies[k];
    var config, world := ConfigFor(p, s0.server, req), WorldFor(p.schema, s0.server, req, reply.answers);
    FailsHalfwayExactly(p.schema, s0.server, config, world);
    var order :| ChangedIn(s0.server.table, config, order) && FailsHalfway(p.schema, s0.server, config, world, order);
    var s := SetAll(p.schema, s0.server, config, world, order).server;
    run' := Elsewhere(run, s);
    ObjectReverters(p, run);
    ElsewhereReverts(p, run, s);
    assert PutsIn(p.schema, s0.server, req, s, false, world, order);
    FailsIsFailed(p, s0, run');
  }

  // If the failing request may show, some run shows it.
  lemma SomeRunShows(p: Plan, s0: State, run: Run) returns (run': Run)
    requires Sound(p) && Starts(p, s0)
    requires Fails(p, s0, run) && p.changes[|run.revs|].SetConfig?
    requires ShowsOn(p, s0, |run.revs|)
    ensures Fails(p, s0, run') && !LooksAlike(p, s0, run')
  {
    var k := |run.revs|;
    TargetAsBefore(p, run.ss, run.revs, k);
    var req, reply := p.changes[k].config, p.replies[k];
    var config, world := ConfigFor(p, s0.server, req), WorldFor(p.schema, s0.server, req, reply.answers);
    if IsHalfBad(p.schema, s0.server, config, world) {
      run' := SomeRunStops(p, s0, run);
    } else {
      run' := run;
      ShowsAsAWhole(p, s0.server, req, reply, run.t.server);
      FailsIsFailed(p, s0, run);
    }
  }

  // ------------------------------------------------------------ the main result

  // Given that an init fails and its reverters succeed: it looks as before in every
  // such run, whatever order the keys are taken in, if and only if the change that
  // fails cannot show and no change made before it drops a secret; both are judged
  // by the server, the requests and the replies as they are before the init.
  lemma LeavesNothingExactly(p: Plan, s0: State, run: Run)
    requires Sound(p) && Starts(p, s0)
    requires Fails(p, s0, run)
    ensures (forall run' :: Fails(p, s0, run') ==> LooksAlike(p, s0, run')) <==>
              !ShowsOn(p, s0, |run.revs|) && !exists i :: 0 <= i < |run.revs| && DropsOn(p, s0, i)
  {
    var k := |run.revs|;
    DroppedExactly(p, s0, run);
    FailsIsFailed(p, s0, run);
    if ShowsOn(p, s0, k) {
      if p.changes[k].SetConfig? {
        var run' := SomeRunShows(p, s0, run);
      } else {
        ObjectShowsExactly(p, s0, run);
      }
    } else if !exists i :: 0 <= i < k && DropsOn(p, s0, i) {
      forall run' | Fails(p, s0, run') ensures LooksAlike(p, s0, run') {
        FailsAtSame(p, s0, run, run');
        DroppedExactly(p, s0, run');
        FailsIsFailed(p, s0, run');
        if p.changes[k].SetConfig? {
          ConfigDoesNotShow(p, s0, run');
        } else {
          ObjectShowsExactly(p, s0, run');
        }
      }
    }
  }
}
