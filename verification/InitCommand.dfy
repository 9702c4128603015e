// CmdInit.apply and CmdInit.revert against a server (apollo/main_init.go).
module InitCommand {
  import opened Wrappers
  import opened ServerConfig
  import opened ConfigDaemon
  import opened InitTransaction

  // How a request goes: `Halfway` is taken on like any other, but reports an error.
  datatype Effect = Done | Failed | Halfway

  // What the validators, the setters and the database make of a key and value.
  type Answers = (string, string) -> Answer

  ghost predicate FaithfulAnswers(schema: Schema, answers: Answers) {
    forall k, v :: k in schema && !answers(k, v).Refused? ==> Kept(schema[k], v, answers(k, v).value)
  }

  // What one changer or reverter meets: whether the lookup succeeds, how the
  // request goes, what the keys of a configuration meet, and what a creation makes.
  datatype Reply = Reply(answers: Answers, found: bool, effect: Effect, created: Object)

  // ------------------------------------------------- what the replies lead to

  function WorldFor(schema: Schema, s: Server, req: map<string, Json>, answers: Answers): World {
    k => answers(k, Wanted(Field(Effective(schema, s.table, req), k)))
  }

  ghost predicate PutsBy(schema: Schema, s: Server, req: map<string, Json>, answers: Answers, s': Server, ok: bool) {
    exists order :: PutsIn(schema, s, req, s', ok, WorldFor(schema, s, req, answers), order)
  }

  // A lookup that fails is taken to say that there is no such object; the server
  // refuses to create one twice.
  function ObjectPut(a: State, ref: Ref, otype: string, body: Body, reply: Reply): (State, Option<Reverter>) {
    if ref in a.objects && reply.found then
      if BadNetwork(ref, otype) || reply.effect.Failed? then (a, None)
      else (Updated(a, ref, UpdateBody(ref, body)), if reply.effect.Done? then Some(Restore(ref, a.objects[ref].body))
          else None)
    else if ref in a.objects || reply.effect.Failed? then (a, None)
    else (a.(objects := a.objects[ref := reply.created]), if reply.effect.Done? then Some(Remove(ref)) else None)
  }

  // A PUT of the configuration whose answer is lost.
  ghost predicate PutsUnheard(schema: Schema, s: Server, req: map<string, Json>, answers: Answers, s': Server) {
    PutsBy(schema, s, req, answers, s', true) || PutsBy(schema, s, req, answers, s', false)
  }

  ghost predicate ChangesBy(schema: Schema, a: State, c: Change, reply: Reply, b: State, r: Option<Reverter>) {
    match c
    case SetConfig(config) =>
      if !reply.found || reply.effect.Failed? then b == a && r.None?
      else if reply.effect.Halfway? then
        b.objects == a.objects && r.None? && PutsUnheard(schema, a.server, config, reply.answers, b.server)
      else
        && b.objects == a.objects
        && PutsBy(schema, a.server, config, reply.answers, b.server, r.Some?)
        && (r.Some? ==> r == Some(RestoreConfig(Rendered(schema, a.server))))
    case PutObject(ref, otype, body) => (b, r) == ObjectPut(a, ref, otype, body, reply)
  }

  // An object that is gone cannot be removed or updated.
  ghost predicate RevertsBy(schema: Schema, a: State, r: Reverter, reply: Reply, b: State, ok: bool) {
    match r
    case RestoreConfig(config) =>
      if reply.effect.Failed? then !ok && b == a
      else if reply.effect.Halfway? then
        b.objects == a.objects && !ok && PutsUnheard(schema, a.server, config, reply.answers, b.server)
      else b.objects == a.objects && PutsBy(schema, a.server, config, reply.answers, b.server, ok)
    case Remove(ref) =>
      && (ok <==> ref in a.objects && reply.effect.Done?)
      && b == if ref in a.objects && !reply.effect.Failed? then a.(objects := a.objects - {ref}) else a
    case Restore(ref, body) =>
      && (ok <==> ref in a.objects && reply.effect.Done?)
      && b == if ref in a.objects && !reply.effect.Failed? then Updated(a, ref, body) else a
  }

  lemma ChangeIsChange(schema: Schema, a: State, c: Change, reply: Reply, b: State, r: Option<Reverter>)
    requires ChangesBy(schema, a, c, reply, b, r)
    ensures Changes(schema, a, c, b, r)
  {
    if c.SetConfig? && reply.found && !reply.effect.Failed? {
      var ok := PutsBy(schema, a.server, c.config, reply.answers, b.server, true);
      var order :| PutsIn(schema, a.server, c.config, b.server, ok,
          WorldFor(schema, a.server, c.config, reply.answers), order);
    }
  }

  // What becomes of a pool, network or profile: one that is found is updated, a
  // profile with all that was asked and the others with their config alone; one that
  // is not there is made; the rest fails, and changes nothing unless the request was
  // taken on and only its answer lost.
  ghost predicate PutAsAsked(objects: map<Ref, Object>, ref: Ref, otype: string, body: Body, reply: Reply,
                             objects': map<Ref, Object>, r: Option<Reverter>)
  {
    && (forall other :: other != ref ==>
          (other in objects <==> other in objects') &&
              (other in objects && other in objects' ==> objects'[other] == objects[other]))
    && (ref in objects && !reply.found ==> r.None? && objects' == objects)
    && (reply.effect.Failed? ==> r.None? && objects' == objects)
    && (reply.effect.Halfway? ==> r.None?)
    && (ref in objects && reply.found && ref.kind == Network && otype != "" && otype != "bridge" ==>
          r.None? && objects' == objects)
    && (ref in objects && reply.found && !reply.effect.Failed? &&
        (ref.kind == Network ==> otype == "" || otype == "bridge") ==>
          && ref in objects' && objects'[ref].otype == objects[ref].otype
          && objects'[ref].body.config == body.config
          && objects'[ref].body.description == (if ref.kind == Profile then body.description else "")
          && objects'[ref].body.devices == (if ref.kind == Profile then body.devices else map[])
          && (reply.effect.Done? ==> r == Some(Restore(ref, objects[ref].body))))
    && (ref !in objects && !reply.effect.Failed? ==> ref in objects' && objects'[ref] == reply.created)
    && (ref !in objects && reply.effect.Done? ==> r == Some(Remove(ref)))
  }

  lemma ObjectPutAsAsked(a: State, ref: Ref, otype: string, body: Body, reply: Reply)
    ensures var p := ObjectPut(a, ref, otype, body, reply);
            PutAsAsked(a.objects, ref, otype, body, reply, p.0.objects, p.1) && p.0.server == a.server
  {
  }

  // The relation of the transaction allows what some replies lead to, and no more.
  lemma PutsObjectExactly(a: State, ref: Ref, otype: string, body: Body, b: State, r: Option<Reverter>)
    ensures PutsObject(a, ref, otype, body, b, r) <==>
              exists reply :: ObjectPut(a, ref, otype, body, reply) == (b, r)
  {
    if PutsObject(a, ref, otype, body, b, r) {
      var created := if ref in b.objects then b.objects[ref] else Object("", body);
      var effect := if r.Some? then Done else if b == a then Failed else Halfway;
      var reply := Reply((k, v) => Refused, true, effect, created);
      assert ObjectPut(a, ref, otype, body, reply) == (b, r);
    }
  }

  // ------------------------------------------------------------- the requests

  class Client {
    const daemon: Daemon
    var objects: map<Ref, Object>

    ghost function View(): State reads this, daemon { State(daemon.View(), objects) }

    ghost predicate Ready() reads this, daemon { Valid(daemon.schema, daemon.View()) }

    constructor (daemon: Daemon, objects: map<Ref, Object>)
      ensures this.daemon == daemon && this.objects == objects
    {
      this.daemon := daemon;
      this.objects := objects;
    }

    method UpdateServer(req: map<string, Json>, answers: Answers) returns (ok: bool)
      requires Ready()
      requires FaithfulAnswers(daemon.schema, answers)
      modifies daemon
      ensures Ready() && objects == old(objects)
      ensures PutsBy(daemon.schema, old(View()).server, req, answers, View().server, ok)
    {
      ghost var s := daemon.View();
      var world := WorldFor(daemon.schema, Server(daemon.cache, daemon.table), req, answers);
      ghost var order;
      ok, order := daemon.Put(req, world);
      assert PutsIn(daemon.schema, s, req, daemon.View(), ok, world, order);
    }

    // initConfig
    method InitConfig(config: map<string, Json>, reply: Reply) returns (r: Option<Reverter>)
      requires Ready()
      requires FaithfulAnswers(daemon.schema, reply.answers)
      modifies this, daemon
      ensures Ready()
      ensures ChangesBy(daemon.schema, old(View()), SetConfig(config), reply, View(), r)
      ensures objects == old(objects)
      ensures !reply.found || reply.effect.Failed? ==> r.None? && View() == old(View())
      ensures reply.effect.Halfway? ==> r.None?
      ensures reply.found && !reply.effect.Failed? ==>
                PutsUnheard(daemon.schema, old(View()).server, config, reply.answers, View().server)
      ensures r.Some? ==> r == Some(RestoreConfig(Rendered(daemon.schema, old(View()).server)))
    {
      if !reply.found {
        return None;
      }
      var shown := daemon.Render();
      if reply.effect.Failed? {
        return None;
      }
      var ok := UpdateServer(config, reply.answers);
      return if ok && reply.effect.Done? then Some(RestoreConfig(shown)) else None;
    }

    // initPool, initNetwork and initProfile
    method InitObject(ref: Ref, otype: string, body: Body, reply: Reply) returns (r: Option<Reverter>)
      requires Ready()
      modifies this
      ensures Ready()
      ensures ChangesBy(daemon.schema, old(View()), PutObject(ref, otype, body), reply, View(), r)
      ensures PutAsAsked(old(objects), ref, otype, body, reply, objects, r)
    {
      if ref in objects && reply.found {
        if BadNetwork(ref, otype) {
          return None;
        }
        var current := objects[ref].body;
        if !reply.effect.Failed? {
          objects := objects[ref := objects[ref].(body := UpdateBody(ref, body))];
        }
        return if reply.effect.Done? then Some(Restore(ref, current)) else None;
      }
      if ref in objects || reply.effect.Failed? {
        return None;
      }
      objects := objects[ref := reply.created];
      return if reply.effect.Done? then Some(Remove(ref)) else None;
    }

    method Change(c: Change, reply: Reply) returns (r: Option<Reverter>)
      requires Ready()
      requires FaithfulAnswers(daemon.schema, reply.answers)
      modifies this, daemon
      ensures Ready()
      ensures ChangesBy(daemon.schema, old(View()), c, reply, View(), r)
    {
      match c
      case SetConfig(config) => r := InitConfig(config, reply);
      case PutObject(ref, otype, body) => r := InitObject(ref, otype, body, reply);
    }

    // One reverter.
    method Undo(r: Reverter, reply: Reply) returns (ok: bool)
      requires Ready()
      requires FaithfulAnswers(daemon.schema, reply.answers)
      modifies this, daemon
      ensures Ready()
      ensures RevertsBy(daemon.schema, old(View()), r, reply, View(), ok)
      ensures ok ==> reply.effect.Done?
      ensures reply.effect.Failed? ==> View() == old(View())
      ensures r.RestoreConfig? ==> objects == old(objects)
      ensures r.RestoreConfig? && !reply.effect.Failed? ==>
                PutsUnheard(daemon.schema, old(View()).server, r.config, reply.answers, View().server)
      ensures !r.RestoreConfig? ==> daemon.View() == old(daemon.View())
      ensures !r.RestoreConfig? && r.ref !in old(objects) ==> !ok && objects == old(objects)
      ensures r.Remove? && r.ref in old(objects) && !reply.effect.Failed? ==> objects == old(objects) - {r.ref}
      ensures r.Restore? && r.ref in old(objects) && !reply.effect.Failed? ==>
                objects == old(objects)[r.ref := Object(old(objects)[r.ref].otype, r.body)]
      ensures !r.RestoreConfig? && r.ref in old(objects) && reply.effect.Done? ==> ok
    {
      if r.RestoreConfig? {
        if reply.effect.Failed? {
          return false;
        }
        ok := UpdateServer(r.config, reply.answers);
        return ok && reply.effect.Done?;
      }
      if r.ref !in objects || reply.effect.Failed? {
        return false;
      }
      if r.Remove? {
        objects := objects - {r.ref};
      } else {
        objects := objects[r.ref := objects[r.ref].(body := r.body)];
      }
      return reply.effect.Done?;
    }
  }

  // --------------------------------------------------------- apply and revert

  // The first reverters have all succeeded, one after the other.
  ghost predicate RevertedBy(schema: Schema, t: State, revs: seq<Reverter>, replies: seq<Reply>, us: seq<State>) {
    && 0 < |us| <= |revs| + 1 && |replies| >= |revs| && us[0] == t
    && (forall i :: 0 <= i < |us| - 1 ==> RevertsBy(schema, us[i], revs[i], replies[i], us[i + 1], true))
  }

  // CmdInit.revert: it stops at the first reverter that fails.
  method Revert(client: Client, reverters: seq<Reverter>, replies: seq<Reply>)
    returns (undone: bool, ghost us: seq<State>)
    requires client.Ready()
    requires |replies| >= |reverters|
    requires forall i :: 0 <= i < |replies| ==> FaithfulAnswers(client.daemon.schema, replies[i].answers)
    modifies client, client.daemon
    ensures client.Ready()
    ensures RevertedBy(client.daemon.schema, old(client.View()), reverters, replies, us)
    ensures undone <==> |us| == |reverters| + 1
    ensures undone ==> client.View() == us[|reverters|]
    ensures !undone ==> RevertsBy(client.daemon.schema, us[|us| - 1], reverters[|us| - 1], replies[|us| - 1],
              client.View(), false)
  {
    us := [client.View()];
    for n := 0 to |reverters|
      invariant client.Ready()
      invariant RevertedBy(client.daemon.schema, old(client.View()), reverters, replies, us)
      invariant |us| == n + 1 && us[n] == client.View()
    {
      var ok := client.Undo(reverters[n], replies[n]);
      if !ok {
        return false, us;
      }
      us := us + [client.View()];
    }
    return true, us;
  }

  // The first changes have all been made, one after the other.
  ghost predicate AppliedBy(schema: Schema, changes: seq<Change>, replies: seq<Reply>, ss: seq<State>,
                            revs: seq<Reverter>) {
    && |ss| == |revs| + 1 && |revs| <= |changes| == |replies|
    && (forall i :: 0 <= i < |revs| ==> ChangesBy(schema, ss[i], changes[i], replies[i], ss[i + 1], Some(revs[i])))
  }

  lemma RunFailed(schema: Schema, changes: seq<Change>, replies: seq<Reply>, undoReplies: seq<Reply>, run: Run)
    requires AppliedBy(schema, changes, replies, run.ss, run.revs)
    requires |run.revs| < |changes|
    requires ChangesBy(schema, run.ss[|run.revs|], changes[|run.revs|], replies[|run.revs|], run.t, None)
    requires RevertedBy(schema, run.t, run.revs, undoReplies, run.us)
    requires |run.us| == |run.revs| + 1
    ensures FailedRun(schema, changes, run)
  {
    var k := |run.revs|;
    forall i | 0 <= i < k ensures Changes(schema, run.ss[i], changes[i], run.ss[i + 1], Some(run.revs[i])) {
      ChangeIsChange(schema, run.ss[i], changes[i], replies[i], run.ss[i + 1], Some(run.revs[i]));
    }
    ChangeIsChange(schema, run.ss[k], changes[k], replies[k], run.t, None);
    forall i | 0 <= i < k ensures Reverts(schema, run.us[i], run.revs[i], run.us[i + 1]) {}
  }

  // CmdInit.apply, with the changers as built from the configuration, the pools,
  // the networks and the profiles. `undone` says that every reverter succeeded.
  method Apply(client: Client, changes: seq<Change>, replies: seq<Reply>, undoReplies: seq<Reply>)
    returns (ok: bool, undone: bool, ghost run: Run)
    requires client.Ready()
    requires DistinctTargets(changes)
    requires |replies| == |changes| == |undoReplies|
    requires forall i :: 0 <= i < |replies| ==> FaithfulAnswers(client.daemon.schema, replies[i].answers)
    requires forall i :: 0 <= i < |undoReplies| ==> FaithfulAnswers(client.daemon.schema, undoReplies[i].answers)
    modifies client, client.daemon
    ensures AppliedBy(client.daemon.schema, changes, replies, run.ss, run.revs) && run.ss[0] == old(client.View())
    ensures ok <==> |run.revs| == |changes|
    ensures ok ==> client.View() == run.ss[|changes|]
    ensures !ok ==> ChangesBy(client.daemon.schema, run.ss[|run.revs|], changes[|run.revs|], replies[|run.revs|], run.t,
              None)
    ensures !ok ==> RevertedBy(client.daemon.schema, run.t, run.revs, undoReplies, run.us)
    ensures !ok ==> (undone <==> |run.us| == |run.revs| + 1)
    ensures !ok && undone ==> client.View() == run.us[|run.revs|]
    ensures !ok && undone ==>
              (SameView(client.daemon.schema, client.View(), old(client.View())) <==>
                 SameView(client.daemon.schema, run.t, run.ss[|run.revs|]) &&
                     !SecretDropped(client.daemon.schema, changes, run))
  {
    var reverters: seq<Reverter> := [];
    ghost var ss, begin := [client.View()], client.View();
    for n := 0 to |changes|
      invariant client.Ready()
      invariant |reverters| == n && AppliedBy(client.daemon.schema, changes, replies, ss, reverters)
      invariant ss[0] == begin && ss[n] == client.View()
    {
      var reverter := client.Change(changes[n], replies[n]);
      if reverter.None? {
        ghost var t, us := client.View(), [];
        undone, us := Revert(client, reverters, undoReplies);
        run := Run(ss, reverters, t, us);
        if undone {
          RunFailed(client.daemon.schema, changes, replies, undoReplies, run);
          RestoredExactly(client.daemon.schema, changes, run);
        }
        return false, undone, run;
      }
      reverters := reverters + [reverter.value];
      ss := ss + [client.View()];
    }
    return true, false, Run(ss, reverters, client.View(), []);
  }
}
