// The server configuration: a cache over the config table, and the PUT and PATCH
// requests on it (apollo/api_1.0.go, apollo/daemon_config.go, apollo/db_config.go).
module ServerConfig {
  import opened Wrappers

  // The setter of the hidden key, and of no other, replaces the value it is given.
  datatype Key = Key(defaultValue: string, hidden: bool)

  type Schema = map<string, Key>

  // What a request may hold for a key: null, a string, `true`, or anything else.
  datatype Json = Null | Text(text: string) | True | Other

  // How the validator, the setter and the database take a new value.
  datatype Answer = Refused | Stored(value: string) | WriteLost(value: string)

  type World = string -> Answer

  datatype Server = Server(cache: map<string, string>, table: map<string, string>)

  datatype Outcome = Outcome(server: Server, ok: bool)

  function At(m: map<string, string>, k: string): string { if k in m then m[k] else "" }

  function Field(config: map<string, Json>, k: string): Json { if k in config then config[k] else Null }

  function Wanted(j: Json): string { if j.Text? then j.text else "" }

  ghost predicate Valid(schema: Schema, s: Server) {
    && (forall k :: k in s.cache <==> k in schema)
    && (forall k :: k in s.table ==> k in schema && s.table[k] != "")
  }

  // The cache says what the table says.
  ghost predicate Consistent(s: Server) {
    forall k :: k in s.cache ==> s.cache[k] == At(s.table, k)
  }

  // What is asked of a server, after the hidden keys that are `true` got their old value.
  function Effective(schema: Schema, before: map<string, string>, req: map<string, Json>): map<string, Json> {
    map k | k in req :: if k in schema && schema[k].hidden && req[k] == True then Text(At(before, k)) else req[k]
  }

  predicate IsChanged(before: map<string, string>, config: map<string, Json>, k: string) {
    || (k in before && Field(config, k) != Text(before[k]))
    || (k in config && config[k] != Text(At(before, k)))
  }

  // The table that a request asks for: empty values are dropped.
  function Requested(config: map<string, Json>): map<string, string> {
    map k | k in config && Wanted(config[k]) != "" :: Wanted(config[k])
  }

  // dbConfigValueSet
  function Write(table: map<string, string>, k: string, v: string): map<string, string> {
    if v == "" then table - {k} else table[k := v]
  }

  predicate Kept(key: Key, wanted: string, value: string) {
    if wanted == "" || !key.hidden then value == wanted else value != ""
  }

  // A setter leaves an empty value and, unless the key is hidden, any value alone.
  ghost predicate Faithful(schema: Schema, config: map<string, Json>, world: World) {
    forall k :: k in schema && !world(k).Refused? ==> Kept(schema[k], Wanted(Field(config, k)), world(k).value)
  }

  // ------------------------------------------------------- one key, all keys

  predicate WellTyped(j: Json) { j.Null? || j.Text? }

  // The value gets through: nothing to do, or written.
  predicate Accepted(schema: Schema, s: Server, config: map<string, Json>, world: World, k: string) {
    WellTyped(Field(config, k)) && k in schema && k in s.cache
    && (s.cache[k] == Wanted(Field(config, k)) || world(k).Stored?)
  }

  // Leaving a key out, or null, asks for the empty value; anything else than a
  // string is refused.
  lemma AcceptedExactly(schema: Schema, s: Server, config: map<string, Json>, world: World, k: string)
    requires Valid(schema, s)
    ensures Accepted(schema, s, config, world, k) <==>
              && k in schema
              && (k in config ==> config[k] == Null || config[k].Text?)
              && (s.cache[k] == (if k in config && config[k].Text? then config[k].text else "") || world(k).Stored?)
  {
  }

  // A key changes unless the request has the very string that the table has; one
  // that the table does not have changes unless it is left out or the empty string.
  lemma ChangedExactly(before: map<string, string>, config: map<string, Json>, k: string)
    ensures k in before ==> (IsChanged(before, config, k) <==> !(k in config && config[k] == Text(before[k])))
    ensures k !in before ==> (IsChanged(before, config, k) <==> k in config && config[k] != Text(""))
  {
  }

  // daemonConfigKey.Set
  function SetValue(s: Server, k: string, value: string, a: Answer): Outcome
    requires k in s.cache
  {
    if s.cache[k] == value then Outcome(s, true)
    else
      match a
      case Refused => Outcome(s, false)
      case Stored(v) => Outcome(Server(s.cache[k := v], Write(s.table, k, v)), true)
      case WriteLost(v) => Outcome(s.(cache := s.cache[k := v]), false)
  }

  // One turn of the loop over the changed keys.
  function SetKey(schema: Schema, s: Server, config: map<string, Json>, world: World, k: string): Outcome {
    if !WellTyped(Field(config, k)) || k !in schema || k !in s.cache then Outcome(s, false)
    else SetValue(s, k, Wanted(Field(config, k)), world(k))
  }

  // The loop, with the keys in the order it meets them; it stops at an error.
  function SetAll(schema: Schema, s: Server, config: map<string, Json>, world: World, keys: seq<string>): Outcome {
    if keys == [] then Outcome(s, true)
    else
      var o := SetAll(schema, s, config, world, keys[..|keys| - 1]);
      if o.ok then SetKey(schema, o.server, config, world, keys[|keys| - 1]) else o
  }

  // The keys whose value differs from the table's, in some order.
  ghost predicate ChangedIn(before: map<string, string>, config: map<string, Json>, order: seq<string>) {
    && (forall i, j :: 0 <= i < j < |order| ==> order[i] != order[j])
    && (forall k :: k in order <==> IsChanged(before, config, k))
  }

  lemma {:induction false} FailureSticks(schema: Schema, s: Server, config: map<string, Json>, world: World,
                                         keys: seq<string>, more: seq<string>)
    requires !SetAll(schema, s, config, world, keys).ok
    ensures SetAll(schema, s, config, world, keys + more) == SetAll(schema, s, config, world, keys)
  {
    if more == [] {
      assert keys + more == keys;
    } else {
      var all := keys + more;
      assert all[..|all| - 1] == keys + more[..|more| - 1];
      FailureSticks(schema, s, config, world, keys, more[..|more| - 1]);
    }
  }

  predicate SameAt(s: Server, s': Server, k: string) {
    && (k in s.cache <==> k in s'.cache)
    && (k in s.cache && k in s'.cache ==> s'.cache[k] == s.cache[k])
    && (k in s.table <==> k in s'.table)
    && At(s'.table, k) == At(s.table, k)
  }

  // Key k has been dealt with.
  predicate SetAt(s: Server, s': Server, config: map<string, Json>, world: World, k: string) {
    if k in s.cache && s.cache[k] == Wanted(Field(config, k)) then SameAt(s, s', k)
    else
      && k in s.cache && k in s'.cache
      && world(k).Stored? && s'.cache[k] == world(k).value && At(s'.table, k) == world(k).value
      && (k in s'.table ==> s'.table[k] != "")
  }

  // The cache has the new value of k, but the table has not.
  predicate Loses(s: Server, config: map<string, Json>, world: World, k: string) {
    WellTyped(Field(config, k)) && k in s.cache && s.cache[k] != Wanted(Field(config, k)) && world(k).WriteLost?
  }

  // Key k is the one at which the loop stopped.
  predicate StoppedAt(s: Server, s': Server, config: map<string, Json>, world: World, k: string) {
    if !Loses(s, config, world, k) then SameAt(s, s', k)
    else
      && k in s'.cache && s'.cache[k] == world(k).value
      && (k in s.table <==> k in s'.table) && At(s'.table, k) == At(s.table, k)
  }

  lemma SetKeyThere(schema: Schema, s: Server, config: map<string, Json>, world: World, k: string)
    requires Valid(schema, s)
    ensures var o := SetKey(schema, s, config, world, k);
            && Valid(schema, o.server)
            && (o.ok <==> Accepted(schema, s, config, world, k))
            && (o.ok ==> SetAt(s, o.server, config, world, k))
            && (!o.ok ==> StoppedAt(s, o.server, config, world, k))
  {
  }

  // Where the loop stops: before n keys if it failed, else after all of them.
  ghost predicate Stops(schema: Schema, s: Server, config: map<string, Json>, world: World, keys: seq<string>,
                        o: Outcome, n: nat) {
    && n <= |keys| && (o.ok <==> n == |keys|)
    && (forall i :: 0 <= i < n ==>
        Accepted(schema, s, config, world, keys[i]) && SetAt(s, o.server, config, world, keys[i]))
    && (n < |keys| ==> !Accepted(schema, s, config, world, keys[n]) && StoppedAt(s, o.server, config, world, keys[n]))
    && (forall i :: n < i < |keys| ==> SameAt(s, o.server, keys[i]))
    && (forall k :: k !in keys ==> SameAt(s, o.server, k))
  }

  lemma SetKeysStaySet(schema: Schema, s: Server, config: map<string, Json>, world: World, front: seq<string>,
                       k: string, o: Outcome)
    requires Stops(schema, s, config, world, front, o, |front|)
    requires k !in front
    ensures var o' := SetKey(schema, o.server, config, world, k);
            && (forall i :: 0 <= i < |front| ==> SetAt(s, o'.server, config, world, front[i]))
            && (forall q :: q !in front && q != k ==> SameAt(s, o'.server, q))
  {
  }

  lemma StopsOneMore(schema: Schema, s: Server, config: map<string, Json>, world: World, front: seq<string>, k: string,
                     o: Outcome)
    requires Valid(schema, o.server)
    requires Stops(schema, s, config, world, front, o, |front|)
    requires k !in front
    ensures var o' := SetKey(schema, o.server, config, world, k);
            Valid(schema, o'.server) &&
                Stops(schema, s, config, world, front + [k], o', if o'.ok then |front| + 1 else |front|)
  {
    var o' := SetKey(schema, o.server, config, world, k);
    var keys := front + [k];
    assert SameAt(s, o.server, k);
    SetKeyThere(schema, o.server, config, world, k);
    SetKeysStaySet(schema, s, config, world, front, k, o);
    forall i | 0 <= i < |keys| ensures keys[i] == if i < |front| then front[i] else k {}
    assert forall q :: q !in keys ==> q !in front && q != k;
  }

  // The keys before the first that is not accepted are set, that one stops the
  // loop, and all others stay as they were.
  lemma {:induction false} SetAllStops(schema: Schema, s: Server, config: map<string, Json>, world: World,
                                       keys: seq<string>)
    returns (n: nat)
    requires Valid(schema, s)
    requires forall i, j :: 0 <= i < j < |keys| ==> keys[i] != keys[j]
    ensures Valid(schema, SetAll(schema, s, config, world, keys).server)
    ensures Stops(schema, s, config, world, keys, SetAll(schema, s, config, world, keys), n)
  {
    if keys == [] {
      return 0;
    }
    var front, k := keys[..|keys| - 1], keys[|keys| - 1];
    assert keys == front + [k] && k !in front;
    n := SetAllStops(schema, s, config, world, front);
    var o := SetAll(schema, s, config, world, front);
    if o.ok {
      StopsOneMore(schema, s, config, world, front, k, o);
      n := if SetKey(schema, o.server, config, world, k).ok then |front| + 1 else |front|;
    }
  }

  // ------------------------------------------------------------ PUT and PATCH

  lemma IndexOf(keys: seq<string>, k: string) returns (i: nat)
    requires k in keys
    ensures i < |keys| && keys[i] == k
  {
    i :| 0 <= i < |keys| && keys[i] == k;
  }

  // An update succeeds exactly when every changed key is accepted.
  lemma SucceedsExactly(schema: Schema, s: Server, config: map<string, Json>, world: World, order: seq<string>)
    requires Valid(schema, s)
    requires ChangedIn(s.table, config, order)
    ensures SetAll(schema, s, config, world, order).ok <==>
              forall k :: IsChanged(s.table, config, k) ==> Accepted(schema, s, config, world, k)
  {
    var n := SetAllStops(schema, s, config, world, order);
    if SetAll(schema, s, config, world, order).ok {
      forall k | IsChanged(s.table, config, k) ensures Accepted(schema, s, config, world, k) {
        var i := IndexOf(order, k);
      }
    } else {
      assert order[n] in order;
    }
  }

  // The cache already has the requested value and the table has another.
  predicate Stale(s: Server, config: map<string, Json>, k: string) {
    k in s.cache && s.cache[k] == Wanted(Field(config, k)) && At(s.table, k) != s.cache[k]
  }

  predicate IsSecret(schema: Schema, config: map<string, Json>, k: string) {
    k in schema && schema[k].hidden && Wanted(Field(config, k)) != ""
  }

  lemma UnchangedIsWanted(before: map<string, string>, config: map<string, Json>, k: string)
    requires !IsChanged(before, config, k)
    ensures At(before, k) == Wanted(Field(config, k))
  {
  }

  // After success the table has the requested value of a key exactly when the key
  // was not stale; a hidden key is left to its setter.
  lemma PutExactlyAt(schema: Schema, s: Server, config: map<string, Json>, world: World, order: seq<string>, k: string)
    requires Valid(schema, s)
    requires Faithful(schema, config, world)
    requires ChangedIn(s.table, config, order)
    requires SetAll(schema, s, config, world, order).ok
    requires !IsChanged(s.table, config, k) || !IsSecret(schema, config, k)
    ensures At(SetAll(schema, s, config, world, order).server.table, k) == Wanted(Field(config, k)) <==>
              !Stale(s, config, k)
  {
    var n := SetAllStops(schema, s, config, world, order);
    if IsChanged(s.table, config, k) {
      var i := IndexOf(order, k);
      assert Accepted(schema, s, config, world, k);
    } else {
      UnchangedIsWanted(s.table, config, k);
    }
  }

  lemma SameTables(a: map<string, string>, b: map<string, string>)
    requires forall k :: k in a ==> a[k] != ""
    requires forall k :: k in b ==> b[k] != ""
    requires forall k :: At(a, k) == At(b, k)
    ensures a == b
  {
    forall k | k in a || k in b ensures k in a && k in b && a[k] == b[k] {
      assert At(a, k) == At(b, k);
    }
  }

  // A successful PUT makes the table the requested map exactly when no key was stale.
  lemma PutExactly(schema: Schema, s: Server, config: map<string, Json>, world: World, order: seq<string>)
    requires Valid(schema, s)
    requires Faithful(schema, config, world)
    requires ChangedIn(s.table, config, order)
    requires SetAll(schema, s, config, world, order).ok
    requires forall k :: IsChanged(s.table, config, k) ==> !IsSecret(schema, config, k)
    ensures SetAll(schema, s, config, world, order).server.table == Requested(config) <==>
              forall k :: !Stale(s, config, k)
  {
    var t := SetAll(schema, s, config, world, order).server.table;
    var n := SetAllStops(schema, s, config, world, order);
    forall k ensures At(t, k) == At(Requested(config), k) <==> !Stale(s, config, k) {
      PutExactlyAt(schema, s, config, world, order, k);
    }
    if forall k :: !Stale(s, config, k) {
      SameTables(t, Requested(config));
    }
  }

  // After a failed request every key has its old value or the new one, in the
  // cache and in the table; the table never gets ahead of the cache.
  lemma FailureLeavesOldOrNew(schema: Schema, s: Server, config: map<string, Json>, world: World, order: seq<string>,
                              k: string)
    requires Valid(schema, s)
    requires Faithful(schema, config, world)
    requires ChangedIn(s.table, config, order)
    requires k in schema && !IsSecret(schema, config, k)
    ensures var s' := SetAll(schema, s, config, world, order).server;
            && k in s'.cache
            && (s'.cache[k] == s.cache[k] || s'.cache[k] == Wanted(Field(config, k)))
            && (At(s'.table, k) == At(s.table, k) ||
                (At(s'.table, k) == Wanted(Field(config, k)) && s'.cache[k] == At(s'.table, k)))
  {
    var n := SetAllStops(schema, s, config, world, order);
    if k in order {
      var i := IndexOf(order, k);
    }
  }

  // The cache agrees with the table afterwards exactly when the request did not
  // stop at a lost write.
  lemma ConsistentExactly(schema: Schema, s: Server, config: map<string, Json>, world: World, order: seq<string>)
    returns (n: nat)
    requires Valid(schema, s)
    requires Consistent(s)
    requires forall i, j :: 0 <= i < j < |order| ==> order[i] != order[j]
    ensures Stops(schema, s, config, world, order, SetAll(schema, s, config, world, order), n)
    ensures Consistent(SetAll(schema, s, config, world, order).server) <==>
              !(n < |order| && Loses(s, config, world, order[n]) && world(order[n]).value != s.cache[order[n]])
  {
    n := SetAllStops(schema, s, config, world, order);
    var o := SetAll(schema, s, config, world, order);
    forall k | k in o.server.cache && (n == |order| || k != order[n])
      ensures o.server.cache[k] == At(o.server.table, k)
    {
      if k in order {
        var i := IndexOf(order, k);
      }
    }
  }

  // A lost write makes its key stale for the same request: sent again, it will be
  // taken for done.
  lemma LostWriteIsStale(schema: Schema, s: Server, config: map<string, Json>, world: World, k: string)
    requires Valid(schema, s)
    requires Consistent(s)
    requires Faithful(schema, config, world)
    requires k in schema && !IsSecret(schema, config, k)
    requires Loses(s, config, world, k)
    ensures Stale(SetKey(schema, s, config, world, k).server, config, k)
    ensures forall world' :: SetKey(schema, SetKey(schema, s, config, world, k).server, config, world', k).ok
  {
  }

  // api10Patch
  function Merged(before: map<string, string>, req: map<string, Json>): map<string, Json> {
    map k | k in before.Keys + req.Keys :: if k in req then req[k] else Text(before[k])
  }

  // A PATCH asks for the old map overridden by the request, and so touches no
  // key that is not in the request.
  lemma PatchOverrides(schema: Schema, before: map<string, string>, req: map<string, Json>, k: string)
    ensures var config := Effective(schema, before, Merged(before, req));
            && Wanted(Field(config, k)) ==
                (if k in req then Wanted(Field(Effective(schema, before, req), k)) else At(before, k))
            && (k !in req ==> !IsChanged(before, config, k))
  {
  }

  // -------------------------------------------------------------- restarting

  function Loaded(schema: Schema, table: map<string, string>): Server {
    Server(map k | k in schema :: At(table, k), table)
  }

  lemma ReloadReproduces(schema: Schema, s: Server)
    requires Valid(schema, s)
    ensures Consistent(s) <==> Loaded(schema, s.table) == s
  {
  }

  predicate WriteIsLost(world: World, k: string) { world(k).WriteLost? }

  // One PUT or PATCH without a lost write, in any order of its keys.
  ghost predicate Serves(schema: Schema, s: Server, s': Server) {
    exists req, world, order ::
      && (forall k :: !WriteIsLost(world, k))
      && ChangedIn(s.table, Effective(schema, s.table, req), order)
      && s' == SetAll(schema, s, Effective(schema, s.table, req), world, order).server
  }

  ghost predicate Run(schema: Schema, ss: seq<Server>) {
    && ss != []
    && (exists table :: (forall k :: k in table ==> k in schema && table[k] != "") && ss[0] == Loaded(schema, table))
    && (forall i :: 0 <= i < |ss| - 1 ==> Serves(schema, ss[i], ss[i + 1]))
  }

  lemma ServedStaysConsistent(schema: Schema, s: Server, s': Server)
    requires Valid(schema, s)
    requires Consistent(s)
    requires Serves(schema, s, s')
    ensures Valid(schema, s')
    ensures Consistent(s')
  {
    var req, world, order :|
      && (forall k :: !WriteIsLost(world, k))
      && ChangedIn(s.table, Effective(schema, s.table, req), order)
      && s' == SetAll(schema, s, Effective(schema, s.table, req), world, order).server;
    var config := Effective(schema, s.table, req);
    var n := ConsistentExactly(schema, s, config, world, order);
    if n < |order| { assert !WriteIsLost(world, order[n]); }
    var m := SetAllStops(schema, s, config, world, order);
  }

  // Whatever requests are served or fail after a start, without a lost write, a
  // restart comes back to the same configuration.
  lemma {:induction false} RestartReproduces(schema: Schema, ss: seq<Server>)
    requires Run(schema, ss)
    ensures var s := ss[|ss| - 1]; Valid(schema, s) && Consistent(s) && Loaded(schema, s.table) == s
    decreases |ss|
  {
    var s := ss[|ss| - 1];
    if |ss| > 1 {
      var front := ss[..|ss| - 1];
      forall i | 0 <= i < |front| - 1 ensures Serves(schema, front[i], front[i + 1]) {
        assert Serves(schema, ss[i], ss[i + 1]);
      }
      RestartReproduces(schema, front);
      assert Serves(schema, ss[|ss| - 2], ss[|ss| - 2 + 1]);
      ServedStaysConsistent(schema, front[|front| - 1], s);
    }
    ReloadReproduces(schema, s);
  }

  // ------------------------------------------------- what a client sees, and reverts

  // What daemonConfigRender shows of a cached value.
  function Shown(key: Key, v: string): Option<Json> {
    if v == "" || v == key.defaultValue then None
    else if key.hidden then Some(True)
    else Some(Text(v))
  }

  function ShownAt(schema: Schema, s: Server, k: string): Option<Json> {
    if k in schema && k in s.cache then Shown(schema[k], s.cache[k]) else None
  }

  function Rendered(schema: Schema, s: Server): map<string, Json> {
    map k | k in s.cache && ShownAt(schema, s, k).Some? :: ShownAt(schema, s, k).value
  }

  // What is shown: every value that is neither empty nor the default, but of a hidden
  // key only that it is set.
  lemma RenderedExactly(schema: Schema, s: Server, k: string)
    requires Valid(schema, s)
    ensures k in Rendered(schema, s) <==> k in schema && s.cache[k] != "" && s.cache[k] != schema[k].defaultValue
    ensures k in Rendered(schema, s) ==> Rendered(schema, s)[k] == if schema[k].hidden then True else Text(s.cache[k])
  {
  }

  lemma RenderedAlike(schema: Schema, s: Server, s': Server)
    requires Valid(schema, s) && Valid(schema, s')
    ensures Rendered(schema, s) == Rendered(schema, s') <==> forall k :: k in schema ==>
              ShownAt(schema, s, k) == ShownAt(schema, s', k)
  {
    var r, r' := Rendered(schema, s), Rendered(schema, s');
    if r == r' {
      forall k | k in schema ensures ShownAt(schema, s, k) == ShownAt(schema, s', k) {
        assert k in r <==> k in r';
      }
    }
    if forall k :: k in schema ==> ShownAt(schema, s, k) == ShownAt(schema, s', k) {
      forall k | k in r || k in r' ensures k in r && k in r' && r[k] == r'[k] {}
    }
  }

  // The value that a PUT of what was shown asks for, but for hidden keys.
  function TextAt(schema: Schema, s: Server, k: string): string {
    match ShownAt(schema, s, k)
    case Some(Text(v)) => v
    case _ => ""
  }

  predicate IsSecretShown(schema: Schema, s: Server, k: string) {
    k in schema && schema[k].hidden && ShownAt(schema, s, k).Some?
  }

  // A PUT of what s0 showed finds nothing to change at k: the table has it already,
  // or the request only says that it was set.
  predicate LeftAlone(schema: Schema, s0: Server, s1: Server, k: string) {
    IsSecretShown(schema, s0, k) || At(s1.table, k) == TextAt(schema, s0, k)
  }

  lemma RevertAsks(schema: Schema, s0: Server, s1: Server, k: string)
    requires Valid(schema, s0) && Valid(schema, s1)
    requires k in schema
    ensures var config := Effective(schema, s1.table, Rendered(schema, s0));
            && (IsChanged(s1.table, config, k) <==> !LeftAlone(schema, s0, s1, k))
            && (!IsSecretShown(schema, s0, k) ==> Wanted(Field(config, k)) == TextAt(schema, s0, k))
  {
    assert k in Rendered(schema, s0) <==> ShownAt(schema, s0, k).Some?;
  }

  // Reverting one key by a PUT of what was shown before.
  lemma RevertedKey(schema: Schema, s0: Server, s1: Server, world: World, order: seq<string>, k: string)
    requires Valid(schema, s0) && Valid(schema, s1)
    requires Faithful(schema, Effective(schema, s1.table, Rendered(schema, s0)), world)
    requires ChangedIn(s1.table, Effective(schema, s1.table, Rendered(schema, s0)), order)
    requires SetAll(schema, s1, Effective(schema, s1.table, Rendered(schema, s0)), world, order).ok
    requires k in schema
    ensures var s2 := SetAll(schema, s1, Effective(schema, s1.table, Rendered(schema, s0)), world, order).server;
            ShownAt(schema, s2, k) == ShownAt(schema, if LeftAlone(schema, s0, s1, k) then s1 else s0, k)
  {
    var config := Effective(schema, s1.table, Rendered(schema, s0));
    RevertAsks(schema, s0, s1, k);
    var n := SetAllStops(schema, s1, config, world, order);
    if IsChanged(s1.table, config, k) {
      var i := IndexOf(order, k);
    }
  }

  // The cache of k is not what the table has, after a write that was lost.
  predicate AheadAt(schema: Schema, s0: Server, s1: Server, k: string) {
    && !IsSecretShown(schema, s0, k)
    && At(s1.table, k) == TextAt(schema, s0, k) && ShownAt(schema, s1, k) != ShownAt(schema, s0, k)
  }

  ghost predicate LostSecret(schema: Schema, s0: Server, s1: Server) {
    exists k :: k in schema && IsSecretShown(schema, s0, k) && ShownAt(schema, s1, k).None?
  }

  ghost predicate ShowsAhead(schema: Schema, s0: Server, s1: Server) {
    exists k :: k in schema && AheadAt(schema, s0, s1, k)
  }

  // A PUT of what was shown before, when it succeeds, shows it again exactly when
  // no hidden key that was set has been unset since, and no key shows something
  // else than the table has, where the table has what was shown.
  lemma RevertShowsExactly(schema: Schema, s0: Server, s1: Server, world: World, order: seq<string>)
    requires Valid(schema, s0) && Valid(schema, s1)
    requires Faithful(schema, Effective(schema, s1.table, Rendered(schema, s0)), world)
    requires ChangedIn(s1.table, Effective(schema, s1.table, Rendered(schema, s0)), order)
    requires SetAll(schema, s1, Effective(schema, s1.table, Rendered(schema, s0)), world, order).ok
    ensures var s2 := SetAll(schema, s1, Effective(schema, s1.table, Rendered(schema, s0)), world, order).server;
            Rendered(schema, s2) == Rendered(schema, s0) <==>
              !LostSecret(schema, s0, s1) && !ShowsAhead(schema, s0, s1)
  {
    var s2 := SetAll(schema, s1, Effective(schema, s1.table, Rendered(schema, s0)), world, order).server;
    var n := SetAllStops(schema, s1, Effective(schema, s1.table, Rendered(schema, s0)), world, order);
    forall k | k in schema
      ensures ShownAt(schema, s2, k) == ShownAt(schema, s0, k) <==>
              !(IsSecretShown(schema, s0, k) && ShownAt(schema, s1, k).None?) && !AheadAt(schema, s0, s1, k)
    {
      RevertedKey(schema, s0, s1, world, order, k);
    }
    RenderedAlike(schema, s2, s0);
  }

  // There is none right after a PUT that succeeded on s0, lost writes before or not.
  lemma SuccessIsNotAhead(schema: Schema, s0: Server, config: map<string, Json>, world: World, order: seq<string>)
    requires Valid(schema, s0)
    requires ChangedIn(s0.table, config, order)
    requires SetAll(schema, s0, config, world, order).ok
    ensures !ShowsAhead(schema, s0, SetAll(schema, s0, config, world, order).server)
  {
    var s1 := SetAll(schema, s0, config, world, order).server;
    var n := SetAllStops(schema, s0, config, world, order);
    forall k | k in schema ensures !AheadAt(schema, s0, s1, k) {
      if k in order {
        var i := IndexOf(order, k);
        assert SetAt(s0, s1, config, world, order[i]);
      } else {
        assert SameAt(s0, s1, k);
      }
    }
  }

  // ---------------------------------------------------- a failing PUT, as seen

  // Taking key k on changes what is shown.
  predicate Shows(schema: Schema, s: Server, config: map<string, Json>, world: World, k: string) {
    && k in schema && k in s.cache && s.cache[k] != Wanted(Field(config, k)) && !world(k).Refused?
    && Shown(schema[k], world(k).value) != ShownAt(schema, s, k)
  }

  ghost predicate FailsHalfway(schema: Schema, s: Server, config: map<string, Json>, world: World, order: seq<string>) {
    var o := SetAll(schema, s, config, world, order);
    !o.ok && Rendered(schema, o.server) != Rendered(schema, s)
  }

  // There is an order of the changed keys in which the request fails and yet
  // changes what is shown.
  ghost predicate MayFailHalfway(schema: Schema, s: Server, config: map<string, Json>, world: World) {
    exists order :: ChangedIn(s.table, config, order) && FailsHalfway(schema, s, config, world, order)
  }

  ghost predicate SomethingShows(schema: Schema, s: Server, config: map<string, Json>, world: World) {
    exists g :: IsChanged(s.table, config, g) && Accepted(schema, s, config, world, g) &&
        Shows(schema, s, config, world, g)
  }

  // A changed key is not accepted, and it or an accepted one shows.
  ghost predicate IsHalfBad(schema: Schema, s: Server, config: map<string, Json>, world: World) {
    exists f :: IsChanged(s.table, config, f) && !Accepted(schema, s, config, world, f)
                && ((Loses(s, config, world, f) && Shows(schema, s, config, world, f)) ||
                    SomethingShows(schema, s, config, world))
  }

  lemma OrderOthers(before: map<string, string>, config: map<string, Json>, first: seq<string>)
    returns (rest: seq<string>)
    requires forall i, j :: 0 <= i < j < |first| ==> first[i] != first[j]
    requires forall k :: k in first ==> IsChanged(before, config, k)
    ensures ChangedIn(before, config, first + rest)
  {
    rest := SomeOrder(set k | k in before.Keys + config.Keys && IsChanged(before, config, k) && k !in first);
    var order := first + rest;
    forall i, j | 0 <= i < j < |order| ensures order[i] != order[j] {
      if i < |first| <= j { assert rest[j - |first|] in rest && first[i] in first; }
    }
    assert forall x :: x in order <==> x in first || x in rest;
  }

  // The loop stops at f after the accepted keys `done`, and k shows.
  lemma FailsAt(schema: Schema, s: Server, config: map<string, Json>, world: World, done: seq<string>, f: string,
                k: string, rest: seq<string>)
    requires Valid(schema, s)
    requires ChangedIn(s.table, config, done + [f] + rest)
    requires forall i :: 0 <= i < |done| ==> Accepted(schema, s, config, world, done[i])
    requires !Accepted(schema, s, config, world, f)
    requires Shows(schema, s, config, world, k)
    requires k in done || (k == f && Loses(s, config, world, f))
    ensures MayFailHalfway(schema, s, config, world)
  {
    var order := done + [f] + rest;
    var o := SetAll(schema, s, config, world, order);
    var n := SetAllStops(schema, s, config, world, order);
    assert order[|done|] == f;
    forall i | 0 <= i < |done| ensures order[i] == done[i] {}
    assert n == |done|;
    if k in done {
      var i := IndexOf(done, k);
      assert SetAt(s, o.server, config, world, order[i]);
    } else {
      assert StoppedAt(s, o.server, config, world, order[n]);
    }
    RenderedAlike(schema, s, o.server);
    assert FailsHalfway(schema, s, config, world, order);
  }

  lemma LosesAndFails(schema: Schema, s: Server, config: map<string, Json>, world: World, f: string)
    requires Valid(schema, s)
    requires IsChanged(s.table, config, f) && !Accepted(schema, s, config, world, f)
    requires Loses(s, config, world, f)
    requires Shows(schema, s, config, world, f)
    ensures MayFailHalfway(schema, s, config, world)
  {
    var rest := OrderOthers(s.table, config, [f]);
    assert [] + [f] == [f];
    FailsAt(schema, s, config, world, [], f, f, rest);
  }

  lemma HalfwayIsBad(schema: Schema, s: Server, config: map<string, Json>, world: World, order: seq<string>)
    requires Valid(schema, s)
    requires ChangedIn(s.table, config, order)
    requires FailsHalfway(schema, s, config, world, order)
    ensures IsHalfBad(schema, s, config, world)
  {
    var s' := SetAll(schema, s, config, world, order).server;
    var n := SetAllStops(schema, s, config, world, order);
    RenderedAlike(schema, s, s');
    var k :| k in schema && ShownAt(schema, s, k) != ShownAt(schema, s', k);
    var i := IndexOf(order, k);
    assert order[n] in order;
    if i < n {
      assert SetAt(s, s', config, world, order[i]);
      assert SomethingShows(schema, s, config, world) by {
        assert Accepted(schema, s, config, world, k) && Shows(schema, s, config, world, k);
      }
    } else if i == n {
      assert Loses(s, config, world, order[n]) && Shows(schema, s, config, world, order[n]);
    } else {
      assert false;
    }
  }

  lemma AcceptedThenFails(schema: Schema, s: Server, config: map<string, Json>, world: World, g: string, f: string)
    requires Valid(schema, s)
    requires IsChanged(s.table, config, f) && !Accepted(schema, s, config, world, f)
    requires IsChanged(s.table, config, g) && Accepted(schema, s, config, world, g)
    requires Shows(schema, s, config, world, g)
    ensures MayFailHalfway(schema, s, config, world)
  {
    var rest := OrderOthers(s.table, config, [g, f]);
    assert [g] + [f] == [g, f];
    FailsAt(schema, s, config, world, [g], f, g, rest);
  }

  lemma FailsHalfwayExactly(schema: Schema, s: Server, config: map<string, Json>, world: World)
    requires Valid(schema, s)
    ensures MayFailHalfway(schema, s, config, world) <==> IsHalfBad(schema, s, config, world)
  {
    if MayFailHalfway(schema, s, config, world) {
      var order :| ChangedIn(s.table, config, order) && FailsHalfway(schema, s, config, world, order);
      HalfwayIsBad(schema, s, config, world, order);
    }
    if IsHalfBad(schema, s, config, world) {
      var f :| IsChanged(s.table, config, f) && !Accepted(schema, s, config, world, f)
               && ((Loses(s, config, world, f) && Shows(schema, s, config, world, f)) ||
                   SomethingShows(schema, s, config, world));
      if SomethingShows(schema, s, config, world) {
        var g :| IsChanged(s.table, config, g) && Accepted(schema, s, config, world, g) &&
            Shows(schema, s, config, world, g);
        AcceptedThenFails(schema, s, config, world, g, f);
      } else {
        LosesAndFails(schema, s, config, world, f);
      }
    }
  }

  // A PUT that succeeds changes what is shown exactly when one of its keys does.
  lemma SuccessShowsExactly(schema: Schema, s: Server, config: map<string, Json>, world: World, order: seq<string>)
    requires Valid(schema, s)
    requires ChangedIn(s.table, config, order)
    requires SetAll(schema, s, config, world, order).ok
    ensures Rendered(schema, SetAll(schema, s, config, world, order).server) != Rendered(schema, s) <==>
              SomethingShows(schema, s, config, world)
  {
    var s' := SetAll(schema, s, config, world, order).server;
    var n := SetAllStops(schema, s, config, world, order);
    forall k | k in schema
      ensures ShownAt(schema, s', k) != ShownAt(schema, s, k) <==>
              IsChanged(s.table, config, k) && Shows(schema, s, config, world, k)
      ensures IsChanged(s.table, config, k) ==> Accepted(schema, s, config, world, k)
    {
      if k in order {
        var i := IndexOf(order, k);
        assert SetAt(s, s', config, world, order[i]) && Accepted(schema, s, config, world, order[i]);
      } else {
        assert SameAt(s, s', k);
      }
    }
    RenderedAlike(schema, s', s);
  }
}
