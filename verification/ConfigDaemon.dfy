// The daemon's configuration object: daemonConfigInit, daemonConfigKey.Set,
// daemonConfigRender, doApi10Update, api10Put and api10Patch.
module ConfigDaemon {
  import opened Wrappers
  import opened ServerConfig

  lemma OneMore(schema: Schema, begin: Server, now: Server, config: map<string, Json>, world: World, done: seq<string>,
                k: string,
                keys: set<string>)
    requires Lists(done, keys) && k !in keys
    requires SetAll(schema, begin, config, world, done) == Outcome(now, true)
    ensures Lists(done + [k], keys + {k})
    ensures SetAll(schema, begin, config, world, done + [k]) == SetKey(schema, now, config, world, k)
  {
  }

  class Daemon {
    const schema: Schema
    // currentValue of every key, and the config table.
    var cache: map<string, string>
    var table: map<string, string>

    ghost function View(): Server reads this { Server(cache, table) }

    // The table as a former run left it; nothing is loaded yet.
    constructor (schema: Schema, table: map<string, string>)
      ensures this.schema == schema && this.table == table
    {
      this.schema := schema;
      this.table := table;
      cache := map[];
    }

    // daemonConfigInit. A key of the table that is not in the schema is logged
    // and then dereferenced as a nil pointer; `ok` is false for that.
    method Init() returns (ok: bool)
      requires forall k :: k in table ==> table[k] != ""
      modifies this`cache
      ensures ok <==> forall k :: k in table ==> k in schema
      ensures ok ==> View() == Loaded(schema, table) && Valid(schema, View()) && Consistent(View())
    {
      cache := map k | k in schema :: "";
      var keys := table.Keys;
      while keys != {}
        invariant keys <= table.Keys
        invariant forall k :: k in cache <==> k in schema
        invariant forall k :: k in table && k !in keys ==> k in schema
        invariant forall k :: k in schema ==> cache[k] == if k in keys then "" else At(table, k)
        decreases keys
      {
        var k :| k in keys;
        if k !in cache {
          return false;
        }
        cache := cache[k := table[k]];
        keys := keys - {k};
      }
      assert cache == Loaded(schema, table).cache;
      return true;
    }

    // The answer stands for the validator, the setter and the database.
    method Set(k: string, requested: string, answer: Answer) returns (ok: bool)
      requires k in cache
      modifies this
      ensures Outcome(View(), ok) == SetValue(old(View()), k, requested, answer)
      ensures ok <==> old(cache)[k] == requested || answer.Stored?
      ensures old(cache)[k] == requested || answer.Refused? ==> View() == old(View())
      ensures old(cache)[k] != requested && !answer.Refused? ==> cache == old(cache)[k := answer.value]
      ensures old(cache)[k] != requested && answer.Stored? ==>
                table == old(table) - {k} + if answer.value == "" then map[] else map[k := answer.value]
      ensures answer.WriteLost? ==> table == old(table)
    {
      if cache[k] == requested {
        return true;
      }
      if answer.Refused? {
        return false;
      }
      cache := cache[k := answer.value];
      if answer.WriteLost? {
        return false;
      }
      table := table - {k};
      if answer.value != "" {
        table := table[k := answer.value];
      }
      assert table == Write(old(table), k, answer.value);
      return true;
    }

    method Render() returns (config: map<string, Json>)
      requires Valid(schema, View())
      ensures config == Rendered(schema, View())
      ensures forall k :: k in config <==> k in schema && cache[k] != "" && cache[k] != schema[k].defaultValue
      ensures forall k :: k in config ==> config[k] == if schema[k].hidden then True else Text(cache[k])
    {
      config := map[];
      var keys := cache.Keys;
      while keys != {}
        invariant keys <= cache.Keys
        invariant forall k :: k in config <==> k in cache && k !in keys && ShownAt(schema, View(), k).Some?
        invariant forall k :: k in config ==>
                  ShownAt(schema, View(), k).Some? && config[k] == ShownAt(schema, View(), k).value
        decreases keys
      {
        var k :| k in keys;
        keys := keys - {k};
        var value := if cache[k] == "" then schema[k].defaultValue else cache[k];
        if value != schema[k].defaultValue {
          if schema[k].hidden {
            config := config[k := True];
          } else {
            config := config[k := Text(value)];
          }
        }
      }
      assert config == Rendered(schema, View());
    }

    // "Deal with special keys"
    method ReplaceHidden(oldConfig: map<string, string>, req: map<string, Json>) returns (config: map<string, Json>)
      ensures config == Effective(schema, oldConfig, req)
      ensures config.Keys == req.Keys
      ensures forall k :: k in req && !(req[k] == True && k in schema && schema[k].hidden) ==> config[k] == req[k]
      ensures forall k :: k in req && req[k] == True && k in schema && schema[k].hidden ==>
                config[k] == Text(if k in oldConfig then oldConfig[k] else "")
    {
      config := req;
      var keys := req.Keys;
      while keys != {}
        invariant keys <= req.Keys
        invariant forall k :: k in config <==> k in req
        invariant forall k :: k in req ==>
                  config[k] == if k in keys then req[k] else Effective(schema, oldConfig, req)[k]
        decreases keys
      {
        var k :| k in keys;
        keys := keys - {k};
        if k in schema && schema[k].hidden && req[k] == True {
          config := config[k := Text(At(oldConfig, k))];
        }
      }
      assert config == Effective(schema, oldConfig, req);
    }

    // "Diff the configs": both loops.
    method Diff(oldConfig: map<string, string>, config: map<string, Json>) returns (changed: map<string, Json>)
      ensures forall k :: k in changed <==> IsChanged(oldConfig, config, k)
      ensures forall k :: k in changed ==> changed[k] == Field(config, k)
    {
      changed := map[];
      var keys := oldConfig.Keys;
      while keys != {}
        invariant keys <= oldConfig.Keys
        invariant forall k :: k in changed <==> k in oldConfig && k !in keys && Field(config, k) != Text(oldConfig[k])
        invariant forall k :: k in changed ==> changed[k] == Field(config, k)
        decreases keys
      {
        var k :| k in keys;
        keys := keys - {k};
        if Field(config, k) != Text(oldConfig[k]) {
          changed := changed[k := Field(config, k)];
        }
      }
      keys := config.Keys;
      while keys != {}
        invariant keys <= config.Keys
        invariant forall k :: k in changed <==>
                    (k in oldConfig && Field(config, k) != Text(oldConfig[k])) ||
                        (k in config && k !in keys && config[k] != Text(At(oldConfig, k)))
        invariant forall k :: k in changed ==> changed[k] == Field(config, k)
        decreases keys
      {
        var k :| k in keys;
        keys := keys - {k};
        if config[k] != Text(At(oldConfig, k)) {
          changed := changed[k := config[k]];
        }
      }
    }

    // One turn of the loop over the changed keys.
    method Change(k: string, field: Json, answer: Answer, ghost config: map<string, Json>, ghost world: World)
      returns (ok: bool)
      requires Valid(schema, View())
      requires field == Field(config, k) && answer == world(k)
      modifies this
      ensures Outcome(View(), ok) == SetKey(schema, old(View()), config, world, k)
      ensures Valid(schema, View())
    {
      SetKeyThere(schema, View(), config, world, k);
      var valueRaw := field;
      if valueRaw.Null? {
        valueRaw := Text("");
      }
      if !valueRaw.Text? {
        return false;
      }
      if k !in schema {
        return false;
      }
      ok := Set(k, valueRaw.text, answer);
    }

    // doApi10Update, with the changed keys in any order.
    method Update(oldConfig: map<string, string>, req: map<string, Json>, world: World)
      returns (ok: bool, ghost order: seq<string>)
      requires Valid(schema, View())
      modifies this
      ensures ChangedIn(oldConfig, Effective(schema, oldConfig, req), order)
      ensures Outcome(View(), ok) == SetAll(schema, old(View()), Effective(schema, oldConfig, req), world, order)
      ensures Valid(schema, View())
    {
      var config := ReplaceHidden(oldConfig, req);
      var changed := Diff(oldConfig, config);
      ghost var begin := View();
      order := [];
      var keys := changed.Keys;
      while keys != {}
        invariant keys <= changed.Keys
        invariant Valid(schema, View())
        invariant Outcome(View(), true) == SetAll(schema, begin, config, world, order)
        invariant Lists(order, changed.Keys - keys)
        decreases keys
      {
        var k :| k in keys;
        keys := keys - {k};
        OneMore(schema, begin, View(), config, world, order, k, changed.Keys - keys - {k});
        order := order + [k];
        assert changed.Keys - keys - {k} + {k} == changed.Keys - keys;
        ok := Change(k, changed[k], world(k), config, world);
        if !ok {
          order := Finished(begin, config, world, order, keys, changed.Keys);
          return false, order;
        }
      }
      assert changed.Keys - keys == changed.Keys;
      return true, order;
    }

    // The keys that a failing request did not get to come last.
    lemma Finished(begin: Server, config: map<string, Json>, world: World, done: seq<string>, rest: set<string>,
                   changed: set<string>)
      returns (order: seq<string>)
      requires !SetAll(schema, begin, config, world, done).ok
      requires rest <= changed
      requires Lists(done, changed - rest)
      ensures SetAll(schema, begin, config, world, order) == SetAll(schema, begin, config, world, done)
      ensures Lists(order, changed)
    {
      var more := SomeOrder(rest);
      order := done + more;
      FailureSticks(schema, begin, config, world, done, more);
      forall i, j | 0 <= i < j < |order| ensures order[i] != order[j] {
        if i < |done| <= j { assert more[j - |done|] in more && done[i] in done; }
      }
      assert forall k :: k in order <==> k in done || k in more;
    }

    method Put(req: map<string, Json>, world: World) returns (ok: bool, ghost order: seq<string>)
      requires Valid(schema, View())
      modifies this
      ensures ChangedIn(old(table), Effective(schema, old(table), req), order)
      ensures Outcome(View(), ok) == SetAll(schema, old(View()), Effective(schema, old(table), req), world, order)
      ensures Valid(schema, View())
    {
      ok, order := Update(table, req, world);
    }

    // A PATCH without a config map changes nothing; otherwise the entries of the
    // table that the request does not mention are added to it.
    method Patch(body: Option<map<string, Json>>, world: World) returns (ok: bool, ghost order: seq<string>)
      requires Valid(schema, View())
      modifies this
      ensures body.None? ==> ok && View() == old(View())
      ensures body.Some? ==> ChangedIn(old(table), Effective(schema, old(table), Merged(old(table), body.value)), order)
      ensures body.Some? ==> Outcome(View(), ok)
                             == SetAll(schema, old(View()),
                                 Effective(schema, old(table), Merged(old(table), body.value)), world, order)
      ensures Valid(schema, View())
    {
      if body.None? {
        return true, [];
      }
      var req := body.value;
      var keys := table.Keys;
      while keys != {}
        invariant keys <= table.Keys
        invariant View() == old(View())
        invariant forall k :: k in req <==> k in body.value || (k in table && k !in keys)
        invariant forall k :: k in req ==> req[k] == if k in body.value then body.value[k] else Text(table[k])
        decreases keys
      {
        var k :| k in keys;
        keys := keys - {k};
        if k !in req {
          req := req[k := Text(table[k])];
        }
      }
      assert req == Merged(table, body.value);
      ok, order := Update(table, req, world);
    }
  }
}
