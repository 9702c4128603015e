// The functions of apollo/db_containers.go and apollo/db_devices.go over the
// container tables, with transactions that roll back to their beginning.
module ContainerDatabase {
  import opened Wrappers
  import opened Tables
  import opened ContainerStore
  import opened ContainerFrames

  predicate Distinct(s: seq<string>) {
    forall i, j :: 0 <= i < j < |s| ==> s[i] != s[j]
  }

  predicate ProfileExists(db: Db, name: string) {
    exists p :: p in db.profiles && db.profiles[p] == name
  }

  // What the inserts accept.
  ghost predicate ProfilesFit(db: Db, ps: seq<string>) {
    Distinct(ps) && forall p :: p in ps ==> ProfileExists(db, p)
  }

  predicate HasDeviceType(dev: Device) { "type" in dev && DeviceTypeToInt(dev["type"]).Some? }

  predicate DevicesFit(devs: map<string, Device>) {
    forall n :: n in devs ==> HasDeviceType(devs[n])
  }

  // ORDER BY apply_order picks a link with the least order next.
  lemma LeastLink(db: Db, ls: set<int>) returns (l: int)
    requires ls != {}
    requires forall m :: m in ls ==> m in db.links.rows
    ensures l in ls && forall m :: m in ls ==> db.links.rows[l].order <= db.links.rows[m].order
    decreases ls
  {
    l := Element(ls);
    var rest := ls - {l};
    if rest != {} {
      var m := LeastLink(db, rest);
      if db.links.rows[m].order < db.links.rows[l].order { l := m; }
    } else {
      forall m | m in ls ensures m == l { assert m !in rest; }
    }
  }

  // Joining the device rows selects the settings of the container's devices.
  lemma SubselectMatches(db: Db, id: int)
    ensures var devices := set d | d in db.devices.rows && db.devices.rows[d].container == id;
            (set i | i in db.deviceConfig.rows && db.deviceConfig.rows[i].parent in db.devices.rows
                     && db.devices.rows[db.deviceConfig.rows[i].parent].container == id)
            == set i | i in db.deviceConfig.rows && db.deviceConfig.rows[i].parent in devices
  {
  }

  // The links of `id` in order name `ps`, with apply orders 1, 2, ...
  ghost predicate Linked(db: Db, id: int, ls: seq<int>, ps: seq<string>) {
    && LinksName(db, id, ls, ps)
    && forall k :: 0 <= k < |ls| && IsLink(db, ls[k], id) ==> db.links.rows[ls[k]].order == k + 1
  }

  lemma LinksStay(a: Db, b: Db, id: int, profiles: seq<string>)
    requires b == a.(devices := b.devices, deviceConfig := b.deviceConfig)
    requires ProfilesAre(a, id, profiles)
    ensures ProfilesAre(b, id, profiles)
  {
    var ls :| LinksName(a, id, ls, profiles);
    assert LinksName(b, id, ls, profiles);
  }

  function WithRow(db: Db, id: int, row: ContainerRow): Db {
    db.(containers := db.containers.(rows := db.containers.rows[id := row]))
  }

  lemma DeviceRead(db: Db, d: int, m: Device, stype: string)
    requires Valid(db)
    requires d in db.devices.rows
    requires Reads(db.deviceConfig.rows, d, m)
    requires DeviceTypeToString(db.devices.rows[d].dtype) == Some(stype)
    ensures DeviceIs(db, d, m["type" := stype])
  {
  }

  lemma RowUpdateIsValid(db: Db, id: int, row: ContainerRow)
    requires Valid(db)
    requires id in db.containers.rows
    requires forall i :: i in db.containers.rows && db.containers.rows[i].name == row.name ==> i == id
    ensures Valid(WithRow(db, id, row))
  {
  }

  lemma RowUpdateFrame(db: Db, id: int, row: ContainerRow)
    ensures Frame(db, WithRow(db, id, row), id)
  {
  }

  lemma RowUpdateKeepsDevices(db: Db, id: int, row: ContainerRow, devices: map<string, Device>)
    requires DevicesAre(db, id, devices)
    ensures DevicesAre(WithRow(db, id, row), id, devices)
  {
  }

  lemma UpdatedRow(db: Db, id: int, row: ContainerRow, config: map<string, string>, profiles: seq<string>,
                   devices: map<string, Device>)
    requires Valid(db)
    requires id in db.containers.rows && row.name == db.containers.rows[id].name
    requires Reads(db.config.rows, id, config)
    requires ProfilesAre(db, id, profiles)
    requires DevicesAre(db, id, devices)
    ensures var u := WithRow(db, id, row);
            && Valid(u) && Frame(db, u, id)
            && StoresAt(u, id, Args(row.name, row.description, row.architecture, row.ctype, row.ephemeral, row.stateful,
                                    config, profiles, devices))
  {
    RowUpdateIsValid(db, id, row);
    RowUpdateFrame(db, id, row);
    RowUpdateKeepsDevices(db, id, row, devices);
    var ls :| LinksName(db, id, ls, profiles);
    assert LinksName(WithRow(db, id, row), id, ls, profiles);
  }

  // `ls` are the links taken so far, all with lesser orders than those left.
  ghost predicate Taken(db: Db, id: int, ls: seq<int>, results: set<int>, profiles: seq<string>) {
    && (forall l :: l in results ==> IsLink(db, l, id))
    && (forall l :: IsLink(db, l, id) ==> l in results || l in ls)
    && (forall k :: 0 <= k < |ls| ==> IsLink(db, ls[k], id))
    && (forall j, k :: 0 <= j < k < |ls| && IsLink(db, ls[j], id) && IsLink(db, ls[k], id)
                       ==> db.links.rows[ls[j]].order < db.links.rows[ls[k]].order)
    && (forall k, l :: 0 <= k < |ls| && IsLink(db, ls[k], id) && l in results && IsLink(db, l, id)
                       ==> db.links.rows[ls[k]].order < db.links.rows[l].order)
    && |ls| == |profiles|
    && (forall k :: 0 <= k < |ls| && IsLink(db, ls[k], id) ==>
          db.links.rows[ls[k]].profile in db.profiles && db.profiles[db.links.rows[ls[k]].profile] == profiles[k])
  }

  lemma TakeLeast(db: Db, id: int, ls: seq<int>, results: set<int>, profiles: seq<string>, l: int)
    requires Valid(db)
    requires Taken(db, id, ls, results, profiles)
    requires l in results
    requires forall m :: m in results ==> m in db.links.rows && l in db.links.rows
                                          && db.links.rows[l].order <= db.links.rows[m].order
    ensures IsLink(db, l, id) && db.links.rows[l].profile in db.profiles
    ensures Taken(db, id, ls + [l], results - {l}, profiles + [db.profiles[db.links.rows[l].profile]])
  {
  }

  lemma CreatedReadings(a: Db, b: Db, id: int, name: string)
    requires Frame(a, b, id)
    requires id !in a.containers.rows
    requires id in b.containers.rows && b.containers.rows[id].name == name
    ensures forall x: Args :: x.name != name ==> (Stores(a, x) <==> Stores(b, x))
  {
    forall x: Args | x.name != name ensures Stores(a, x) <==> Stores(b, x) {
      OtherReadings(a, b, id, x);
    }
  }

  // The devices no longer in `rest` are those in `devs`, all of a known type.
  ghost predicate AddedDevices(devices: map<string, Device>, rest: set<string>, devs: map<string, Device>) {
    && (forall n :: n in devs <==> n in devices && n !in rest)
    && (forall n :: n in devs ==> n in devices && devs[n] == devices[n] && HasDeviceType(devs[n]))
  }

  lemma AllDevicesAdded(devices: map<string, Device>, devs: map<string, Device>)
    requires AddedDevices(devices, {}, devs)
    ensures devs == devices && DevicesFit(devices)
  {
  }

  lemma NewDeviceFits(db: Db, row: DeviceRow, dc: Table<KeyValue>, devs: map<string, Device>, v: Device)
    requires Valid(db)
    requires row.container in db.containers.rows
    requires DevicesAre(db, row.container, devs)
    requires row.name !in devs
    requires "type" in v && DeviceTypeToInt(v["type"]) == Some(row.dtype)
    requires Fresh(dc)
    requires UniqueKeys(dc.rows)
    requires forall q :: q != db.devices.next ==> SameRows(db.deviceConfig.rows, dc.rows, q)
    requires Reads(dc.rows, db.devices.next, v - {"type"})
    ensures var u := WithDevice(db, row, dc);
            Valid(u) && Frame(db, u, row.container) && DevicesAre(u, row.container, devs[row.name := v])
  {
    DeviceTypesRoundTrip(v["type"], row.dtype);
    forall d | d in db.devices.rows ensures !DevicesClash(db.devices.rows[d], row) {
      if db.devices.rows[d].container == row.container { assert IsDevice(db, d, row.container); }
    }
    NewDeviceIsValid(db, row, dc, v - {"type"});
    NewDeviceFrame(db, row, dc);
    NewDeviceReads(db, row, dc, devs, v);
  }

  lemma AddedOneDevice(devices: map<string, Device>, rest: set<string>, devs: map<string, Device>, n: string)
    requires AddedDevices(devices, rest, devs)
    requires n in devices && n in rest && HasDeviceType(devices[n])
    ensures AddedDevices(devices, rest - {n}, devs[n := devices[n]])
  {
  }

  lemma FitsOneMore(db: Db, ps: seq<string>, i: nat)
    requires i < |ps|
    requires ProfilesFit(db, ps[..i])
    ensures ps[..i + 1] == ps[..i] + [ps[i]]
    ensures ProfilesFit(db, ps[..i + 1]) <==> ProfileExists(db, ps[i]) && ps[i] !in ps[..i]
    ensures ProfilesFit(db, ps) ==> ProfilesFit(db, ps[..i + 1])
  {
  }

  lemma LinkedAlready(db: Db, id: int, ls: seq<int>, ps: seq<string>, pid: int)
    requires LinksName(db, id, ls, ps)
    requires pid in db.profiles
    requires exists l :: l in db.links.rows && db.links.rows[l].container == id && db.links.rows[l].profile == pid
    ensures db.profiles[pid] in ps
  {
    var l :| l in db.links.rows && db.links.rows[l].container == id && db.links.rows[l].profile == pid;
    assert IsLink(db, l, id);
    var k :| 0 <= k < |ls| && ls[k] == l;
    assert ps[k] == db.profiles[pid];
  }

  class Database {
    var db: Db

    constructor (db: Db)
      ensures this.db == db
    {
      this.db := db;
    }

    // ------------------------------------------------------------------ reading

    method ContainerId(name: string) returns (id: Option<int>)
      requires Valid(db)
      ensures id.Some? <==> HasName(db, name)
      ensures id.Some? ==> id.value in db.containers.rows && db.containers.rows[id.value].name == name
    {
      if HasName(db, name) {
        var i :| i in db.containers.rows && db.containers.rows[i].name == name;
        return Some(i);
      }
      return None;
    }

    method ContainerProfiles(id: int) returns (profiles: seq<string>)
      requires Valid(db)
      ensures ProfilesAre(db, id, profiles)
    {
      profiles := [];
      ghost var ls: seq<int> := [];
      var results := set l | l in db.links.rows && db.links.rows[l].container == id;
      while results != {}
        invariant Taken(db, id, ls, results, profiles)
        decreases results
      {
        ghost var least := LeastLink(db, results);
        var l :| l in results && forall m :: m in results ==> db.links.rows[l].order <= db.links.rows[m].order;
        TakeLeast(db, id, ls, results, profiles, l);
        results := results - {l};
        ls := ls + [l];
        profiles := profiles + [db.profiles[db.links.rows[l].profile]];
      }
      assert LinksName(db, id, ls, profiles);
    }

    // dbDevices, with dbDeviceConfig for each row; the error for an unknown
    // type is never taken, because only known types are inserted.
    method Devices(name: string) returns (devices: map<string, Device>)
      requires Valid(db)
      ensures forall id :: id in db.containers.rows && db.containers.rows[id].name == name ==>
                DevicesAre(db, id, devices)
    {
      devices := map[];
      var results := set d | d in db.devices.rows && db.devices.rows[d].container in db.containers.rows
                             && db.containers.rows[db.devices.rows[d].container].name == name;
      ghost var all := results;
      while results != {}
        invariant results <= all
        invariant forall d :: d in all && d !in results
                    ==> db.devices.rows[d].name in devices && DeviceIs(db, d, devices[db.devices.rows[d].name])
        invariant forall n :: n in devices ==> exists d :: d in all && db.devices.rows[d].name == n
        decreases results
      {
        ghost var some := Element(results);
        var d :| d in results;
        results := results - {d};
        var stype := DeviceTypeToString(db.devices.rows[d].dtype);
        if stype.None? {
          assert false;
        }
        var newdev := ReadRows(db.deviceConfig.rows, d);
        DeviceRead(db, d, newdev, stype.value);
        forall e | e in all && e != d ensures db.devices.rows[e].name != db.devices.rows[d].name {}
        devices := devices[db.devices.rows[d].name := newdev["type" := stype.value]];
      }
      forall id | id in db.containers.rows && db.containers.rows[id].name == name
        ensures DevicesAre(db, id, devices)
      {
        forall d ensures d in all <==> IsDevice(db, d, id) {}
      }
    }

    method ContainerGet(name: string) returns (r: Result<Args, DbError>)
      requires Valid(db)
      ensures r.Ok? <==> HasName(db, name)
      ensures r.Ok? ==> r.value.name == name && Stores(db, r.value)
      ensures r.Err? ==> r.error == NoSuchObject
    {
      var id := ContainerId(name);
      if id.None? {
        return Err(NoSuchObject);
      }
      var row := db.containers.rows[id.value];
      var config := ReadRows(db.config.rows, id.value);
      var profiles := ContainerProfiles(id.value);
      var devices := Devices(name);
      var args := Args(name, row.description, row.architecture, row.ctype, row.ephemeral, row.stateful,
                       config, profiles, devices);
      assert StoresAt(db, id.value, args);
      return Ok(args);
    }

    // ------------------------------------------------------------------ writing

    // dbContainerConfigClear
    method ConfigClear(id: int)
      requires Valid(db)
      modifies this
      ensures db == Cleared(old(db), id)
    {
      SubselectMatches(db, id);
      db := db.(config := Without(db.config, set i | i in db.config.rows && db.config.rows[i].parent == id));
      db := db.(links := Without(db.links, set l | l in db.links.rows && db.links.rows[l].container == id));
      // the sub-select joins the device rows, which are still there
      db := db.(deviceConfig := Without(db.deviceConfig,
                  set i | i in db.deviceConfig.rows && db.deviceConfig.rows[i].parent in db.devices.rows
                          && db.devices.rows[db.deviceConfig.rows[i].parent].container == id));
      db := db.(devices := Without(db.devices, set d | d in db.devices.rows && db.devices.rows[d].container == id));
    }

    // dbContainerConfigInsert, for a container whose config reads `before`.
    method ConfigInsert(id: int, config: map<string, string>, ghost before: map<string, string>) returns (ok: bool)
      requires Valid(db)
      requires id in db.containers.rows
      requires Reads(db.config.rows, id, before)
      modifies this
      ensures ok <==> before.Keys !! config.Keys
      ensures db == old(db).(config := db.config)
      ensures Valid(db) && Frame(old(db), db, id)
      ensures ok ==> Reads(db.config.rows, id, before + config)
    {
      var t;
      ok, t := InsertAll(db.config, id, config, before);
      NewConfig(db, t, id);
      db := db.(config := t);
    }

    // One INSERT of dbContainerProfilesInsert. The sub-select gives NULL for an
    // unknown profile, which the NOT NULL column refuses.
    method LinkProfile(id: int, name: string, applyOrder: int, ghost ls: seq<int>, ghost ps: seq<string>)
      returns (ok: bool)
      requires Valid(db)
      requires id in db.containers.rows
      requires Linked(db, id, ls, ps)
      requires applyOrder == |ps| + 1
      modifies this
      ensures ok <==> ProfileExists(old(db), name) && name !in ps
      ensures !ok ==> db == old(db)
      ensures db == old(db).(links := db.links)
      ensures Valid(db) && Frame(old(db), db, id)
      ensures ok ==> Linked(db, id, ls + [old(db).links.next], ps + [name])
    {
      if !ProfileExists(db, name) {
        return false;
      }
      var pid :| pid in db.profiles && db.profiles[pid] == name;
      if exists l :: l in db.links.rows && db.links.rows[l].container == id && db.links.rows[l].profile == pid {
        LinkedAlready(db, id, ls, ps, pid);
        return false;
      }
      NewLink(db, id, ls, ps, pid);
      db := db.(links := Insert(db.links, LinkRow(id, pid, applyOrder)));
      return true;
    }

    // dbContainerProfilesInsert, for a container without links.
    method ProfilesInsert(id: int, profiles: seq<string>) returns (ok: bool)
      requires Valid(db)
      requires id in db.containers.rows
      requires forall l :: !IsLink(db, l, id)
      modifies this
      ensures ok <==> ProfilesFit(old(db), profiles)
      ensures db == old(db).(links := db.links)
      ensures Valid(db) && Frame(old(db), db, id)
      ensures ok ==> ProfilesAre(db, id, profiles)
    {
      ghost var ls: seq<int> := [];
      var applyOrder := 1;
      for i := 0 to |profiles|
        invariant applyOrder == i + 1
        invariant db == old(db).(links := db.links)
        invariant Valid(db) && Frame(old(db), db, id)
        invariant Linked(db, id, ls, profiles[..i])
        invariant ProfilesFit(old(db), profiles[..i])
      {
        ghost var was := db;
        ok := LinkProfile(id, profiles[i], applyOrder, ls, profiles[..i]);
        FrameChains(old(db), was, db, id);
        FitsOneMore(old(db), profiles, i);
        if !ok {
          return;
        }
        ls := ls + [was.links.next];
        applyOrder := applyOrder + 1;
      }
      assert profiles[..|profiles|] == profiles;
      return true;
    }

    // One round of the loop of dbDevicesAdd: the device row, then its config
    // without the "type" key, which the row holds.
    method AddDevice(id: int, name: string, v: Device, ghost devs: map<string, Device>) returns (ok: bool)
      requires Valid(db)
      requires id in db.containers.rows
      requires DevicesAre(db, id, devs)
      requires name !in devs
      modifies this
      ensures ok <==> HasDeviceType(v)
      ensures !ok ==> db == old(db)
      ensures db == old(db).(devices := db.devices, deviceConfig := db.deviceConfig)
      ensures Valid(db) && Frame(old(db), db, id)
      ensures ok ==> DevicesAre(db, id, devs[name := v])
    {
      var t := DeviceTypeToInt(if "type" in v then v["type"] else "");
      if t.None? {
        return false;
      }
      var row := DeviceRow(id, name, t.value);
      var inserted, dc := InsertAll(db.deviceConfig, db.devices.next, v - {"type"}, map[]);
      assert map[] + (v - {"type"}) == v - {"type"};
      NewDeviceFits(db, row, dc, devs, v);
      db := WithDevice(db, row, dc);
      return true;
    }

    // dbDevicesAdd, for a container without devices; the devices come in any order.
    method DevicesAdd(id: int, devices: map<string, Device>) returns (ok: bool)
      requires Valid(db)
      requires id in db.containers.rows
      requires forall d :: !IsDevice(db, d, id)
      modifies this
      ensures ok <==> DevicesFit(devices)
      ensures db == old(db).(devices := db.devices, deviceConfig := db.deviceConfig)
      ensures Valid(db) && Frame(old(db), db, id)
      ensures ok ==> DevicesAre(db, id, devices)
    {
      var rest := devices.Keys;
      ghost var devs: map<string, Device> := map[];
      while rest != {}
        invariant rest <= devices.Keys
        invariant db == old(db).(devices := db.devices, deviceConfig := db.deviceConfig)
        invariant Valid(db) && Frame(old(db), db, id)
        invariant AddedDevices(devices, rest, devs)
        invariant DevicesAre(db, id, devs)
        decreases rest
      {
        var n :| n in rest;
        ghost var was := db;
        ok := AddDevice(id, n, devices[n], devs);
        FrameChains(old(db), was, db, id);
        if !ok {
          return;
        }
        AddedOneDevice(devices, rest, devs, n);
        rest := rest - {n};
        devs := devs[n := devices[n]];
      }
      AllDevicesAdded(devices, devs);
      return true;
    }

    // dbContainerCreate: nothing is left behind unless everything was stored.
    method ContainerCreate(args: Args) returns (r: Result<int, DbError>)
      requires Valid(db)
      modifies this
      ensures Valid(db)
      ensures r.Ok? <==> !HasName(old(db), args.name) && ProfilesFit(old(db), args.profiles) && DevicesFit(args.devices)
      ensures r.Err? ==> db == old(db)
      ensures r.Err? ==> (r.error == AlreadyDefined <==> HasName(old(db), args.name))
      ensures r.Ok? ==> Stores(db, args.(description := ""))
      ensures forall a: Args :: a.name != args.name ==> (Stores(old(db), a) <==> Stores(db, a))
    {
      var known := ContainerId(args.name);
      if known.Some? {
        return Err(AlreadyDefined);
      }
      var begin := db;
      var row := ContainerRow(args.name, "", args.architecture, args.ctype, args.ephemeral, args.stateful);
      var id := db.containers.next;
      NewContainer(db, row);
      db := db.(containers := Insert(db.containers, row));
      var ok := FillContainer(id, args.config, args.profiles, args.devices);
      if !ok {
        db := begin;
        return Err(ConstraintFailed);
      }
      FrameChains(begin, begin.(containers := Insert(begin.containers, row)), db, id);
      CreatedReadings(begin, db, id, args.name);
      assert StoresAt(db, id, args.(description := ""));
      return Ok(id);
    }

    // dbContainerConfigInsert, dbContainerProfilesInsert and dbDevicesAdd in a row.
    method FillContainer(id: int, config: map<string, string>, profiles: seq<string>, devices: map<string, Device>)
      returns (ok: bool)
      requires Valid(db)
      requires id in db.containers.rows
      requires Reads(db.config.rows, id, map[])
      requires forall l :: !IsLink(db, l, id)
      requires forall d :: !IsDevice(db, d, id)
      modifies this
      ensures Valid(db) && Frame(old(db), db, id)
      ensures db.containers == old(db).containers
      ensures ok <==> ProfilesFit(old(db), profiles) && DevicesFit(devices)
      ensures ok ==> Reads(db.config.rows, id, config) && ProfilesAre(db, id, profiles) && DevicesAre(db, id, devices)
    {
      ghost var a := db;
      ok := ConfigInsert(id, config, map[]);
      assert map[] + config == config;
      ghost var b := db;
      forall l ensures !IsLink(db, l, id) { assert !IsLink(a, l, id); }
      ok := ProfilesInsert(id, profiles);
      FrameChains(a, b, db, id);
      if !ok {
        return;
      }
      ghost var c := db;
      forall d ensures !IsDevice(db, d, id) { assert !IsDevice(a, d, id); }
      ok := DevicesAdd(id, devices);
      FrameChains(a, c, db, id);
      LinksStay(c, db, id, profiles);
    }

    // The transaction at the end of containerMERCURY.Update: clear the container,
    // insert its new configuration, and update its row.
    method ContainerRewrite(id: int, description: string, architecture: int, ephemeral: bool,
                            config: map<string, string>, profiles: seq<string>, devices: map<string, Device>)
      returns (ok: bool)
      requires Valid(db)
      requires id in db.containers.rows
      modifies this
      ensures Valid(db)
      ensures ok <==> ProfilesFit(old(db), profiles) && DevicesFit(devices)
      ensures !ok ==> db == old(db)
      ensures ok ==> var row := old(db).containers.rows[id];
                     Stores(db, Args(row.name, description, architecture, row.ctype, ephemeral, row.stateful, config,
                         profiles, devices))
      ensures forall a: Args :: a.name != old(db).containers.rows[id].name ==> (Stores(old(db), a) <==> Stores(db, a))
    {
      var begin := db;
      ConfigClear(id);
      ClearedIsValid(begin, id);
      ClearedFrame(begin, id);
      ghost var cleared := db;
      ok := FillContainer(id, config, profiles, devices);
      if !ok {
        db := begin;
        return;
      }
      FrameChains(begin, cleared, db, id);
      ghost var filled := db;
      var row := db.containers.rows[id].(
        description := description, architecture := architecture, ephemeral := ephemeral);
      UpdatedRow(filled, id, row, config, profiles, devices);
      db := WithRow(db, id, row);
      FrameChains(begin, filled, db, id);
      forall a: Args | a.name != row.name ensures Stores(begin, a) <==> Stores(db, a) {
        OtherReadings(begin, db, id, a);
      }
    }

    // dbContainerRemove, with the cascades of the schema.
    method ContainerRemove(name: string) returns (ok: bool)
      requires Valid(db)
      modifies this
      ensures Valid(db)
      ensures ok <==> HasName(old(db), name)
      ensures !HasName(db, name)
      ensures forall a: Args :: Stores(db, a) <==> Stores(old(db), a) && a.name != name
    {
      var id := ContainerId(name);
      if id.None? {
        return false;
      }
      ghost var begin := db;
      DroppedContainer(db, id.value);
      var cleared := Cleared(db, id.value);
      db := cleared.(containers := Without(db.containers, {id.value}));
      forall a: Args ensures Stores(db, a) <==> Stores(begin, a) && a.name != name {
        if a.name != name { OtherReadings(begin, db, id.value, a); }
      }
      return true;
    }
  }
}
