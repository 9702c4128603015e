// How changes to single tables affect validity and the readings of containers.
module ContainerFrames {
  import opened Wrappers
  import opened Tables
  import opened ContainerStore

  // Everything that belongs to container `q` is the same in both databases.
  ghost predicate SameFor(a: Db, b: Db, q: int) {
    && (q in a.containers.rows <==> q in b.containers.rows)
    && (q in a.containers.rows && q in b.containers.rows ==> a.containers.rows[q] == b.containers.rows[q])
    && SameRows(a.config.rows, b.config.rows, q)
    && (forall l :: IsLink(a, l, q) || IsLink(b, l, q)
                    ==> l in a.links.rows && l in b.links.rows && a.links.rows[l] == b.links.rows[l])
    && (forall d :: IsDevice(a, d, q) || IsDevice(b, d, q)
                    ==> d in a.devices.rows && d in b.devices.rows && a.devices.rows[d] == b.devices.rows[d]
                        && SameRows(a.deviceConfig.rows, b.deviceConfig.rows, d))
    && a.profiles == b.profiles
  }

  // Only container `id` may differ.
  ghost predicate Frame(a: Db, b: Db, id: int) {
    forall q :: q != id ==> SameFor(a, b, q)
  }

  lemma FrameChains(a: Db, b: Db, c: Db, id: int)
    requires Frame(a, b, id)
    requires Frame(b, c, id)
    ensures Frame(a, c, id)
  {
    forall q | q != id ensures SameFor(a, c, q) {
      assert SameFor(a, b, q) && SameFor(b, c, q);
      forall d | IsDevice(a, d, q) || IsDevice(c, d, q)
        ensures d in a.devices.rows && d in c.devices.rows && a.devices.rows[d] == c.devices.rows[d]
        ensures SameRows(a.deviceConfig.rows, c.deviceConfig.rows, d)
      {
        assert IsDevice(b, d, q);
      }
      forall l | IsLink(a, l, q) || IsLink(c, l, q)
        ensures l in a.links.rows && l in c.links.rows && a.links.rows[l] == c.links.rows[l]
      {
        assert IsLink(b, l, q);
      }
    }
  }

  lemma SameProfiles(a: Db, b: Db, q: int, ps: seq<string>)
    requires SameFor(a, b, q)
    requires ProfilesAre(a, q, ps)
    ensures ProfilesAre(b, q, ps)
  {
    var ls :| LinksName(a, q, ls, ps);
    forall k | 0 <= k < |ls| ensures IsLink(b, ls[k], q) && b.links.rows[ls[k]] == a.links.rows[ls[k]] {
      assert IsLink(a, ls[k], q);
    }
    forall l | IsLink(b, l, q) ensures l in ls {
      assert IsLink(a, l, q);
    }
    assert LinksName(b, q, ls, ps);
  }

  lemma SameDevices(a: Db, b: Db, q: int, devs: map<string, Device>)
    requires SameFor(a, b, q)
    requires DevicesAre(a, q, devs)
    ensures DevicesAre(b, q, devs)
  {
    forall d | IsDevice(b, d, q)
      ensures b.devices.rows[d].name in devs && DeviceIs(b, d, devs[b.devices.rows[d].name])
    {
      assert IsDevice(a, d, q);
      SameRowsRead(a.deviceConfig.rows, b.deviceConfig.rows, d, devs[b.devices.rows[d].name] - {"type"});
    }
    forall n | n in devs ensures exists d :: IsDevice(b, d, q) && b.devices.rows[d].name == n {
      var d :| IsDevice(a, d, q) && a.devices.rows[d].name == n;
      assert IsDevice(b, d, q);
    }
  }

  // What is read for a container depends on its own rows.
  lemma SameReading(a: Db, b: Db, q: int, args: Args)
    requires SameFor(a, b, q)
    requires StoresAt(a, q, args)
    ensures StoresAt(b, q, args)
  {
    SameRowsRead(a.config.rows, b.config.rows, q, args.config);
    SameProfiles(a, b, q, args.profiles);
    SameDevices(a, b, q, args.devices);
  }

  // A change to one container leaves the reading of every other name as it was.
  lemma OtherReadings(a: Db, b: Db, id: int, args: Args)
    requires Frame(a, b, id)
    requires id in a.containers.rows ==> a.containers.rows[id].name != args.name
    requires id in b.containers.rows ==> b.containers.rows[id].name != args.name
    ensures Stores(a, args) <==> Stores(b, args)
  {
    if Stores(a, args) {
      var q :| StoresAt(a, q, args);
      assert q != id && SameFor(a, b, q);
      SameReading(a, b, q, args);
    }
    if Stores(b, args) {
      var q :| StoresAt(b, q, args);
      assert q != id && SameFor(a, b, q);
      SameReading(b, a, q, args);
    }
  }

  // ------------------------------------------------------- one table at a time

  lemma NewContainer(db: Db, row: ContainerRow)
    requires Valid(db)
    requires !HasName(db, row.name)
    ensures var u := db.(containers := Insert(db.containers, row));
            && Valid(u) && Frame(db, u, db.containers.next)
            && Reads(u.config.rows, db.containers.next, map[])
            && (forall l :: !IsLink(u, l, db.containers.next))
            && (forall d :: !IsDevice(u, d, db.containers.next))
  {
    var u := db.(containers := Insert(db.containers, row));
    forall q | q != db.containers.next ensures SameFor(db, u, q) {}
  }

  lemma NewConfig(db: Db, config: Table<KeyValue>, id: int)
    requires Valid(db)
    requires id in db.containers.rows
    requires Fresh(config)
    requires UniqueKeys(config.rows)
    requires forall q :: q != id ==> SameRows(db.config.rows, config.rows, q)
    ensures Valid(db.(config := config)) && Frame(db, db.(config := config), id)
  {
    forall i | i in config.rows ensures config.rows[i].parent in db.containers.rows {
      var q := config.rows[i].parent;
      if q != id {
        assert SameRows(db.config.rows, config.rows, q) && IsRow(config.rows, i, q);
      }
    }
  }

  lemma LinkIsUnique(db: Db, id: int, ls: seq<int>, ps: seq<string>, pid: int)
    requires Valid(db)
    requires id in db.containers.rows
    requires LinksName(db, id, ls, ps)
    requires forall k :: 0 <= k < |ls| && IsLink(db, ls[k], id) ==> db.links.rows[ls[k]].order == k + 1
    requires pid in db.profiles && db.profiles[pid] !in ps
    ensures var u := db.(links := Insert(db.links, LinkRow(id, pid, |ps| + 1)));
            Valid(u) && Frame(db, u, id)
  {
    var row := LinkRow(id, pid, |ps| + 1);
    forall i | i in db.links.rows ensures !LinksClash(db.links.rows[i], row) {
      if IsLink(db, i, id) {
        var k :| 0 <= k < |ls| && ls[k] == i;
        assert db.profiles[db.links.rows[ls[k]].profile] == ps[k];
      }
    }
    forall q | q != id ensures SameFor(db, db.(links := Insert(db.links, row)), q) {}
  }

  lemma LinkIsLast(db: Db, id: int, ls: seq<int>, ps: seq<string>, pid: int)
    requires Fresh(db.links)
    requires LinksName(db, id, ls, ps)
    requires forall k :: 0 <= k < |ls| && IsLink(db, ls[k], id) ==> db.links.rows[ls[k]].order == k + 1
    requires pid in db.profiles
    ensures var l, u := db.links.next, db.(links := Insert(db.links, LinkRow(id, pid, |ps| + 1)));
            && LinksName(u, id, ls + [l], ps + [db.profiles[pid]])
            && (forall k :: 0 <= k < |ls + [l]| && IsLink(u, (ls + [l])[k], id)
                            ==> u.links.rows[(ls + [l])[k]].order == k + 1)
  {
    var l, u := db.links.next, db.(links := Insert(db.links, LinkRow(id, pid, |ps| + 1)));
    var ls', ps' := ls + [l], ps + [db.profiles[pid]];
    forall i | i in db.links.rows ensures i in u.links.rows && u.links.rows[i] == db.links.rows[i] {}
    forall k | 0 <= k < |ls|
      ensures IsLink(db, ls'[k], id) && IsLink(u, ls'[k], id) && ls'[k] == ls[k]
      ensures u.links.rows[ls'[k]].order == k + 1 && u.links.rows[ls'[k]].profile in db.profiles
      ensures db.profiles[u.links.rows[ls'[k]].profile] == ps'[k]
    {
      assert IsLink(db, ls[k], id);
    }
    assert ls'[|ls|] == l && IsLink(u, l, id);
    forall m | IsLink(u, m, id) ensures m in ls' {
      if m != l {
        assert IsLink(db, m, id);
        var k :| 0 <= k < |ls| && ls[k] == m;
        assert ls'[k] == m;
      }
    }
    forall k | 0 <= k < |ls'| ensures IsLink(u, ls'[k], id) && u.links.rows[ls'[k]].order == k + 1 {
      if k < |ls| { assert IsLink(u, ls'[k], id); }
    }
    assert OrderedLinks(u, id, ls');
  }

  // A row of profile `pid` with the next apply order.
  lemma NewLink(db: Db, id: int, ls: seq<int>, ps: seq<string>, pid: int)
    requires Valid(db)
    requires id in db.containers.rows
    requires LinksName(db, id, ls, ps)
    requires forall k :: 0 <= k < |ls| && IsLink(db, ls[k], id) ==> db.links.rows[ls[k]].order == k + 1
    requires pid in db.profiles && db.profiles[pid] !in ps
    ensures var l, u := db.links.next, db.(links := Insert(db.links, LinkRow(id, pid, |ps| + 1)));
            && Valid(u) && Frame(db, u, id)
            && LinksName(u, id, ls + [l], ps + [db.profiles[pid]])
            && (forall k :: 0 <= k < |ls + [l]| && IsLink(u, (ls + [l])[k], id)
                            ==> u.links.rows[(ls + [l])[k]].order == k + 1)
  {
    LinkIsUnique(db, id, ls, ps, pid);
    LinkIsLast(db, id, ls, ps, pid);
  }

  // A device row of container `id` together with its config rows.
  function WithDevice(db: Db, row: DeviceRow, dc: Table<KeyValue>): Db {
    db.(devices := Insert(db.devices, row), deviceConfig := dc)
  }

  lemma NewDeviceIsValid(db: Db, row: DeviceRow, dc: Table<KeyValue>, rest: Device)
    requires Valid(db)
    requires row.container in db.containers.rows
    requires DeviceTypeToString(row.dtype).Some?
    requires forall d :: d in db.devices.rows ==> !DevicesClash(db.devices.rows[d], row)
    requires Fresh(dc)
    requires UniqueKeys(dc.rows)
    requires forall q :: q != db.devices.next ==> SameRows(db.deviceConfig.rows, dc.rows, q)
    requires Reads(dc.rows, db.devices.next, rest)
    requires "type" !in rest
    ensures Valid(WithDevice(db, row, dc))
  {
    var n, u := db.devices.next, WithDevice(db, row, dc);
    forall i | i in db.devices.rows ensures i in u.devices.rows && u.devices.rows[i] == db.devices.rows[i] && i != n {}
    forall i, j | i in u.devices.rows && j in u.devices.rows && DevicesClash(u.devices.rows[i], u.devices.rows[j])
      ensures i == j
    {
      assert j in db.devices.rows ==> !DevicesClash(db.devices.rows[j], row);
      assert i in db.devices.rows ==> !DevicesClash(db.devices.rows[i], row);
    }
    assert UniqueLinks(u);
    forall i | i in dc.rows ensures dc.rows[i].parent in u.devices.rows && dc.rows[i].key != "type" {
      var q := dc.rows[i].parent;
      assert IsRow(dc.rows, i, q);
      if q != n { assert SameRows(db.deviceConfig.rows, dc.rows, q); }
    }
  }

  lemma NewDeviceFrame(db: Db, row: DeviceRow, dc: Table<KeyValue>)
    requires Valid(db)
    requires forall q :: q != db.devices.next ==> SameRows(db.deviceConfig.rows, dc.rows, q)
    ensures Frame(db, WithDevice(db, row, dc), row.container)
  {
    var u := WithDevice(db, row, dc);
    forall q | q != row.container ensures SameFor(db, u, q) {
      forall d | IsDevice(db, d, q) || IsDevice(u, d, q)
        ensures d in db.devices.rows && d in u.devices.rows && db.devices.rows[d] == u.devices.rows[d]
        ensures SameRows(db.deviceConfig.rows, u.deviceConfig.rows, d)
      {
        assert d != db.devices.next;
      }
    }
  }

  lemma NewDeviceReads(db: Db, row: DeviceRow, dc: Table<KeyValue>, devs: map<string, Device>, v: Device)
    requires Valid(db)
    requires DevicesAre(db, row.container, devs)
    requires row.name !in devs
    requires "type" in v && DeviceTypeToInt(v["type"]) == Some(row.dtype)
    requires forall q :: q != db.devices.next ==> SameRows(db.deviceConfig.rows, dc.rows, q)
    requires Reads(dc.rows, db.devices.next, v - {"type"})
    ensures DevicesAre(WithDevice(db, row, dc), row.container, devs[row.name := v])
  {
    var n, id, u := db.devices.next, row.container, WithDevice(db, row, dc);
    var devs' := devs[row.name := v];
    DeviceTypesRoundTrip(v["type"], row.dtype);
    forall d | IsDevice(u, d, id)
      ensures u.devices.rows[d].name in devs' && DeviceIs(u, d, devs'[u.devices.rows[d].name])
    {
      if d != n {
        assert IsDevice(db, d, id) && SameRows(db.deviceConfig.rows, dc.rows, d);
        SameRowsRead(db.deviceConfig.rows, dc.rows, d, devs[db.devices.rows[d].name] - {"type"});
      }
    }
    forall k | k in devs' ensures exists d :: IsDevice(u, d, id) && u.devices.rows[d].name == k {
      if k == row.name {
        assert IsDevice(u, n, id);
      } else {
        var d :| IsDevice(db, d, id) && db.devices.rows[d].name == k;
        assert IsDevice(u, d, id) && u.devices.rows[d].name == k;
      }
    }
  }

  // -------------------------------------------------------------------- deletes

  function Without<T>(t: Table<T>, gone: set<int>): Table<T> {
    Table(t.rows - gone, t.next)
  }

  // All rows of container `id` below the containers table are gone.
  function Cleared(db: Db, id: int): Db {
    var devices := set d | d in db.devices.rows && db.devices.rows[d].container == id;
    db.(config := Without(db.config, set i | i in db.config.rows && db.config.rows[i].parent == id),
        links := Without(db.links, set l | l in db.links.rows && db.links.rows[l].container == id),
        deviceConfig := Without(db.deviceConfig, set i | i in db.deviceConfig.rows &&
            db.deviceConfig.rows[i].parent in devices),
        devices := Without(db.devices, devices))
  }

  lemma ClearedIsValid(db: Db, id: int)
    requires Valid(db)
    ensures Valid(Cleared(db, id))
  {
  }

  lemma ClearedFrame(db: Db, id: int)
    requires Valid(db)
    ensures Frame(db, Cleared(db, id), id)
    ensures Reads(Cleared(db, id).config.rows, id, map[])
    ensures forall l :: !IsLink(Cleared(db, id), l, id)
    ensures forall d :: !IsDevice(Cleared(db, id), d, id)
  {
    var u := Cleared(db, id);
    forall q | q != id ensures SameFor(db, u, q) {
      forall d | IsDevice(db, d, q) || IsDevice(u, d, q)
        ensures d in db.devices.rows && d in u.devices.rows && db.devices.rows[d] == u.devices.rows[d]
        ensures SameRows(db.deviceConfig.rows, u.deviceConfig.rows, d)
      {
      }
    }
  }

  lemma DroppedContainer(db: Db, id: int)
    requires Valid(db)
    ensures var u := Cleared(db, id).(containers := Without(db.containers, {id}));
            Valid(u) && Frame(db, u, id)
  {
    var c := Cleared(db, id);
    var u := c.(containers := Without(db.containers, {id}));
    ClearedIsValid(db, id);
    ClearedFrame(db, id);
    assert UniqueLinks(u) && UniqueDevices(u);
    forall i | i in u.config.rows ensures u.config.rows[i].parent in u.containers.rows {
      assert !IsRow(c.config.rows, i, id);
    }
    forall q | q != id ensures SameFor(db, u, q) {
      assert SameFor(db, c, q);
    }
  }
}
