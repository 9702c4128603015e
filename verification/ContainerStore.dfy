// The container tables (apollo/db_containers.go, apollo/db_devices.go) over the
// schema of apollo/db.go. Statements fail on the schema's constraints only.
module ContainerStore {
  import opened Wrappers
  import opened Tables

  datatype ContainerType = Regular | Snapshot

  type Device = map<string, string>

  // containerArgs, as created and as read back.
  datatype Args = Args(
    name: string, description: string, architecture: int, ctype: ContainerType, ephemeral: bool, stateful: bool,
    config: map<string, string>, profiles: seq<string>, devices: map<string, Device>)

  datatype ContainerRow = ContainerRow(
    name: string, description: string, architecture: int, ctype: ContainerType, ephemeral: bool, stateful: bool)

  datatype LinkRow = LinkRow(container: int, profile: int, order: int)

  datatype DeviceRow = DeviceRow(container: int, name: string, dtype: int)

  // `profiles` maps the ids of the profiles table to their names.
  datatype Db = Db(
    containers: Table<ContainerRow>, config: Table<KeyValue>, links: Table<LinkRow>,
    devices: Table<DeviceRow>, deviceConfig: Table<KeyValue>, profiles: map<int, string>)

  datatype DbError = AlreadyDefined | NoSuchObject | ConstraintFailed | InvalidDeviceType

  function DeviceTypeToInt(t: string): Option<int> {
    if t == "none" then Some(0)
    else if t == "nic" then Some(1)
    else if t == "disk" then Some(2)
    else if t == "unix-char" then Some(3)
    else if t == "unix-block" then Some(4)
    else if t == "usb" then Some(5)
    else if t == "gpu" then Some(6)
    else None
  }

  function DeviceTypeToString(t: int): Option<string> {
    match t
    case 0 => Some("none")
    case 1 => Some("nic")
    case 2 => Some("disk")
    case 3 => Some("unix-char")
    case 4 => Some("unix-block")
    case 5 => Some("usb")
    case 6 => Some("gpu")
    case _ => None
  }

  // Names and numbers correspond one to one, and in just this way.
  lemma DeviceTypesRoundTrip(t: string, n: int)
    ensures DeviceTypeToInt(t) == Some(n) <==> DeviceTypeToString(n) == Some(t)
    ensures DeviceTypeToInt(t) == Some(n) <==>
              || (t == "none" && n == 0) || (t == "nic" && n == 1) || (t == "disk" && n == 2)
              || (t == "unix-char" && n == 3) || (t == "unix-block" && n == 4) || (t == "usb" && n == 5)
              || (t == "gpu" && n == 6)
  {
  }

  // ---------------------------------------------------------------- the schema

  predicate IsLink(db: Db, l: int, id: int) { l in db.links.rows && db.links.rows[l].container == id }

  predicate IsDevice(db: Db, d: int, id: int) { d in db.devices.rows && db.devices.rows[d].container == id }

  ghost predicate UniqueNames(rows: map<int, ContainerRow>) {
    forall i, j :: i in rows && j in rows && rows[i].name == rows[j].name ==> i == j
  }

  predicate LinksClash(a: LinkRow, b: LinkRow) {
    a.container == b.container && (a.profile == b.profile || a.order == b.order)
  }

  ghost predicate UniqueLinks(db: Db) {
    forall i, j :: i in db.links.rows && j in db.links.rows && LinksClash(db.links.rows[i], db.links.rows[j]) ==> i == j
  }

  predicate DevicesClash(a: DeviceRow, b: DeviceRow) { a.container == b.container && a.name == b.name }

  ghost predicate UniqueDevices(db: Db) {
    forall i, j ::
      i in db.devices.rows && j in db.devices.rows && DevicesClash(db.devices.rows[i], db.devices.rows[j]) ==> i == j
  }

  // UNIQUE and FOREIGN KEY constraints, and what the inserts add to them: known
  // device types, no stored "type" key, distinct apply orders.
  ghost predicate Valid(db: Db) {
    && Fresh(db.containers) && Fresh(db.config) && Fresh(db.links) && Fresh(db.devices) && Fresh(db.deviceConfig)
    && UniqueKeys(db.config.rows) && UniqueKeys(db.deviceConfig.rows)
    && UniqueNames(db.containers.rows)
    && (forall i, j :: i in db.profiles && j in db.profiles && db.profiles[i] == db.profiles[j] ==> i == j)
    && UniqueLinks(db)
    && UniqueDevices(db)
    && (forall i :: i in db.config.rows ==> db.config.rows[i].parent in db.containers.rows)
    && (forall i :: i in db.links.rows ==> db.links.rows[i].container in db.containers.rows)
    && (forall i :: i in db.links.rows ==> db.links.rows[i].profile in db.profiles)
    && (forall i :: i in db.devices.rows ==> db.devices.rows[i].container in db.containers.rows)
    && (forall i :: i in db.devices.rows ==> DeviceTypeToString(db.devices.rows[i].dtype).Some?)
    && (forall i :: i in db.deviceConfig.rows ==> db.deviceConfig.rows[i].parent in db.devices.rows)
    && (forall i :: i in db.deviceConfig.rows ==> db.deviceConfig.rows[i].key != "type")
  }

  // ------------------------------------------------------------- what is stored

  // `ls` are the links of container `id` ORDER BY apply_order.
  ghost predicate OrderedLinks(db: Db, id: int, ls: seq<int>) {
    && (forall k :: 0 <= k < |ls| ==> IsLink(db, ls[k], id))
    && (forall l :: IsLink(db, l, id) ==> l in ls)
    && (forall j, k :: 0 <= j < k < |ls| && IsLink(db, ls[j], id) && IsLink(db, ls[k], id)
                       ==> db.links.rows[ls[j]].order < db.links.rows[ls[k]].order)
  }

  ghost predicate LinksName(db: Db, id: int, ls: seq<int>, ps: seq<string>) {
    && OrderedLinks(db, id, ls)
    && |ls| == |ps|
    && forall k :: 0 <= k < |ls| && IsLink(db, ls[k], id) ==>
         db.links.rows[ls[k]].profile in db.profiles && db.profiles[db.links.rows[ls[k]].profile] == ps[k]
  }

  ghost predicate ProfilesAre(db: Db, id: int, ps: seq<string>) {
    exists ls :: LinksName(db, id, ls, ps)
  }

  // Row `d` and its config stand for the device `dev`.
  ghost predicate DeviceIs(db: Db, d: int, dev: Device)
    requires d in db.devices.rows
  {
    && "type" in dev
    && DeviceTypeToString(db.devices.rows[d].dtype) == Some(dev["type"])
    && Reads(db.deviceConfig.rows, d, dev - {"type"})
  }

  ghost predicate DevicesAre(db: Db, id: int, devs: map<string, Device>) {
    && (forall d :: IsDevice(db, d, id) ==>
        db.devices.rows[d].name in devs && DeviceIs(db, d, devs[db.devices.rows[d].name]))
    && (forall n :: n in devs ==> exists d :: IsDevice(db, d, id) && db.devices.rows[d].name == n)
  }

  ghost predicate StoresAt(db: Db, id: int, args: Args) {
    && id in db.containers.rows
    && db.containers.rows[id] ==
        ContainerRow(args.name, args.description, args.architecture, args.ctype, args.ephemeral, args.stateful)
    && Reads(db.config.rows, id, args.config)
    && ProfilesAre(db, id, args.profiles)
    && DevicesAre(db, id, args.devices)
  }

  // The abstract map: container name to everything read back for it.
  ghost predicate Stores(db: Db, args: Args) {
    exists id :: StoresAt(db, id, args)
  }

  predicate HasName(db: Db, name: string) {
    exists i :: i in db.containers.rows && db.containers.rows[i].name == name
  }

  // ------------------------------------------- the tables determine what is read

  ghost predicate Increasing(order: map<int, int>, a: seq<int>) {
    && (forall k :: 0 <= k < |a| ==> a[k] in order)
    && (forall j, k :: 0 <= j < k < |a| ==> order[a[j]] < order[a[k]])
  }

  lemma TailsExclude(order: map<int, int>, a: seq<int>, z: int)
    requires Increasing(order, a)
    requires a != []
    ensures z in a[1..] <==> z in a && z != a[0]
  {
  }

  // There is one way to sort by distinct orders.
  lemma {:induction false} SortedOneWay(order: map<int, int>, a: seq<int>, b: seq<int>)
    requires Increasing(order, a)
    requires Increasing(order, b)
    requires forall x :: x in a <==> x in b
    ensures a == b
    decreases a
  {
    if a == [] || b == [] {
      var x := if a != [] then a[0] else if b != [] then b[0] else 0;
      assert x in a <==> x in b;
    } else {
      var x, y := a[0], b[0];
      assert x in b && y in a;
      var i :| 0 <= i < |a| && a[i] == y;
      var j :| 0 <= j < |b| && b[j] == x;
      assert x == y;
      assert a == [x] + a[1..] && b == [x] + b[1..];
      forall z ensures z in a[1..] <==> z in b[1..] {
        TailsExclude(order, a, z);
        TailsExclude(order, b, z);
      }
      SortedOneWay(order, a[1..], b[1..]);
    }
  }

  lemma OrderedLinksOnce(db: Db, id: int, a: seq<int>, b: seq<int>)
    requires OrderedLinks(db, id, a)
    requires OrderedLinks(db, id, b)
    ensures a == b
  {
    var order := map l | l in db.links.rows :: db.links.rows[l].order;
    forall s | s == a || s == b ensures Increasing(order, s) {
      assert forall k :: 0 <= k < |s| ==> IsLink(db, s[k], id);
    }
    forall x ensures x in a <==> x in b {
      if x in a { var k :| 0 <= k < |a| && a[k] == x; assert IsLink(db, a[k], id); }
      if x in b { var k :| 0 <= k < |b| && b[k] == x; assert IsLink(db, b[k], id); }
    }
    SortedOneWay(order, a, b);
  }

  lemma ProfilesOnce(db: Db, id: int, ps: seq<string>, ps': seq<string>)
    requires ProfilesAre(db, id, ps)
    requires ProfilesAre(db, id, ps')
    ensures ps == ps'
  {
    var a :| LinksName(db, id, a, ps);
    var b :| LinksName(db, id, b, ps');
    OrderedLinksOnce(db, id, a, b);
    forall k | 0 <= k < |ps| ensures ps[k] == ps'[k] {
      assert IsLink(db, a[k], id);
    }
  }

  lemma DeviceOnce(db: Db, d: int, a: Device, b: Device)
    requires d in db.devices.rows
    requires DeviceIs(db, d, a)
    requires DeviceIs(db, d, b)
    ensures a == b
  {
    ReadsOnce(db.deviceConfig.rows, d, a - {"type"}, b - {"type"});
    forall k | k in a || k in b ensures k in a && k in b && a[k] == b[k] {
      if k != "type" {
        assert k in a - {"type"} <==> k in b - {"type"};
        assert k in a ==> (a - {"type"})[k] == a[k];
        assert k in b ==> (b - {"type"})[k] == b[k];
      }
    }
  }

  lemma DevicesOnce(db: Db, id: int, ds: map<string, Device>, ds': map<string, Device>)
    requires DevicesAre(db, id, ds)
    requires DevicesAre(db, id, ds')
    ensures ds == ds'
  {
    forall n | n in ds || n in ds' ensures n in ds && n in ds' && ds[n] == ds'[n] {
      var d :| IsDevice(db, d, id) && db.devices.rows[d].name == n;
      DeviceOnce(db, d, ds[n], ds'[n]);
    }
  }

  // The tables are a map from names: one name, one reading.
  lemma StoresOnce(db: Db, a: Args, b: Args)
    requires Valid(db)
    requires Stores(db, a)
    requires Stores(db, b)
    requires a.name == b.name
    ensures a == b
  {
    var i :| StoresAt(db, i, a);
    var j :| StoresAt(db, j, b);
    assert i == j;
    ReadsOnce(db.config.rows, i, a.config, b.config);
    ProfilesOnce(db, i, a.profiles, b.profiles);
    DevicesOnce(db, i, a.devices, b.devices);
  }
}
