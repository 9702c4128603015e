// Runs of the allocator: containers are created, reconfigured and deleted, each
// search finding and recording its base as one step.
module IdmapRuns {
  import opened Wrappers
  import opened Idmap

  datatype Host = Host(hostid: int, maprange: int)

  // The keys of a container's expanded config that matter here. `size` is
  // security.idmap.size (None for unset or "auto"), `base` volatile.idmap.base.
  datatype Container = Container(privileged: bool, isolated: bool, size: Option<nat>, base: int)

  type Containers = map<string, Container>

  function Start(host: Host): int { host.hostid + 65536 }

  function Limit(host: Host): int { host.hostid + host.maprange }

  predicate Owns(c: Container) { !c.privileged && c.isolated }

  // idmapSize for an isolated container.
  function IdmapSize(size: Option<nat>): nat {
    if size.None? then 65536 else size.value
  }

  function RangeOf(name: string, c: Container): Entry {
    Entry(name, c.base, IdmapSize(c.size))
  }

  // The ranges, among those of the containers in `names`, that a search for
  // `name` has to avoid.
  ghost function TakenAmong(cs: Containers, names: set<string>, name: string): set<Entry>
    requires names <= cs.Keys
  {
    set n | n in names && n != name && Owns(cs[n]) :: RangeOf(n, cs[n])
  }

  ghost function Taken(cs: Containers, name: string): set<Entry> {
    TakenAmong(cs, cs.Keys, name)
  }

  // `es` lists exactly those ranges, each once.
  ghost predicate ListsTaken(es: seq<Entry>, cs: Containers, names: set<string>, name: string)
    requires names <= cs.Keys
  {
    multiset(es) == multiset(TakenAmong(cs, names, name))
  }

  lemma ListsTakenGrows(es: seq<Entry>, cs: Containers, names: set<string>, name: string, n: string)
    requires names <= cs.Keys && n in cs.Keys && n !in names
    requires ListsTaken(es, cs, names, name)
    ensures ListsTaken(if n != name && Owns(cs[n]) then es + [RangeOf(n, cs[n])] else es, cs, names + {n}, name)
  {
  }

  // `r` is a possible answer of the search: some order of equal bases gives it.
  ghost predicate MayFind(host: Host, cs: Containers, name: string, size: int, r: Option<int>) {
    exists es: seq<Entry> ::
      && ListsTaken(es, cs, cs.Keys, name)
      && SortedByHostid(es)
      && r == FirstFit(Start(host), es, Limit(host), size)
  }

  // The effect of computing and recording the id map of `name`.
  ghost predicate Assigned(host: Host, cs: Containers, name: string, want: Container, cs': Containers) {
    if !Owns(want) then cs' == cs[name := want.(base := 0)]
    else exists r ::
        && MayFind(host, cs, name, IdmapSize(want.size), r)
        && cs' == if r.Some? then cs[name := want.(base := r.value)] else cs
  }

  datatype Op =
    | Create(name: string, want: Container)
    | Update(name: string, want: Container, rawChanged: bool)
    | Delete(name: string)

  ghost predicate Step(host: Host, cs: Containers, op: Op, cs': Containers) {
    match op
    case Create(name, want) =>
      if name in cs then cs' == cs else Assigned(host, cs, name, want, cs')
    case Update(name, want, rawChanged) =>
      if name !in cs || (!rawChanged && want.(base := cs[name].base) == cs[name]) then cs' == cs
      else Assigned(host, cs, name, want, cs')
    case Delete(name) => cs' == cs - {name}
  }

  // ---------------------------------------------------------------- the code

  class Daemon {
    const host: Host
    var containers: Containers

    constructor (host: Host)
      ensures this.host == host && containers == map[]
    {
      this.host := host;
      containers := map[];
    }

    // The loop over the container list, in any order.
    method CollectEntries(name: string) returns (mapentries: seq<Entry>)
      ensures ListsTaken(mapentries, containers, containers.Keys, name)
    {
      mapentries := [];
      var cs := containers.Keys;
      ghost var done: set<string> := {};
      while cs != {}
        invariant done + cs == containers.Keys && done !! cs
        invariant ListsTaken(mapentries, containers, done, name)
        decreases cs
      {
        var n :| n in cs;
        ListsTakenGrows(mapentries, containers, done, name, n);
        cs, done := cs - {n}, done + {n};
        if n != name && Owns(containers[n]) {
          mapentries := mapentries + [RangeOf(n, containers[n])];
        }
      }
      assert done == containers.Keys;
    }

    // Collect the other isolated containers, sort them, and scan.
    method FindIdmap(name: string, size: nat) returns (r: Option<int>)
      ensures MayFind(host, containers, name, size, r)
    {
      var mapentries := CollectEntries(name);
      var es := SortByHostid(mapentries);
      assert ListsTaken(es, containers, containers.Keys, name);
      r := FindOffset(es, host.hostid, host.maprange, size);
    }

    // The idmap part of containerMERCURYCreate and Update: false means that the
    // search failed and the container was deleted again, or the change undone.
    method Assign(name: string, want: Container) returns (ok: bool)
      modifies this
      ensures Assigned(host, old(containers), name, want, containers)
      ensures !ok ==> containers == old(containers) && Owns(want)
      ensures ok ==> name in containers && containers[name] == want.(base := containers[name].base)
    {
      var base := 0;
      if !want.privileged && want.isolated {
        var r := FindIdmap(name, IdmapSize(want.size));
        if r.None? {
          return false;
        }
        base := r.value;
      }
      containers := containers[name := want.(base := base)];
      return true;
    }

    method Create(name: string, want: Container) returns (ok: bool)
      modifies this
      ensures Step(host, old(containers), Op.Create(name, want), containers)
      ensures ok <==> name !in old(containers) && name in containers
    {
      if name in containers {
        return false;
      }
      ok := Assign(name, want);
    }

    method Update(name: string, want: Container, rawChanged: bool) returns (ok: bool)
      modifies this
      ensures Step(host, old(containers), Op.Update(name, want, rawChanged), containers)
      ensures ok ==> name in containers && containers[name] == want.(base := containers[name].base)
      ensures !ok ==> containers == old(containers)
    {
      if name !in containers {
        return false;
      }
      if !rawChanged && want.(base := containers[name].base) == containers[name] {
        return true;
      }
      ok := Assign(name, want);
    }

    method Delete(name: string)
      modifies this
      ensures Step(host, old(containers), Op.Delete(name), containers)
    {
      containers := containers - {name};
    }
  }

  // -------------------------------------------------------------- the invariant

  ghost predicate NoOverlap(cs: Containers) {
    forall a, b :: a in cs && b in cs && a != b && Owns(cs[a]) && Owns(cs[b])
                   ==> !Overlap(RangeOf(a, cs[a]), RangeOf(b, cs[b]))
  }

  ghost predicate AllInside(host: Host, cs: Containers) {
    forall a :: a in cs && Owns(cs[a])
                ==> Start(host) <= cs[a].base && End(RangeOf(a, cs[a])) <= Limit(host)
  }

  ghost predicate PositiveSizes(cs: Containers) {
    forall a :: a in cs && Owns(cs[a]) ==> IdmapSize(cs[a].size) > 0
  }

  lemma ElementsOfSetAreDistinct<T>(es: seq<T>, s: set<T>, i: nat, j: nat)
    requires multiset(es) == multiset(s) && i < j < |es|
    ensures es[i] != es[j]
  {
    assert es == es[..j] + [es[j]] + es[j + 1..];
    assert es[i] in es[..j];
    assert multiset(es) == multiset(es[..j]) + multiset{es[j]} + multiset(es[j + 1..]);
    assert multiset(s)[es[j]] <= 1;
  }

  // Whatever order the sort gives, the entries are those of the other containers.
  lemma TakenIsSeparate(host: Host, cs: Containers, name: string, es: seq<Entry>)
    requires NoOverlap(cs) && AllInside(host, cs) && PositiveSizes(cs)
    requires ListsTaken(es, cs, cs.Keys, name)
    ensures Separate(Start(host), Limit(host), es)
  {
    forall e | e in es
      ensures e in Taken(cs, name)
    {
      assert e in multiset(es);
    }
    forall i, j | 0 <= i < j < |es|
      ensures !Overlap(es[i], es[j])
    {
      ElementsOfSetAreDistinct(es, Taken(cs, name), i, j);
      assert es[i] in Taken(cs, name) && es[j] in Taken(cs, name);
    }
  }

  lemma AssignedKeepsRangesApart(host: Host, cs: Containers, name: string, want: Container, cs': Containers)
    requires NoOverlap(cs) && AllInside(host, cs) && PositiveSizes(cs)
    requires Assigned(host, cs, name, want, cs') && IdmapSize(want.size) > 0
    ensures NoOverlap(cs') && AllInside(host, cs') && PositiveSizes(cs')
  {
    if Owns(want) && cs' != cs {
      var size := IdmapSize(want.size);
      var r :| MayFind(host, cs, name, size, r) && cs' == if r.Some? then cs[name := want.(base := r.value)] else cs;
      var es: seq<Entry> :| ListsTaken(es, cs, cs.Keys, name) && SortedByHostid(es)
                            && r == FirstFit(Start(host), es, Limit(host), size);
      TakenIsSeparate(host, cs, name, es);
      FirstFitIsSafe(Start(host), es, Limit(host), size);
      var mine := RangeOf(name, cs'[name]);
      forall a | a in cs' && a != name && Owns(cs'[a])
        ensures !Overlap(RangeOf(a, cs'[a]), mine) && !Overlap(mine, RangeOf(a, cs'[a]))
      {
        var e := RangeOf(a, cs[a]);
        assert e in Taken(cs, name) && e in multiset(es) && e in es;
      }
    }
  }

  // Deleting a container gives its ids back: whatever searches next for a smaller
  // size finds room, at the deleted base or before it.
  lemma DeletedRangeIsFound(host: Host, cs: Containers, gone: string, cs': Containers, name: string, size: nat,
                            r: Option<int>)
    requires NoOverlap(cs) && AllInside(host, cs) && PositiveSizes(cs)
    requires gone in cs && Owns(cs[gone]) && size < IdmapSize(cs[gone].size)
    requires Step(host, cs, Delete(gone), cs')
    requires MayFind(host, cs', name, size, r)
    ensures r.Some? && r.value <= cs[gone].base
    ensures NoOverlap(cs') && AllInside(host, cs') && PositiveSizes(cs')
  {
    var es: seq<Entry> :| ListsTaken(es, cs', cs'.Keys, name) && SortedByHostid(es)
                          && r == FirstFit(Start(host), es, Limit(host), size);
    var w := cs[gone].base;
    TakenIsSeparate(host, cs', name, es);
    forall e | e in es ensures exists n :: n in cs' && Owns(cs'[n]) && e == RangeOf(n, cs'[n]) {
      assert e in multiset(es) && e in Taken(cs', name);
    }
    forall e, id | e in es && w <= id < w + size + 1 ensures !Holds(e, id) {
      var n :| n in cs' && Owns(cs'[n]) && e == RangeOf(n, cs'[n]);
      assert !Overlap(RangeOf(gone, cs[gone]), RangeOf(n, cs[n]));
      assert Holds(RangeOf(gone, cs[gone]), id);
    }
    FirstFitIsFirst(Start(host), es, Limit(host), size, w);
  }

  function SizeOf(op: Op): Option<nat> {
    if op.Delete? then None else Some(IdmapSize(op.want.size))
  }

  // A run from a host without containers: states[i + 1] follows states[i] by ops[i].
  ghost predicate Run(host: Host, ops: seq<Op>, states: seq<Containers>) {
    && |states| == |ops| + 1
    && states[0] == map[]
    && forall i :: 0 <= i < |ops| ==> Step(host, states[i], ops[i], states[i + 1])
  }

  ghost predicate UsesSizes(ops: seq<Op>, sizes: iset<nat>) {
    forall op :: op in ops && SizeOf(op).Some? ==> SizeOf(op).value in sizes
  }

  // In every run with positive sizes, at every moment, the isolated containers
  // own disjoint ranges inside [Hostid + 65536, Hostid + Maprange).
  lemma {:induction false} RunsKeepRangesApart(host: Host, ops: seq<Op>, states: seq<Containers>, k: nat)
    requires Run(host, ops, states) && k <= |ops|
    requires forall op :: op in ops && SizeOf(op).Some? ==> SizeOf(op).value > 0
    ensures NoOverlap(states[k]) && AllInside(host, states[k]) && PositiveSizes(states[k])
  {
    if k > 0 {
      RunsKeepRangesApart(host, ops, states, k - 1);
      var op := ops[k - 1];
      assert op in ops && Step(host, states[k - 1], op, states[k - 1 + 1]);
      if !op.Delete? && states[k] != states[k - 1] {
        AssignedKeepsRangesApart(host, states[k - 1], op.name, op.want, states[k]);
      }
    }
  }

  // ---------------------------------------------------------- in plain numbers

  // The container has a range of its own with this id in it; an unset size stands
  // for 65536.
  predicate UsesId(c: Container, id: int) {
    !c.privileged && c.isolated && c.base <= id < c.base + (if c.size.None? then 65536 else c.size.value)
  }

  ghost predicate NobodyIn(cs: Containers, name: string, w: int, len: int) {
    forall b, id :: b in cs && b != name && w <= id < w + len ==> !UsesId(cs[b], id)
  }

  // What each container was given: 65536 ids, or as many as it asks for, above the
  // first 65536 of the map and within it, with none of them in use by another.
  lemma RangesAreAsAsked(host: Host, ops: seq<Op>, states: seq<Containers>, k: nat, a: string)
    requires Run(host, ops, states) && k <= |ops|
    requires forall op :: op in ops && !op.Delete? ==> op.want.size != Some(0)
    requires a in states[k] && !states[k][a].privileged && states[k][a].isolated
    ensures var c, n := states[k][a], if states[k][a].size.None? then 65536 else states[k][a].size.value;
            && host.hostid + 65536 <= c.base && c.base + n <= host.hostid + host.maprange
            && NobodyIn(states[k], a, c.base, n)
  {
    RunsKeepRangesApart(host, ops, states, k);
    var cs := states[k];
    var n := if cs[a].size.None? then 65536 else cs[a].size.value;
    forall b, id | b in cs && b != a && cs[a].base <= id < cs[a].base + n ensures !UsesId(cs[b], id) {
      if Owns(cs[b]) {
        assert !Overlap(RangeOf(a, cs[a]), RangeOf(b, cs[b]));
        assert Holds(RangeOf(a, cs[a]), id);
      }
    }
  }

  // There is room at w, in the map and with one id to spare.
  ghost predicate RoomAt(host: Host, cs: Containers, name: string, w: int, size: Option<nat>) {
    var n := if size.None? then 65536 else size.value;
    host.hostid + 65536 <= w && w + n + 1 <= host.hostid + host.maprange && NobodyIn(cs, name, w, n + 1)
  }

  ghost predicate FirstRange(cs: Containers, name: string, b: string) {
    && b in cs && b != name && !cs[b].privileged && cs[b].isolated
    && forall c :: c in cs && c != name && !cs[c].privileged && cs[c].isolated ==> cs[b].base <= cs[c].base
  }

  // The ids before the first range of the others are exactly enough.
  ghost predicate ExactGap(host: Host, cs: Containers, name: string, size: Option<nat>) {
    exists b :: FirstRange(cs, name, b) &&
        cs[b].base == host.hostid + 65536 + (if size.None? then 65536 else size.value)
  }

  // The entries of the others stand for the ids that they use.
  lemma FreeIsNobody(cs: Containers, name: string, es: seq<Entry>, w: int, len: int)
    requires ListsTaken(es, cs, cs.Keys, name)
    ensures Free(w, len, es) <==> NobodyIn(cs, name, w, len)
  {
    if Free(w, len, es) {
      forall b, id | b in cs && b != name && w <= id < w + len ensures !UsesId(cs[b], id) {
        if Owns(cs[b]) {
          assert RangeOf(b, cs[b]) in Taken(cs, name) && RangeOf(b, cs[b]) in multiset(es);
          assert !Holds(RangeOf(b, cs[b]), id);
        }
      }
    }
    if NobodyIn(cs, name, w, len) {
      forall e, id | e in es && w <= id < w + len ensures !Holds(e, id) {
        assert e in multiset(es) && e in Taken(cs, name);
        var b :| b in cs && b != name && Owns(cs[b]) && e == RangeOf(b, cs[b]);
        assert !UsesId(cs[b], id);
      }
    }
  }

  lemma FirstIsFirst(cs: Containers, name: string, es: seq<Entry>, base: int)
    requires ListsTaken(es, cs, cs.Keys, name)
    requires SortedByHostid(es)
    ensures es != [] && es[0].base == base <==> exists b :: FirstRange(cs, name, b) && cs[b].base == base
  {
    if es != [] {
      assert es[0] in multiset(es) && es[0] in Taken(cs, name);
      var b :| b in cs && b != name && Owns(cs[b]) && es[0] == RangeOf(b, cs[b]);
      forall c | c in cs && c != name && !cs[c].privileged && cs[c].isolated ensures es[0].base <= cs[c].base {
        assert RangeOf(c, cs[c]) in Taken(cs, name) && RangeOf(c, cs[c]) in multiset(es);
        var i :| 0 <= i < |es| && es[i] == RangeOf(c, cs[c]);
      }
      assert FirstRange(cs, name, b);
    }
    if b :| FirstRange(cs, name, b) && cs[b].base == base {
      assert RangeOf(b, cs[b]) in Taken(cs, name) && RangeOf(b, cs[b]) in multiset(es);
    }
  }

  lemma RoomIsFree(host: Host, cs: Containers, name: string, es: seq<Entry>, w: int, size: Option<nat>)
    requires ListsTaken(es, cs, cs.Keys, name)
    ensures FreeWithin(w, IdmapSize(size) + 1, es, Start(host), Limit(host)) <==> RoomAt(host, cs, name, w, size)
  {
    FreeIsNobody(cs, name, es, w, IdmapSize(size) + 1);
  }

  // The search succeeds exactly when there is room, or the ids before the first
  // range are exactly enough; and it takes no id after a place with room.
  lemma FindsExactly(host: Host, cs: Containers, name: string, size: Option<nat>, r: Option<int>)
    requires NoOverlap(cs) && AllInside(host, cs) && PositiveSizes(cs)
    requires MayFind(host, cs, name, IdmapSize(size), r)
    ensures r.Some? <==> ExactGap(host, cs, name, size) || exists w :: RoomAt(host, cs, name, w, size)
    ensures r.Some? ==> forall w :: RoomAt(host, cs, name, w, size) ==> r.value <= w
  {
    var n := IdmapSize(size);
    var es: seq<Entry> :| ListsTaken(es, cs, cs.Keys, name) && SortedByHostid(es)
                          && r == FirstFit(Start(host), es, Limit(host), n);
    TakenIsSeparate(host, cs, name, es);
    FitsExactly(Start(host), es, Limit(host), n);
    FirstIsFirst(cs, name, es, Start(host) + n);
    if HasRoom(Start(host), es, Limit(host), n + 1) {
      var w :| FreeWithin(w, n + 1, es, Start(host), Limit(host));
      RoomIsFree(host, cs, name, es, w, size);
    }
    forall w | RoomAt(host, cs, name, w, size) ensures r.Some? && r.value <= w {
      RoomIsFree(host, cs, name, es, w, size);
      FirstFitIsFirst(Start(host), es, Limit(host), n, w);
    }
  }

  // So a creation, or a change of the keys that matter, succeeds exactly then, and
  // changes nothing otherwise.
  lemma SucceedsExactly(host: Host, cs: Containers, op: Op, cs': Containers)
    requires NoOverlap(cs) && AllInside(host, cs) && PositiveSizes(cs)
    requires Step(host, cs, op, cs')
    requires !op.Delete? && !op.want.privileged && op.want.isolated
    requires if op.Create? then op.name !in cs else op.name in cs && op.want.(base := cs[op.name].base) != cs[op.name]
    ensures cs' != cs <==>
              ExactGap(host, cs, op.name, op.want.size) || exists w :: RoomAt(host, cs, op.name, w, op.want.size)
    ensures cs' != cs ==> op.name in cs' && cs' == cs[op.name := op.want.(base := cs'[op.name].base)]
    ensures cs' != cs ==> forall w :: RoomAt(host, cs, op.name, w, op.want.size) ==> cs'[op.name].base <= w
  {
    var r :| MayFind(host, cs, op.name, IdmapSize(op.want.size), r) &&
             cs' == if r.Some? then cs[op.name := op.want.(base := r.value)] else cs;
    FindsExactly(host, cs, op.name, op.want.size, r);
    if r.Some? { assert cs'[op.name].base == r.value; }
  }

  // What one step leaves alone.
  lemma StepTouchesOne(host: Host, cs: Containers, op: Op, cs': Containers, b: string)
    requires Step(host, cs, op, cs')
    ensures b != op.name ==> (b in cs <==> b in cs') && (b in cs && b in cs' ==> cs'[b] == cs[b])
    ensures op.Delete? ==> op.name !in cs'
    ensures op.Create? && op.name in cs ==> cs' == cs
    ensures op.Update? && op.name !in cs ==> cs' == cs
    ensures op.Update? && op.name in cs && !op.rawChanged && op.want.(base := cs[op.name].base) == cs[op.name] ==>
              cs' == cs
  {
  }

  // A container that needs no range of its own is taken on as it is, with base 0.
  lemma NoRangeNoSearch(host: Host, cs: Containers, op: Op, cs': Containers)
    requires Step(host, cs, op, cs')
    requires !op.Delete? && (op.want.privileged || !op.want.isolated)
    requires op.Create? ==> op.name !in cs
    requires op.Update? ==> op.name in cs && (op.rawChanged || op.want.(base := cs[op.name].base) != cs[op.name])
    ensures cs' == cs[op.name := op.want.(base := 0)]
  {
  }

  // ------------------------------------------------ exactly which sizes are safe

  function AtStart(host: Host, size: nat): Container {
    Container(false, true, Some(size), Start(host))
  }

  // A search with all earlier bases at the very start, the last one empty,
  // answers with the start again.
  lemma CreatedAtStart(host: Host, cs: Containers, name: string, es: seq<Entry>, size: nat)
    requires name !in cs && ListsTaken(es, cs, cs.Keys, name)
    requires |es| <= 2 && (forall e :: e in es ==> e.base == Start(host) && e.size >= 0)
    requires es != [] ==> es[|es| - 1].size == 0 && size > 0
    requires 65536 + size < host.maprange
    ensures Step(host, cs, Create(name, AtStart(host, size)), cs[name := AtStart(host, size)])
  {
    if |es| > 0 { assert es[0] in es; }
    if |es| == 2 {
      assert es[1] in es && es[1..] == [es[1]];
      assert GapScan(End(es[0]), [es[1]], Limit(host), size) == GapScan(End(es[1]), [], Limit(host), size);
    }
    assert FirstFit(Start(host), es, Limit(host), size) == Some(Start(host));
    assert MayFind(host, cs, name, size, Some(Start(host)));
  }

  lemma SecondCreated(host: Host, s: nat)
    requires s > 0 && 65536 + s < host.maprange
    ensures var one := map["z" := AtStart(host, 0)];
            Step(host, one, Create("a", AtStart(host, s)), one["a" := AtStart(host, s)])
  {
    var one := map["z" := AtStart(host, 0)];
    assert ListsTaken([], one, {}, "a");
    ListsTakenGrows([], one, {}, "a", "z");
    assert one.Keys == {} + {"z"};
    CreatedAtStart(host, one, "a", [] + [RangeOf("z", one["z"])], s);
  }

  lemma ThirdCreated(host: Host, s: nat)
    requires s > 0 && 65536 + s < host.maprange
    ensures var two := map["z" := AtStart(host, 0)]["a" := AtStart(host, s)];
            Step(host, two, Create("c", AtStart(host, s)), two["c" := AtStart(host, s)])
  {
    var two := map["z" := AtStart(host, 0)]["a" := AtStart(host, s)];
    assert ListsTaken([], two, {}, "c");
    ListsTakenGrows([], two, {}, "c", "a");
    ListsTakenGrows([] + [RangeOf("a", two["a"])], two, {} + {"a"}, "c", "z");
    assert two.Keys == {} + {"a"} + {"z"};
    CreatedAtStart(host, two, "c", [] + [RangeOf("a", two["a"])] + [RangeOf("z", two["z"])], s);
  }

  lemma FirstCreated(host: Host)
    requires 65536 < host.maprange
    ensures Step(host, map[], Create("z", AtStart(host, 0)), map["z" := AtStart(host, 0)])
  {
    assert ListsTaken([], map[], {}, "z");
    CreatedAtStart(host, map[], "z", [], 0);
  }

  // Zero is a legal security.idmap.size, and then an order of equal bases exists
  // in which the scan steps back over a range.
  lemma ZeroSizeCanOverlap(host: Host, s: nat) returns (ops: seq<Op>, states: seq<Containers>)
    requires s > 0 && 65536 + s < host.maprange
    ensures Run(host, ops, states) && UsesSizes(ops, iset{0, s}) && |ops| == 3
    ensures !NoOverlap(states[3])
  {
    var zero, full := AtStart(host, 0), AtStart(host, s);
    var one := map["z" := zero];
    var two := one["a" := full];
    FirstCreated(host);
    SecondCreated(host, s);
    ThirdCreated(host, s);
    ops := [Create("z", zero), Create("a", full), Create("c", full)];
    states := [map[], one, two, two["c" := full]];
    assert Holds(RangeOf("a", full), Start(host)) && Holds(RangeOf("c", full), Start(host));
    assert states[3]["a"] == full && states[3]["c"] == full;
  }

  // When no positive size fits, every range is empty and sits at the start.
  ghost predicate OnlyEmpty(host: Host, cs: Containers) {
    forall a :: a in cs && Owns(cs[a]) ==> cs[a].base == Start(host) && IdmapSize(cs[a].size) == 0
  }

  lemma {:induction false} ScanOverEmptyRanges(host: Host, es: seq<Entry>, size: int)
    requires forall e :: e in es ==> e.base == Start(host) && e.size == 0
    requires size >= 0
    ensures GapScan(Start(host), es, Limit(host), size)
         == if Start(host) + size < Limit(host) then Some(Start(host)) else None
  {
    if es != [] {
      assert es[0] in es;
      ScanOverEmptyRanges(host, es[1..], size);
    }
  }

  lemma EmptyRangesFind(host: Host, cs: Containers, name: string, size: int, r: Option<int>)
    requires OnlyEmpty(host, cs)
    requires size >= 0
    requires MayFind(host, cs, name, size, r)
    ensures r.Some? ==> r.value == Start(host)
    ensures r.Some? && size > 0 ==> Start(host) + size < Limit(host)
  {
    var es: seq<Entry> :| ListsTaken(es, cs, cs.Keys, name) && SortedByHostid(es)
                          && r == FirstFit(Start(host), es, Limit(host), size);
    forall e | e in es
      ensures e.base == Start(host) && e.size == 0
    {
      assert e in multiset(es) && e in Taken(cs, name);
    }
    if es != [] {
      assert es[0] in es;
      ScanOverEmptyRanges(host, es[1..], size);
    }
  }

  lemma SearchOverEmptyRanges(host: Host, cs: Containers, name: string, want: Container, cs': Containers)
    requires OnlyEmpty(host, cs) && Owns(want) && cs' != cs && Assigned(host, cs, name, want, cs')
    requires IdmapSize(want.size) > 0 ==> 65536 + IdmapSize(want.size) >= host.maprange
    ensures OnlyEmpty(host, cs')
  {
    var size := IdmapSize(want.size);
    var r :| MayFind(host, cs, name, size, r) && cs' == if r.Some? then cs[name := want.(base := r.value)] else cs;
    EmptyRangesFind(host, cs, name, size, r);
  }

  lemma {:induction false} UnfittingSizesStayEmpty(host: Host, sizes: iset<nat>, ops: seq<Op>, states: seq<Containers>,
                                                   k: nat)
    requires Run(host, ops, states) && k <= |ops| && UsesSizes(ops, sizes)
    requires forall s :: s in sizes && s > 0 ==> 65536 + s >= host.maprange
    ensures OnlyEmpty(host, states[k])
  {
    if k > 0 {
      UnfittingSizesStayEmpty(host, sizes, ops, states, k - 1);
      var cs, op := states[k - 1], ops[k - 1];
      assert op in ops && Step(host, cs, op, states[k - 1 + 1]);
      if !op.Delete? && states[k] != cs && Owns(op.want) {
        assert SizeOf(op).value in sizes;
        SearchOverEmptyRanges(host, cs, op.name, op.want, states[k]);
      }
    }
  }

  // The exact condition: with sizes drawn from `sizes`, some run makes two
  // containers share an id if and only if zero is allowed next to a positive
  // size that fits the map.
  lemma OverlapNeedsZeroSize(host: Host, sizes: iset<nat>)
    ensures (exists ops, states, k ::
               Run(host, ops, states) && UsesSizes(ops, sizes) && 0 <= k <= |ops| && !NoOverlap(states[k]))
       <==> (0 in sizes && exists s :: s in sizes && s > 0 && 65536 + s < host.maprange)
  {
    if 0 in sizes && exists s :: s in sizes && s > 0 && 65536 + s < host.maprange {
      var s :| s in sizes && s > 0 && 65536 + s < host.maprange;
      var ops, states := ZeroSizeCanOverlap(host, s);
      assert Run(host, ops, states) && UsesSizes(ops, sizes) && |ops| == 3 && !NoOverlap(states[3]);
    } else {
      forall ops, states, k | Run(host, ops, states) && UsesSizes(ops, sizes) && 0 <= k <= |ops|
        ensures NoOverlap(states[k])
      {
        if 0 !in sizes {
          RunsKeepRangesApart(host, ops, states, k);
        } else {
          UnfittingSizesStayEmpty(host, sizes, ops, states, k);
        }
      }
    }
  }
}
