// What greedy CPU balancing means (apollo/devices.go, deviceTaskBalance), apart
// from the data structures: loads, k-least-loaded choices, runs, and the bounds
// such runs meet.
module CpuLoad {
  // Containers pinned to each CPU, by CPU id.
  type Load = map<int, int>

  // The CPUs given to each balanced container.
  type Pins = map<string, set<int>>

  function Min(x: int, y: int): int { if x < y then x else y }

  function Max(x: int, y: int): int { if x < y then y else x }

  // `chosen` are `k` least loaded CPUs, or all of them when there are fewer.
  // Any tie-break of the sort gives such a set.
  ghost predicate Picks(load: Load, k: nat, chosen: set<int>) {
    && chosen <= load.Keys
    && |chosen| == Min(k, |load.Keys|)
    && forall x, y :: x in chosen && y in load.Keys - chosen ==> load[x] <= load[y]
  }

  function Bump(load: Load, chosen: set<int>): Load {
    map x | x in load :: load[x] + if x in chosen then 1 else 0
  }

  // The loads after giving every container in `order` its CPUs.
  function Apply(load: Load, order: seq<string>, pins: Pins): Load
    requires forall c :: c in order ==> c in pins
    decreases order
  {
    if order == [] then load else Apply(Bump(load, pins[order[0]]), order[1..], pins)
  }

  // Each container in turn got `limits[c]` least loaded CPUs.
  ghost predicate Greedy(load: Load, order: seq<string>, limits: map<string, nat>, pins: Pins)
    decreases order
  {
    order == [] ||
    (&& order[0] in limits && order[0] in pins
     && Picks(load, limits[order[0]], pins[order[0]])
     && Greedy(Bump(load, pins[order[0]]), order[1..], limits, pins))
  }

  lemma {:induction false} GreedyCovers(load: Load, order: seq<string>, limits: map<string, nat>, pins: Pins)
    requires Greedy(load, order, limits, pins)
    ensures forall c :: c in order ==> c in limits && c in pins && pins[c] <= load.Keys
                                       && |pins[c]| == Min(limits[c], |load.Keys|)
    decreases order
  {
    if order != [] {
      assert Bump(load, pins[order[0]]).Keys == load.Keys;
      GreedyCovers(Bump(load, pins[order[0]]), order[1..], limits, pins);
      assert order == [order[0]] + order[1..];
    }
  }

  // One more container at the end of the order.
  lemma {:induction false} GreedyExtends(load: Load, order: seq<string>, c: string, limits: map<string, nat>,
                                         pins: Pins)
    requires Greedy(load, order, limits, pins)
    requires (forall d :: d in order ==> d in pins)
    requires c in limits
    requires c in pins
    requires Picks(Apply(load, order, pins), limits[c], pins[c])
    ensures Greedy(load, order + [c], limits, pins)
    ensures Apply(load, order + [c], pins) == Bump(Apply(load, order, pins), pins[c])
    decreases order
  {
    if order == [] {
      assert [c][1..] == [];
      assert order + [c] == [c];
    } else {
      assert (order + [c])[1..] == order[1..] + [c];
      GreedyExtends(Bump(load, pins[order[0]]), order[1..], c, limits, pins);
    }
  }

  // Containers outside the order do not matter.
  lemma {:induction false} GreedyIgnoresOthers(load: Load, order: seq<string>, limits: map<string, nat>, pins: Pins,
                                               pins': Pins)
    requires Greedy(load, order, limits, pins)
    requires forall c :: c in order ==> c in pins && c in pins' && pins'[c] == pins[c]
    ensures Greedy(load, order, limits, pins') && Apply(load, order, pins') == Apply(load, order, pins)
    decreases order
  {
    if order != [] {
      assert order == [order[0]] + order[1..];
      GreedyIgnoresOthers(Bump(load, pins[order[0]]), order[1..], limits, pins, pins');
    }
  }

  // ------------------------------------------------------------- the spread

  ghost predicate SpreadAtMost(load: Load, d: int) {
    forall x, y :: x in load && y in load ==> load[x] - load[y] <= d
  }

  // No order and no tie-break widens the spread beyond one or what it was.
  lemma {:induction false} GreedyKeepsSpread(load: Load, order: seq<string>, limits: map<string, nat>, pins: Pins,
                                             d: int)
    requires Greedy(load, order, limits, pins)
    requires (forall c :: c in order ==> c in pins)
    requires SpreadAtMost(load, d)
    ensures SpreadAtMost(Apply(load, order, pins), Max(1, d))
    decreases order
  {
    if order != [] {
      assert SpreadAtMost(Bump(load, pins[order[0]]), Max(1, d));
      GreedyKeepsSpread(Bump(load, pins[order[0]]), order[1..], limits, pins, Max(1, d));
    }
  }

  // ------------------------------------------------------- the excess profile

  predicate Distinct<T(==)>(s: seq<T>) {
    forall i, j :: 0 <= i < j < |s| ==> s[i] != s[j]
  }

  predicate Known(ids: seq<int>, load: Load) {
    forall i :: 0 <= i < |ids| ==> ids[i] in load
  }

  // `ids` lists the CPUs of the load, each once.
  ghost predicate ListsCpus(ids: seq<int>, load: Load) {
    Distinct(ids) && Known(ids, load) && forall x :: x in load ==> x in ids
  }

  lemma ListsSameKeys(ids: seq<int>, a: Load, b: Load)
    requires ListsCpus(ids, a)
    requires ListsCpus(ids, b)
    ensures a.Keys == b.Keys
  {
    forall x | x in a || x in b ensures x in a && x in b {
      var i :| 0 <= i < |ids| && ids[i] == x;
    }
  }

  // Total load above the level t.
  function Excess(ids: seq<int>, load: Load, t: int): int
    requires Known(ids, load)
  {
    if ids == [] then 0 else Max(load[ids[0]] - t, 0) + Excess(ids[1..], load, t)
  }

  // CPUs loaded at least t.
  function Above(ids: seq<int>, load: Load, t: int): int
    requires Known(ids, load)
  {
    if ids == [] then 0 else (if load[ids[0]] >= t then 1 else 0) + Above(ids[1..], load, t)
  }

  function Total(ids: seq<int>, load: Load): int
    requires Known(ids, load)
  {
    if ids == [] then 0 else load[ids[0]] + Total(ids[1..], load)
  }

  function Members(ids: seq<int>, chosen: set<int>): int {
    if ids == [] then 0 else (if ids[0] in chosen then 1 else 0) + Members(ids[1..], chosen)
  }

  function ChosenAbove(ids: seq<int>, load: Load, chosen: set<int>, t: int): int
    requires Known(ids, load)
  {
    if ids == [] then 0
    else (if ids[0] in chosen && load[ids[0]] >= t then 1 else 0) + ChosenAbove(ids[1..], load, chosen, t)
  }

  lemma {:induction false} ExcessOneLower(ids: seq<int>, load: Load, t: int)
    requires Known(ids, load)
    ensures Excess(ids, load, t - 1) == Excess(ids, load, t) + Above(ids, load, t)
  {
    if ids != [] { ExcessOneLower(ids[1..], load, t); }
  }

  lemma {:induction false} ExcessAfterBump(ids: seq<int>, load: Load, chosen: set<int>, t: int)
    requires Known(ids, load)
    ensures Excess(ids, Bump(load, chosen), t) == Excess(ids, load, t) + ChosenAbove(ids, load, chosen, t)
  {
    if ids != [] { ExcessAfterBump(ids[1..], load, chosen, t); }
  }

  lemma {:induction false} TotalAfterBump(ids: seq<int>, load: Load, chosen: set<int>)
    requires Known(ids, load)
    ensures Total(ids, Bump(load, chosen)) == Total(ids, load) + Members(ids, chosen)
  {
    if ids != [] { TotalAfterBump(ids[1..], load, chosen); }
  }

  // Any choice puts at least this many CPUs on or above level t.
  lemma {:induction false} ChosenAboveAtLeast(ids: seq<int>, load: Load, chosen: set<int>, t: int)
    requires Known(ids, load)
    ensures ChosenAbove(ids, load, chosen, t) >= Max(0, Members(ids, chosen) - (|ids| - Above(ids, load, t)))
  {
    if ids != [] { ChosenAboveAtLeast(ids[1..], load, chosen, t); }
  }

  lemma {:induction false} ChosenAllBelow(ids: seq<int>, load: Load, chosen: set<int>, t: int)
    requires Known(ids, load)
    requires forall i :: 0 <= i < |ids| && ids[i] in chosen ==> load[ids[i]] < t
    ensures ChosenAbove(ids, load, chosen, t) == 0 && Members(ids, chosen) <= |ids| - Above(ids, load, t)
  {
    if ids != [] { ChosenAllBelow(ids[1..], load, chosen, t); }
  }

  lemma {:induction false} UnchosenAllAbove(ids: seq<int>, load: Load, chosen: set<int>, t: int)
    requires Known(ids, load)
    requires forall i :: 0 <= i < |ids| && ids[i] !in chosen ==> load[ids[i]] >= t
    ensures ChosenAbove(ids, load, chosen, t) == Members(ids, chosen) - (|ids| - Above(ids, load, t))
    ensures Members(ids, chosen) >= |ids| - Above(ids, load, t)
  {
    if ids != [] { UnchosenAllAbove(ids[1..], load, chosen, t); }
  }

  // The k least loaded put no more than that minimum there.
  lemma PicksAbove(ids: seq<int>, load: Load, k: nat, chosen: set<int>, t: int)
    requires ListsCpus(ids, load)
    requires Picks(load, k, chosen)
    ensures ChosenAbove(ids, load, chosen, t) == Max(0, Members(ids, chosen) - (|ids| - Above(ids, load, t)))
  {
    if exists i :: 0 <= i < |ids| && ids[i] !in chosen && load[ids[i]] < t {
      var i :| 0 <= i < |ids| && ids[i] !in chosen && load[ids[i]] < t;
      forall j | 0 <= j < |ids| && ids[j] in chosen
        ensures load[ids[j]] < t
      {
        var x, y := ids[j], ids[i];
        assert x in chosen && y in load.Keys - chosen;
      }
      ChosenAllBelow(ids, load, chosen, t);
    } else {
      UnchosenAllAbove(ids, load, chosen, t);
    }
  }

  lemma {:induction false} SameMembers(ids: seq<int>, a: set<int>, b: set<int>)
    requires forall i :: 0 <= i < |ids| ==> (ids[i] in a <==> ids[i] in b)
    ensures Members(ids, a) == Members(ids, b)
  {
    if ids != [] { SameMembers(ids[1..], a, b); }
  }

  lemma {:induction false} MembersIsSize(ids: seq<int>, chosen: set<int>)
    requires Distinct(ids)
    requires forall x :: x in chosen ==> x in ids
    ensures Members(ids, chosen) == |chosen|
  {
    if ids == [] {
      assert forall x :: x in chosen ==> x in ids;
      assert forall x :: x !in ids;
      assert chosen == {};
    } else {
      var rest := chosen - {ids[0]};
      assert ids == [ids[0]] + ids[1..];
      assert |chosen| == |rest| + if ids[0] in chosen then 1 else 0;
      MembersIsSize(ids[1..], rest);
      SameMembers(ids[1..], rest, chosen);
    }
  }

  ghost predicate Dominated(ids: seq<int>, a: Load, b: Load)
    requires Known(ids, a)
    requires Known(ids, b)
  {
    forall t: int :: Excess(ids, a, t) <= Excess(ids, b, t)
  }

  // One container: the greedy choice from a dominated load stays dominated by
  // any choice of as many CPUs.
  lemma PicksKeepsDominance(ids: seq<int>, a: Load, b: Load, k: nat, greedy: set<int>, other: set<int>)
    requires ListsCpus(ids, a)
    requires ListsCpus(ids, b)
    requires Dominated(ids, a, b)
    requires Picks(a, k, greedy)
    requires other <= b.Keys
    requires |other| == |greedy|
    ensures Dominated(ids, Bump(a, greedy), Bump(b, other))
  {
    MembersIsSize(ids, greedy);
    MembersIsSize(ids, other);
    forall t: int
      ensures Excess(ids, Bump(a, greedy), t) <= Excess(ids, Bump(b, other), t)
    {
      ExcessAfterBump(ids, a, greedy, t);
      ExcessAfterBump(ids, b, other, t);
      PicksAbove(ids, a, k, greedy, t);
      ChosenAboveAtLeast(ids, b, other, t);
      ExcessOneLower(ids, a, t);
      ExcessOneLower(ids, b, t);
      assert Excess(ids, a, t) <= Excess(ids, b, t) && Excess(ids, a, t - 1) <= Excess(ids, b, t - 1);
    }
  }

  // `other` gives every container as many CPUs as `pins`, chosen in any way.
  ghost predicate SameSizes(order: seq<string>, load: Load, pins: Pins, other: Pins) {
    forall c :: c in order ==> c in pins && c in other && other[c] <= load.Keys && |other[c]| == |pins[c]|
  }

  lemma {:induction false} GreedyDominated(ids: seq<int>, a: Load, b: Load, order: seq<string>,
                                           limits: map<string, nat>, pins: Pins, other: Pins)
    requires ListsCpus(ids, a)
    requires ListsCpus(ids, b)
    requires Dominated(ids, a, b)
    requires Greedy(a, order, limits, pins)
    requires SameSizes(order, a, pins, other)
    ensures ListsCpus(ids, Apply(a, order, pins)) && ListsCpus(ids, Apply(b, order, other))
    ensures Dominated(ids, Apply(a, order, pins), Apply(b, order, other))
    decreases order
  {
    if order != [] {
      var c := order[0];
      assert order == [c] + order[1..];
      ListsSameKeys(ids, a, b);
      PicksKeepsDominance(ids, a, b, limits[c], pins[c], other[c]);
      GreedyDominated(ids, Bump(a, pins[c]), Bump(b, other[c]), order[1..], limits, pins, other);
    }
  }

  // ------------------------------------------- the order of containers is free

  // How many of the containers in `order` are given CPU x.
  function Given(order: seq<string>, pins: Pins, x: int): int
    requires forall c :: c in order ==> c in pins
  {
    if order == [] then 0 else (if x in pins[order[0]] then 1 else 0) + Given(order[1..], pins, x)
  }

  lemma {:induction false} ApplyIsGiven(load: Load, order: seq<string>, pins: Pins)
    requires forall c :: c in order ==> c in pins
    ensures Apply(load, order, pins) == map x | x in load :: load[x] + Given(order, pins, x)
    decreases order
  {
    if order != [] {
      ApplyIsGiven(Bump(load, pins[order[0]]), order[1..], pins);
    }
  }

  lemma {:induction false} GivenSplit(a: seq<string>, b: seq<string>, pins: Pins, x: int)
    requires forall c :: c in a + b ==> c in pins
    ensures Given(a + b, pins, x) == Given(a, pins, x) + Given(b, pins, x)
    decreases a
  {
    if a == [] {
      assert a + b == b;
    } else {
      assert (a + b)[1..] == a[1..] + b;
      GivenSplit(a[1..], b, pins, x);
    }
  }

  lemma GivenWithout(b: seq<string>, j: nat, pins: Pins, x: int)
    requires j < |b|
    requires forall c :: c in b ==> c in pins
    ensures Given(b, pins, x) == Given(b[..j] + b[j + 1..], pins, x) + if x in pins[b[j]] then 1 else 0
  {
    var tail := [b[j]] + b[j + 1..];
    assert b == b[..j] + tail && tail[1..] == b[j + 1..];
    GivenSplit(b[..j], b[j + 1..], pins, x);
    GivenSplit(b[..j], tail, pins, x);
  }

  lemma MultisetWithout(l: seq<string>, c: string, r: seq<string>, rest: seq<string>)
    requires multiset(l + [c] + r) == multiset([c] + rest)
    ensures multiset(l + r) == multiset(rest)
  {
    assert multiset(l + [c] + r) == multiset(l) + multiset{c} + multiset(r);
    assert multiset([c] + rest) == multiset{c} + multiset(rest);
    assert multiset(l + r) == multiset(l) + multiset(r);
    assert multiset(rest) == multiset{c} + multiset(rest) - multiset{c};
    assert multiset(l) + multiset(r) == multiset(l) + multiset{c} + multiset(r) - multiset{c};
  }

  lemma FirstElsewhere(a: seq<string>, b: seq<string>) returns (j: nat)
    requires multiset(a) == multiset(b)
    requires a != []
    ensures j < |b| && b[j] == a[0] && multiset(b[..j] + b[j + 1..]) == multiset(a[1..])
  {
    assert a[0] in multiset(b);
    j :| 0 <= j < |b| && b[j] == a[0];
    assert b == b[..j] + [b[j]] + b[j + 1..];
    assert a == [a[0]] + a[1..];
    MultisetWithout(b[..j], b[j], b[j + 1..], a[1..]);
  }

  lemma {:induction false} GivenPermutes(a: seq<string>, b: seq<string>, pins: Pins, x: int)
    requires multiset(a) == multiset(b)
    requires forall c :: c in a ==> c in pins
    ensures forall c :: c in b ==> c in pins
    ensures Given(a, pins, x) == Given(b, pins, x)
    decreases a
  {
    forall c | c in b ensures c in pins { assert c in multiset(a); }
    if a == [] {
      assert |multiset(a)| == |a| && |multiset(b)| == |b|;
    } else {
      var j := FirstElsewhere(a, b);
      GivenPermutes(a[1..], b[..j] + b[j + 1..], pins, x);
      GivenWithout(b, j, pins, x);
    }
  }

  lemma ApplyPermutes(load: Load, a: seq<string>, b: seq<string>, pins: Pins)
    requires multiset(a) == multiset(b)
    requires forall c :: c in a ==> c in pins
    ensures forall c :: c in b ==> c in pins
    ensures Apply(load, a, pins) == Apply(load, b, pins)
  {
    GivenPermutes(a, b, pins, 0);
    ApplyIsGiven(load, a, pins);
    ApplyIsGiven(load, b, pins);
    forall x | x in load
      ensures Given(a, pins, x) == Given(b, pins, x)
    {
      GivenPermutes(a, b, pins, x);
    }
  }

  // --------------------------------------------------------- the main results

  ghost predicate Within(load: Load, lo: int, hi: int) {
    forall x :: x in load ==> lo <= load[x] <= hi
  }

  lemma {:induction false} ExcessMeansMax(ids: seq<int>, load: Load, hi: int)
    requires Known(ids, load)
    ensures Excess(ids, load, hi) >= 0
    ensures Excess(ids, load, hi) == 0 <==> forall i :: 0 <= i < |ids| ==> load[ids[i]] <= hi
  {
    if ids != [] {
      ExcessMeansMax(ids[1..], load, hi);
      assert ids == [ids[0]] + ids[1..];
    }
  }

  lemma {:induction false} ExcessMeansMin(ids: seq<int>, load: Load, lo: int)
    requires Known(ids, load)
    ensures Excess(ids, load, lo) >= Total(ids, load) - |ids| * lo
    ensures Excess(ids, load, lo) == Total(ids, load) - |ids| * lo <==> forall i :: 0 <= i < |ids| ==>
              load[ids[i]] >= lo
  {
    if ids != [] {
      ExcessMeansMin(ids[1..], load, lo);
      assert ids == [ids[0]] + ids[1..];
      assert |ids| * lo == |ids[1..]| * lo + lo;
    }
  }

  lemma {:induction false} SameTotal(ids: seq<int>, a: Load, b: Load, order: seq<string>, pins: Pins, other: Pins)
    requires ListsCpus(ids, a)
    requires ListsCpus(ids, b)
    requires Total(ids, a) == Total(ids, b)
    requires SameSizes(order, a, pins, other)
    requires forall c :: c in order ==> pins[c] <= a.Keys
    ensures ListsCpus(ids, Apply(a, order, pins)) && ListsCpus(ids, Apply(b, order, other))
    ensures Total(ids, Apply(a, order, pins)) == Total(ids, Apply(b, order, other))
    decreases order
  {
    if order != [] {
      var c := order[0];
      assert order == [c] + order[1..];
      ListsSameKeys(ids, a, b);
      MembersIsSize(ids, pins[c]);
      MembersIsSize(ids, other[c]);
      TotalAfterBump(ids, a, pins[c]);
      TotalAfterBump(ids, b, other[c]);
      SameTotal(ids, Bump(a, pins[c]), Bump(b, other[c]), order[1..], pins, other);
    }
  }

  lemma BoundsCarryOver(ids: seq<int>, g: Load, o: Load, lo: int, hi: int)
    requires ListsCpus(ids, g)
    requires ListsCpus(ids, o)
    requires Dominated(ids, g, o)
    requires Total(ids, g) == Total(ids, o)
    requires Within(o, lo, hi)
    ensures Within(g, lo, hi)
  {
    forall k | 0 <= k < |ids| ensures lo <= o[ids[k]] <= hi {
      var x := ids[k];
      assert x in o;
    }
    assert Excess(ids, g, hi) <= Excess(ids, o, hi) && Excess(ids, g, lo) <= Excess(ids, o, lo);
    ExcessMeansMax(ids, g, hi);
    ExcessMeansMax(ids, o, hi);
    ExcessMeansMin(ids, g, lo);
    ExcessMeansMin(ids, o, lo);
    forall x | x in g ensures lo <= g[x] <= hi {
      var i :| 0 <= i < |ids| && ids[i] == x;
      assert lo <= g[ids[i]] <= hi;
    }
  }

  // Optimality: whatever bounds on the final loads any assignment of equally
  // many CPUs to every container achieves, in any order, the greedy run
  // achieves too. In particular its largest load is the least possible and its
  // smallest load the greatest possible.
  lemma GreedyIsOptimal(ids: seq<int>, load: Load, order: seq<string>, limits: map<string, nat>, pins: Pins,
                        order': seq<string>, other: Pins, lo: int, hi: int)
    requires ListsCpus(ids, load)
    requires Greedy(load, order, limits, pins)
    requires multiset(order) == multiset(order')
    requires SameSizes(order, load, pins, other)
    requires forall c :: c in order' ==> c in other
    requires Within(Apply(load, order', other), lo, hi)
    ensures forall c :: c in order ==> c in pins
    ensures Within(Apply(load, order, pins), lo, hi)
  {
    GreedyCovers(load, order, limits, pins);
    ApplyPermutes(load, order, order', other);
    GreedyDominated(ids, load, load, order, limits, pins, other);
    SameTotal(ids, load, load, order, pins, other);
    BoundsCarryOver(ids, Apply(load, order, pins), Apply(load, order, other), lo, hi);
  }

  // Any two greedy runs over the same containers, in whatever orders and with
  // whatever tie-breaks, end with the same number of CPUs at every load level.
  lemma GreedyProfileIsUnique(ids: seq<int>, load: Load, limits: map<string, nat>, t: int,
                              order: seq<string>, pins: Pins, order': seq<string>, pins': Pins)
    requires ListsCpus(ids, load)
    requires multiset(order) == multiset(order')
    requires Greedy(load, order, limits, pins)
    requires Greedy(load, order', limits, pins')
    ensures forall c :: c in order ==> c in pins
    ensures forall c :: c in order' ==> c in pins'
    ensures ListsCpus(ids, Apply(load, order, pins)) && ListsCpus(ids, Apply(load, order', pins'))
    ensures Above(ids, Apply(load, order, pins), t) == Above(ids, Apply(load, order', pins'), t)
  {
    GreedyCovers(load, order, limits, pins);
    GreedyCovers(load, order', limits, pins');
    assert forall c :: c in order <==> c in multiset(order);
    assert forall c :: c in order' <==> c in multiset(order');
    ApplyPermutes(load, order, order', pins');
    ApplyPermutes(load, order', order, pins);
    GreedyDominated(ids, load, load, order, limits, pins, pins');
    GreedyDominated(ids, load, load, order', limits, pins', pins);
    var a, b := Apply(load, order, pins), Apply(load, order', pins');
    ExcessOneLower(ids, a, t);
    ExcessOneLower(ids, b, t);
    assert Excess(ids, a, t) == Excess(ids, b, t) && Excess(ids, a, t - 1) == Excess(ids, b, t - 1);
  }
}
