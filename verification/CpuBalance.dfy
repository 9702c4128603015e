// deviceTaskBalance (apollo/devices.go): counters shared between the usage map
// and the slice that is sorted anew for every container.
module CpuBalance {
  import opened Wrappers
  import opened CpuLoad

  class TaskCpu {
    const id: int
    var count: int

    constructor (id: int)
      ensures this.id == id && count == 0
    {
      this.id := id;
      count := 0;
    }
  }

  // limits.cpu, as read by CpuLimits: a number of CPUs to balance, or a CPU list.
  datatype Limit = Count(n: int) | Cpuset(cpus: seq<int>)

  datatype Container = Container(name: string, running: bool, limit: Limit)

  // The CPU ids each container is pinned to, in the order they were appended.
  type Pinning = map<string, seq<int>>

  function Get<K, V>(m: map<K, seq<V>>, k: K): seq<V> {
    if k in m then m[k] else []
  }

  function Appended<K, V>(m: map<K, seq<V>>, k: K, v: V): map<K, seq<V>> {
    m[k := Get(m, k) + [v]]
  }

  // Where CPU x occurs in the pinnings, and how often.
  ghost function Places(p: Pinning, x: int): set<(string, int)> {
    set c, i | c in p && 0 <= i < |p[c]| && p[c][i] == x :: (c, i)
  }

  ghost function Occurrences(p: Pinning, x: int): nat { |Places(p, x)| }

  lemma PlaceAppended(p: Pinning, c: string, id: int, x: int, at: (string, int))
    ensures at in Places(Appended(p, c, id), x) <==> at in Places(p, x) || (x == id && at == (c, |Get(p, c)|))
  {
  }

  lemma OccurrencesAppended(p: Pinning, c: string, id: int, x: int)
    ensures Occurrences(Appended(p, c, id), x) == Occurrences(p, x) + if x == id then 1 else 0
  {
    var new_: set<(string, int)> := if x == id then {(c, |Get(p, c)|)} else {};
    forall at ensures at in Places(Appended(p, c, id), x) <==> at in Places(p, x) + new_ {
      PlaceAppended(p, c, id, x, at);
    }
    assert Places(Appended(p, c, id), x) == Places(p, x) + new_;
  }

  // ------------------------------------------------------------ shared counters

  ghost predicate IsUsage(usage: map<int, TaskCpu>) {
    forall id :: id in usage ==> usage[id].id == id
  }

  ghost function Counts(usage: map<int, TaskCpu>): Load
    reads usage.Values
  {
    map id | id in usage :: usage[id].count
  }

  function Ids(s: seq<TaskCpu>): seq<int> {
    seq(|s|, i requires 0 <= i < |s| => s[i].id)
  }

  // The slice holds the very objects of the usage map, each once.
  ghost predicate Linked(usage: map<int, TaskCpu>, s: seq<TaskCpu>) {
    && Distinct(s)
    && (forall i :: 0 <= i < |s| ==> s[i].id in usage && usage[s[i].id] == s[i])
    && (forall id :: id in usage ==> usage[id] in s)
  }

  lemma LinkedLists(usage: map<int, TaskCpu>, s: seq<TaskCpu>, load: Load)
    requires IsUsage(usage)
    requires Linked(usage, s)
    requires load.Keys == usage.Keys
    ensures ListsCpus(Ids(s), load)
  {
    var ids := Ids(s);
    forall i, j | 0 <= i < j < |ids| ensures ids[i] != ids[j] {
      assert s[i] != s[j];
    }
    forall x | x in load ensures x in ids {
      var i :| 0 <= i < |s| && s[i] == usage[x];
      assert ids[i] == x;
    }
  }

  lemma LinkedPermutes(usage: map<int, TaskCpu>, s: seq<TaskCpu>, t: seq<TaskCpu>)
    requires Linked(usage, s)
    requires Distinct(t)
    requires multiset(s) == multiset(t)
    ensures Linked(usage, t)
  {
    forall i | 0 <= i < |t| ensures t[i].id in usage && usage[t[i].id] == t[i] {
      assert t[i] in multiset(t) && t[i] in s;
    }
    forall id | id in usage ensures usage[id] in t {
      assert usage[id] in multiset(s);
    }
  }

  // How many of `host` CPUs a count stands for: counting down from a negative one
  // never meets zero, so that it stands for all of them.
  function Share(n: int, host: nat): nat { if n < 0 then host else Min(n, host) }

  function Shares(balanced: map<string, int>, host: nat): map<string, nat> {
    map c | c in balanced :: Share(balanced[c], host)
  }

  lemma {:induction false} AllMembers(ids: seq<int>, chosen: set<int>)
    requires forall i :: 0 <= i < |ids| ==> ids[i] in chosen
    ensures Members(ids, chosen) == |ids|
  {
    if ids != [] { AllMembers(ids[1..], chosen); }
  }

  // The first k ids of a sorted list are k least loaded CPUs.
  lemma SortedPrefixPicks(ids: seq<int>, load: Load, k: nat)
    requires ListsCpus(ids, load)
    requires forall i, j :: 0 <= i < j < |ids| ==> load[ids[i]] <= load[ids[j]]
    requires k <= |ids|
    ensures |ids| == |load.Keys|
    ensures Picks(load, k, set x | x in ids[..k])
  {
    var chosen := set x | x in ids[..k];
    AllMembers(ids[..k], chosen);
    MembersIsSize(ids[..k], chosen);
    AllMembers(ids, load.Keys);
    MembersIsSize(ids, load.Keys);
    forall x, y | x in chosen && y in load.Keys - chosen ensures load[x] <= load[y] {
      var i :| 0 <= i < k && ids[i] == x;
      assert y in ids;
      var j :| 0 <= j < |ids| && ids[j] == y;
      assert forall m :: 0 <= m < k ==> ids[..k][m] in chosen;
    }
  }

  lemma BumpedPrefix(ids: seq<int>, load: Load, load': Load, k: nat)
    requires ListsCpus(ids, load)
    requires load'.Keys == load.Keys
    requires k <= |ids|
    requires forall j :: 0 <= j < |ids| ==> load'[ids[j]] == load[ids[j]] + if j < k then 1 else 0
    ensures load' == Bump(load, set x | x in ids[..k])
  {
    var chosen := set x | x in ids[..k];
    forall x | x in load ensures load'[x] == Bump(load, chosen)[x] {
      assert x in ids;
      var j :| 0 <= j < |ids| && ids[j] == x;
      assert forall m :: 0 <= m < k ==> ids[..k][m] in chosen;
      if x in chosen {
        var m :| 0 <= m < k && ids[..k][m] == x;
      }
    }
  }

  lemma PrefixPicks(ids: seq<int>, load: Load, load': Load, k: nat, picked: set<int>)
    requires ListsCpus(ids, load)
    requires forall i, j :: 0 <= i < j < |ids| ==> load[ids[i]] <= load[ids[j]]
    requires load'.Keys == load.Keys
    requires k <= |ids|
    requires forall j :: 0 <= j < |ids| ==> load'[ids[j]] == load[ids[j]] + if j < k then 1 else 0
    requires picked == set x | x in ids[..k]
    ensures |ids| == |load.Keys|
    ensures Picks(load, k, picked) && load' == Bump(load, picked)
    ensures Distinct(ids[..k])
  {
    SortedPrefixPicks(ids, load, k);
    BumpedPrefix(ids, load, load', k);
  }

  // ------------------------------------------------------------------- the code

  method LeastFrom(a: array<TaskCpu>, i: nat) returns (m: nat)
    requires i < a.Length
    ensures i <= m < a.Length
    ensures forall q :: i <= q < a.Length ==> a[m].count <= a[q].count
  {
    m := i;
    for j := i + 1 to a.Length
      invariant i <= m < a.Length
      invariant forall q :: i <= q < j ==> a[m].count <= a[q].count
    {
      if a[j].count < a[m].count {
        m := j;
      }
    }
  }

  method Swap(a: array<TaskCpu>, i: nat, m: nat)
    requires i <= m < a.Length
    requires Distinct(a[..])
    modifies a
    ensures Distinct(a[..])
    ensures multiset(a[..]) == multiset(old(a[..]))
    ensures a[i] == old(a[m]) && a[m] == old(a[i])
    ensures forall q :: 0 <= q < a.Length && q != i && q != m ==> a[q] == old(a[q])
  {
    a[i], a[m] := a[m], a[i];
  }

  // sort.Sort(sortedUsage): callers use the contract alone, which fixes no order
  // among equal counts.
  method SortByCount(a: array<TaskCpu>)
    requires Distinct(a[..])
    modifies a
    ensures Distinct(a[..])
    ensures multiset(a[..]) == multiset(old(a[..]))
    ensures forall i, j :: 0 <= i < j < a.Length ==> a[i].count <= a[j].count
  {
    for i := 0 to a.Length
      invariant Distinct(a[..])
      invariant multiset(a[..]) == multiset(old(a[..]))
      invariant forall p, q :: 0 <= p < i && p < q < a.Length ==> a[p].count <= a[q].count
    {
      var m := LeastFrom(a, i);
      Swap(a, i, m);
    }
  }

  // Every CPU's counter equals its occurrences in the pinnings.
  ghost predicate Conserved(usage: map<int, TaskCpu>, p: Pinning)
    reads usage.Values
  {
    forall x :: x in usage ==> usage[x].count == Occurrences(p, x)
  }

  method PinOne(usage: map<int, TaskCpu>, cpu: TaskCpu, ctn: string, pinning: Pinning) returns (pinning': Pinning)
    requires IsUsage(usage)
    requires cpu.id in usage && usage[cpu.id] == cpu
    requires Conserved(usage, pinning)
    modifies cpu
    ensures cpu.count == old(cpu.count) + 1
    ensures pinning' == Appended(pinning, ctn, cpu.id)
    ensures Conserved(usage, pinning')
  {
    pinning' := Appended(pinning, ctn, cpu.id);
    cpu.count := cpu.count + 1;
    forall x | x in usage ensures usage[x].count == Occurrences(pinning', x) {
      OccurrencesAppended(pinning, ctn, cpu.id, x);
    }
  }

  // The inner loop: count down from the limit, pinning the next CPU of the slice.
  method PinPrefix(usage: map<int, TaskCpu>, sortedUsage: array<TaskCpu>, ctn: string, limit: int, pinning: Pinning)
    returns (pinning': Pinning, ghost k: nat)
    requires IsUsage(usage)
    requires Linked(usage, sortedUsage[..])
    requires Conserved(usage, pinning)
    requires Get(pinning, ctn) == []
    modifies usage.Values
    ensures k == Share(limit, sortedUsage.Length)
    ensures forall j :: 0 <= j < sortedUsage.Length
                        ==> sortedUsage[j].count == old(sortedUsage[j].count) + if j < k then 1 else 0
    ensures Conserved(usage, pinning')
    ensures forall c :: c != ctn ==> Get(pinning', c) == Get(pinning, c)
    ensures Get(pinning', ctn) == Ids(sortedUsage[..])[..k]
  {
    pinning' := pinning;
    var count := limit;
    var i := 0;
    while i < sortedUsage.Length && count != 0
      invariant 0 <= i <= sortedUsage.Length
      invariant count == limit - i && (limit >= 0 ==> i <= limit)
      invariant forall j :: 0 <= j < sortedUsage.Length
                            ==> sortedUsage[j].count == old(sortedUsage[j].count) + if j < i then 1 else 0
      invariant Conserved(usage, pinning')
      invariant forall c :: c != ctn ==> Get(pinning', c) == Get(pinning, c)
      invariant Get(pinning', ctn) == Ids(sortedUsage[..])[..i]
    {
      count := count - 1;
      pinning' := PinOne(usage, sortedUsage[i], ctn, pinning');
      i := i + 1;
    }
    k := i;
  }

  lemma PrefixIsPicked(usage: map<int, TaskCpu>, s: seq<TaskCpu>, load: Load, load': Load, k: nat, picked: set<int>)
    requires IsUsage(usage)
    requires Linked(usage, s)
    requires load.Keys == load'.Keys == usage.Keys
    requires forall i, j :: 0 <= i < j < |s| ==> load[s[i].id] <= load[s[j].id]
    requires forall j :: 0 <= j < |s| ==> load'[s[j].id] == load[s[j].id] + if j < k then 1 else 0
    requires k <= |s| && picked == set x | x in Ids(s)[..k]
    ensures |s| == |usage.Keys|
    ensures Picks(load, k, picked) && load' == Bump(load, picked)
    ensures Distinct(Ids(s)[..k]) && forall x :: x in Ids(s)[..k] <==> x in picked
  {
    LinkedLists(usage, s, load);
    PrefixPicks(Ids(s), load, load', k, picked);
  }

  // The slice in order of the counters; its ids are a sorted list of the load.
  method SortLinked(usage: map<int, TaskCpu>, sortedUsage: array<TaskCpu>)
    requires IsUsage(usage)
    requires Linked(usage, sortedUsage[..])
    modifies sortedUsage
    ensures Linked(usage, sortedUsage[..])
    ensures ListsCpus(Ids(sortedUsage[..]), Counts(usage))
    ensures forall i, j :: 0 <= i < j < sortedUsage.Length
              ==> Counts(usage)[Ids(sortedUsage[..])[i]] <= Counts(usage)[Ids(sortedUsage[..])[j]]
  {
    SortByCount(sortedUsage);
    LinkedPermutes(usage, old(sortedUsage[..]), sortedUsage[..]);
    LinkedLists(usage, sortedUsage[..], Counts(usage));
  }

  // One balanced container: sort the slice, then pin its prefix.
  method PinLeastLoaded(usage: map<int, TaskCpu>, sortedUsage: array<TaskCpu>, ctn: string, limit: int,
                        pinning: Pinning)
    returns (pinning': Pinning, ghost picked: set<int>)
    requires IsUsage(usage)
    requires Linked(usage, sortedUsage[..])
    requires Conserved(usage, pinning)
    requires Get(pinning, ctn) == []
    modifies sortedUsage, usage.Values
    ensures Linked(usage, sortedUsage[..])
    ensures Conserved(usage, pinning')
    ensures Picks(old(Counts(usage)), Share(limit, |usage.Keys|), picked)
    ensures Counts(usage) == Bump(old(Counts(usage)), picked)
    ensures forall c :: c != ctn ==> Get(pinning', c) == Get(pinning, c)
    ensures Distinct(Get(pinning', ctn))
    ensures forall x :: x in Get(pinning', ctn) <==> x in picked
  {
    ghost var load := Counts(usage);
    SortLinked(usage, sortedUsage);
    assert Counts(usage) == load;
    ghost var s := sortedUsage[..];
    forall i, j | 0 <= i < j < |s| ensures load[s[i].id] <= load[s[j].id] {
      assert Ids(s)[i] == s[i].id && Ids(s)[j] == s[j].id;
    }
    ghost var k;
    pinning', k := PinPrefix(usage, sortedUsage, ctn, limit, pinning);
    assert sortedUsage[..] == s;
    picked := set x | x in Ids(s)[..k];
    ghost var load' := Counts(usage);
    forall j | 0 <= j < |s| ensures load'[s[j].id] == load[s[j].id] + if j < k then 1 else 0 {
      assert usage[s[j].id] == s[j] == sortedUsage[j];
    }
    PrefixIsPicked(usage, s, load, load', k, picked);
  }

  // Fresh counters, one per host CPU.
  method NewUsage(cpus: seq<int>) returns (usage: map<int, TaskCpu>)
    ensures IsUsage(usage)
    ensures usage.Keys == set x | x in cpus
    ensures forall id :: id in usage ==> fresh(usage[id]) && usage[id].count == 0
  {
    usage := map[];
    for i := 0 to |cpus|
      invariant IsUsage(usage)
      invariant usage.Keys == set x | x in cpus[..i]
      invariant forall id :: id in usage ==> fresh(usage[id]) && usage[id].count == 0
    {
      var cpu := new TaskCpu(cpus[i]);
      usage := usage[cpus[i] := cpu];
      assert cpus[..i + 1] == cpus[..i] + [cpus[i]];
    }
    assert cpus[..|cpus|] == cpus;
  }

  // The slice of all counters, in any order.
  method Collect(usage: map<int, TaskCpu>) returns (sortedUsage: array<TaskCpu>)
    requires IsUsage(usage)
    ensures fresh(sortedUsage)
    ensures Linked(usage, sortedUsage[..])
  {
    var s: seq<TaskCpu> := [];
    var rest := usage.Keys;
    while rest != {}
      invariant rest <= usage.Keys
      invariant Distinct(s)
      invariant forall i :: 0 <= i < |s| ==> s[i].id in usage.Keys - rest && usage[s[i].id] == s[i]
      invariant forall id :: id in usage && id !in rest ==> usage[id] in s
      decreases rest
    {
      ghost var some := Element(rest);
      var id :| id in rest;
      s := s + [usage[id]];
      rest := rest - {id};
    }
    sortedUsage := new TaskCpu[|s|](i requires 0 <= i < |s| => s[i]);
    assert sortedUsage[..] == s;
  }

  function Times(p: Pinning, c: string, x: int): nat { multiset(Get(p, c))[x] }

  // Each of the containers was pinned to the CPU once more for each time it is named.
  ghost predicate PinnedMore(p: Pinning, p': Pinning, id: int, ctns: seq<string>) {
    forall c, x :: Times(p', c, x) == Times(p, c, x) + if x == id then multiset(ctns)[c] else 0
  }

  lemma PinnedOneMore(p: Pinning, p': Pinning, id: int, ctns: seq<string>, ctn: string)
    requires PinnedMore(p, p', id, ctns)
    ensures PinnedMore(p, Appended(p', ctn, id), id, ctns + [ctn])
  {
  }

  // The pinned containers of one CPU, each counted.
  method PinFixedCpu(usage: map<int, TaskCpu>, id: int, ctns: seq<string>, pinning: Pinning) returns (pinning': Pinning)
    requires IsUsage(usage)
    requires id in usage
    requires Conserved(usage, pinning)
    modifies usage.Values
    ensures Conserved(usage, pinning')
    ensures PinnedMore(pinning, pinning', id, ctns)
  {
    pinning' := pinning;
    for i := 0 to |ctns|
      invariant Conserved(usage, pinning')
      invariant PinnedMore(pinning, pinning', id, ctns[..i])
    {
      PinnedOneMore(pinning, pinning', id, ctns[..i], ctns[i]);
      pinning' := PinOne(usage, usage[id], ctns[i], pinning');
      assert ctns[..i + 1] == ctns[..i] + [ctns[i]];
    }
    assert ctns[..|ctns|] == ctns;
  }

  // ------------------------------------------------------- reading the containers

  // How often the running container `name` lists CPU x in its limits.cpu.
  function Listed(containers: seq<Container>, name: string, x: int): nat {
    if containers == [] then 0
    else
      var c := containers[|containers| - 1];
      Listed(containers[..|containers| - 1], name, x)
      + if c.running && c.limit.Cpuset? && c.name == name then multiset(c.limit.cpus)[x] else 0
  }

  // The running containers to balance, with their limits capped at `host` CPUs.
  function Balanced(containers: seq<Container>, host: nat): map<string, int> {
    if containers == [] then map[]
    else
      var c := containers[|containers| - 1];
      var before := Balanced(containers[..|containers| - 1], host);
      if c.running && c.limit.Count? then before[c.name := Min(c.limit.n, host)] else before
  }

  type Fixed = map<int, seq<string>>

  function TimesOn(f: Fixed, x: int, c: string): nat { multiset(Get(f, x))[c] }

  lemma TimesOnAppended(f: Fixed, id: int, c: string, x: int, d: string)
    ensures TimesOn(Appended(f, id, c), x, d) == TimesOn(f, x, d) + if d == c && x == id then 1 else 0
  {
  }

  // The loop over one container's CPU list; offline CPUs are dropped.
  method AddCpuset(f: Fixed, name: string, containerCpus: seq<int>, cpus: seq<int>) returns (f': Fixed)
    ensures forall x, c :: TimesOn(f', x, c)
                        == TimesOn(f, x, c) + if c == name && x in cpus then multiset(containerCpus)[x] else 0
  {
    f' := f;
    for i := 0 to |containerCpus|
      invariant forall x, c :: TimesOn(f', x, c)
                            == TimesOn(f, x, c) + if c == name && x in cpus then multiset(containerCpus[..i])[x] else 0
    {
      var nr := containerCpus[i];
      assert containerCpus[..i + 1] == containerCpus[..i] + [nr];
      ghost var before := f';
      if nr in cpus {
        f' := Appended(f', nr, name);
      }
      forall x, c
        ensures TimesOn(f', x, c) == TimesOn(before, x, c) + if c == name && x == nr && nr in cpus then 1 else 0
      {
        TimesOnAppended(before, nr, name, x, c);
      }
    }
    assert containerCpus[..|containerCpus|] == containerCpus;
  }

  method Classify(containers: seq<Container>, cpus: seq<int>)
    returns (fixedContainers: Fixed, balanced: map<string, int>)
    ensures forall x, c :: TimesOn(fixedContainers, x, c) == if x in cpus then Listed(containers, c, x) else 0
    ensures balanced == Balanced(containers, |cpus|)
  {
    fixedContainers, balanced := map[], map[];
    for i := 0 to |containers|
      invariant forall x, c :: TimesOn(fixedContainers, x, c) == if x in cpus then Listed(containers[..i], c, x) else 0
      invariant balanced == Balanced(containers[..i], |cpus|)
    {
      var c := containers[i];
      assert containers[..i + 1][..i] == containers[..i];
      if !c.running {
        continue;
      }
      match c.limit
      case Count(n) =>
        balanced := balanced[c.name := Min(n, |cpus|)];
      case Cpuset(list) =>
        fixedContainers := AddCpuset(fixedContainers, c.name, list, cpus);
    }
    assert containers[..|containers|] == containers;
  }

  // Pin the fixed containers, CPU by CPU in any order.
  method PinFixed(usage: map<int, TaskCpu>, fixedContainers: Fixed) returns (pinning: Pinning)
    requires IsUsage(usage)
    requires forall id :: id in usage ==> usage[id].count == 0
    modifies usage.Values
    ensures Conserved(usage, pinning)
    ensures forall c, x :: Times(pinning, c, x) == if x in usage then TimesOn(fixedContainers, x, c) else 0
  {
    pinning := map[];
    var rest := fixedContainers.Keys;
    forall x | x in usage ensures Occurrences(pinning, x) == 0 {}
    while rest != {}
      invariant rest <= fixedContainers.Keys
      invariant Conserved(usage, pinning)
      invariant forall c, x :: Times(pinning, c, x)
                            == if x in usage && x !in rest then TimesOn(fixedContainers, x, c) else 0
      decreases rest
    {
      ghost var some := Element(rest);
      var cpu :| cpu in rest;
      rest := rest - {cpu};
      if cpu !in usage {
        continue;
      }
      pinning := PinFixedCpu(usage, cpu, fixedContainers[cpu], pinning);
    }
  }

  predicate DistinctNames(containers: seq<Container>) {
    forall i, j :: 0 <= i < j < |containers| ==> containers[i].name != containers[j].name
  }

  lemma {:induction false} OnlyNamedMatter(containers: seq<Container>, host: nat, name: string, x: int)
    requires forall i :: 0 <= i < |containers| ==> containers[i].name != name
    ensures Listed(containers, name, x) == 0 && name !in Balanced(containers, host)
  {
    if containers != [] { OnlyNamedMatter(containers[..|containers| - 1], host, name, x); }
  }

  // What becomes of a container depends on its own limit alone.
  lemma {:induction false} ContainerIsPinnedOrBalanced(containers: seq<Container>, host: nat, i: nat, x: int)
    requires DistinctNames(containers)
    requires i < |containers|
    ensures var c := containers[i];
            && (c.name in Balanced(containers, host) <==> c.running && c.limit.Count?)
            && (c.name in Balanced(containers, host) ==> Balanced(containers, host)[c.name] == Min(c.limit.n, host))
            && Listed(containers, c.name, x)
               == if c.running && c.limit.Cpuset? then multiset(c.limit.cpus)[x] else 0
  {
    var n := |containers| - 1;
    if i == n {
      OnlyNamedMatter(containers[..n], host, containers[i].name, x);
    } else {
      ContainerIsPinnedOrBalanced(containers[..n], host, i, x);
      assert containers[..n][i] == containers[i];
    }
  }

  lemma {:induction false} BalancedIsNotListed(containers: seq<Container>, host: nat, name: string, x: int)
    requires DistinctNames(containers)
    requires name in Balanced(containers, host)
    ensures Listed(containers, name, x) == 0
  {
    if forall i :: 0 <= i < |containers| ==> containers[i].name != name {
      OnlyNamedMatter(containers, host, name, x);
    } else {
      var i :| 0 <= i < |containers| && containers[i].name == name;
      ContainerIsPinnedOrBalanced(containers, host, i, x);
    }
  }

  lemma SubsetOfSameSize(a: set<int>, b: set<int>)
    requires a <= b && |a| == |b|
    ensures a == b
  {
    assert |b - a| == |b| - |a|;
    forall x | x in b ensures x in a {
      assert x !in b - a;
    }
  }

  // A balanced container gets every CPU exactly when its limit is as great as the
  // number of CPUs, or negative.
  lemma AllCpusExactly(load: Load, order: seq<string>, balanced: map<string, int>, pins: Pins, c: string)
    requires Greedy(load, order, Shares(balanced, |load.Keys|), pins)
    requires c in order
    ensures c in balanced && c in pins
    ensures pins[c] == load.Keys <==> balanced[c] < 0 || balanced[c] >= |load.Keys|
  {
    GreedyCovers(load, order, Shares(balanced, |load.Keys|), pins);
    if |pins[c]| == |load.Keys| { SubsetOfSameSize(pins[c], load.Keys); }
  }

  // How far the balancing of `balanced` has come: the containers in `order` are
  // placed greedily and pinned accordingly, the others are as `fixedPins` left them.
  ghost predicate Placed(start: Load, balanced: map<string, nat>, fixedPins: Pinning,
                         order: seq<string>, pins: Pins, pinning: Pinning, load: Load) {
    && (forall c :: c in order ==> c in pins)
    && Greedy(start, order, balanced, pins)
    && load == Apply(start, order, pins)
    && PinnedAs(fixedPins, order, pins, pinning)
  }

  ghost predicate PinnedAs(fixedPins: Pinning, order: seq<string>, pins: Pins, pinning: Pinning)
    requires forall c :: c in order ==> c in pins
  {
    && (forall c :: c !in order ==> Get(pinning, c) == Get(fixedPins, c))
    && (forall c :: c in order ==> Distinct(Get(pinning, c)))
    && (forall c, x :: c in order ==> (x in Get(pinning, c) <==> x in pins[c]))
  }

  lemma PinnedAsOneMore(fixedPins: Pinning, order: seq<string>, pins: Pins, pinning: Pinning, c: string,
                        picked: set<int>, pinning': Pinning)
    requires forall d :: d in order ==> d in pins
    requires PinnedAs(fixedPins, order, pins, pinning)
    requires c !in order
    requires forall d :: d != c ==> Get(pinning', d) == Get(pinning, d)
    requires Distinct(Get(pinning', c))
    requires forall x :: x in Get(pinning', c) <==> x in picked
    ensures PinnedAs(fixedPins, order + [c], pins[c := picked], pinning')
  {
  }

  lemma PlacedOneMore(start: Load, balanced: map<string, nat>, fixedPins: Pinning, order: seq<string>, pins: Pins,
                      pinning: Pinning, load: Load, c: string, picked: set<int>, pinning': Pinning)
    requires Placed(start, balanced, fixedPins, order, pins, pinning, load)
    requires c !in order && c in balanced
    requires Picks(load, balanced[c], picked)
    requires forall d :: d != c ==> Get(pinning', d) == Get(pinning, d)
    requires Distinct(Get(pinning', c))
    requires forall x :: x in Get(pinning', c) <==> x in picked
    ensures Placed(start, balanced, fixedPins, order + [c], pins[c := picked], pinning', Bump(load, picked))
  {
    var pins' := pins[c := picked];
    GreedyIgnoresOthers(start, order, balanced, pins, pins');
    GreedyExtends(start, order, c, balanced, pins');
    PinnedAsOneMore(fixedPins, order, pins, pinning, c, picked, pinning');
  }

  // The loop over the containers to balance, in any order.
  method BalanceAll(usage: map<int, TaskCpu>, sortedUsage: array<TaskCpu>, balanced: map<string, int>,
                    fixedPins: Pinning)
    returns (pinning: Pinning, ghost order: seq<string>, ghost pins: Pins)
    requires IsUsage(usage)
    requires Linked(usage, sortedUsage[..])
    requires Conserved(usage, fixedPins)
    requires forall c :: c in balanced ==> Get(fixedPins, c) == []
    modifies sortedUsage, usage.Values
    ensures Conserved(usage, pinning)
    ensures Placed(old(Counts(usage)), Shares(balanced, |usage.Keys|), fixedPins, order, pins, pinning, Counts(usage))
    ensures Distinct(order) && forall c :: c in order <==> c in balanced
  {
    ghost var start := Counts(usage);
    pinning := fixedPins;
    order, pins := [], map[];
    var rest := balanced.Keys;
    while rest != {}
      invariant rest <= balanced.Keys
      invariant Linked(usage, sortedUsage[..])
      invariant Conserved(usage, pinning)
      invariant Lists(order, balanced.Keys - rest)
      invariant Placed(start, Shares(balanced, |usage.Keys|), fixedPins, order, pins, pinning, Counts(usage))
      decreases rest
    {
      var ctn :| ctn in rest;
      rest := rest - {ctn};
      ghost var picked;
      ghost var before, load := pinning, Counts(usage);
      ListsOneMore(order, balanced.Keys - rest - {ctn}, ctn, balanced.Keys - rest);
      pinning, picked := PinLeastLoaded(usage, sortedUsage, ctn, balanced[ctn], pinning);
      PlacedOneMore(start, Shares(balanced, |usage.Keys|), fixedPins, order, pins, before, load, ctn, picked, pinning);
      order, pins := order + [ctn], pins[ctn := picked];
    }
  }

  lemma BalancedStartUnpinned(containers: seq<Container>, cpus: seq<int>, pinning: Pinning)
    requires DistinctNames(containers)
    requires forall c, x :: Times(pinning, c, x) == if x in cpus then Listed(containers, c, x) else 0
    ensures forall c :: c in Balanced(containers, |cpus|) ==> Get(pinning, c) == []
  {
    forall c | c in Balanced(containers, |cpus|) ensures Get(pinning, c) == [] {
      var s := Get(pinning, c);
      var x := if s == [] then 0 else s[0];
      BalancedIsNotListed(containers, |cpus|, c, x);
      assert Times(pinning, c, x) == 0;
    }
  }

  lemma {:induction false} SizeOfDistinct(s: seq<int>)
    requires Distinct(s)
    ensures |set x | x in s| == |s|
  {
    if s != [] {
      var front, last := s[..|s| - 1], s[|s| - 1];
      SizeOfDistinct(front);
      assert (set x | x in s) == (set x | x in front) + {last} by {
        forall x ensures x in s <==> x in front || x == last {}
      }
    }
  }

  // What a container asked for, in numbers: nothing if it is stopped; as many CPUs
  // as it counts, each once, or all of them for a negative or too great a count; or
  // the CPUs of its list that the host has, as often as listed.
  ghost predicate IsServed(c: Container, cpus: seq<int>, pinned: seq<int>) {
    && (!c.running ==> pinned == [])
    && (c.running && c.limit.Count? ==> Distinct(pinned) && forall x :: x in pinned ==> x in cpus)
    && (c.running && c.limit.Count? ==>
          |pinned| == if 0 <= c.limit.n <= |cpus| then c.limit.n else |cpus|)
    && (c.running && c.limit.Cpuset? ==>
          forall x :: multiset(pinned)[x] == if x in cpus then multiset(c.limit.cpus)[x] else 0)
  }

  lemma SizeOfPinned(pinned: seq<int>, picked: set<int>)
    requires Distinct(pinned)
    requires forall x :: x in pinned <==> x in picked
    ensures |pinned| == |picked|
  {
    SizeOfDistinct(pinned);
    assert (set x | x in pinned) == picked by {
      forall x ensures x in pinned <==> x in picked {}
    }
  }

  lemma BalancedIsServed(cpus: seq<int>, containers: seq<Container>, start: Load, order: seq<string>, pins: Pins,
                         pinned: seq<int>, i: nat)
    requires Distinct(cpus)
    requires DistinctNames(containers)
    requires i < |containers| && containers[i].running && containers[i].limit.Count?
    requires start.Keys == set x | x in cpus
    requires Greedy(start, order, Shares(Balanced(containers, |cpus|), |cpus|), pins)
    requires containers[i].name in order && containers[i].name in pins
    requires Distinct(pinned)
    requires forall x :: x in pinned <==> x in pins[containers[i].name]
    ensures IsServed(containers[i], cpus, pinned)
  {
    ContainerIsPinnedOrBalanced(containers, |cpus|, i, 0);
    GreedyCovers(start, order, Shares(Balanced(containers, |cpus|), |cpus|), pins);
    SizeOfDistinct(cpus);
    SizeOfPinned(pinned, pins[containers[i].name]);
  }

  lemma FixedIsServed(cpus: seq<int>, containers: seq<Container>, pinning: Pinning, i: nat)
    requires DistinctNames(containers)
    requires i < |containers| && !(containers[i].running && containers[i].limit.Count?)
    requires forall x :: Times(pinning, containers[i].name, x) ==
                         if x in cpus then Listed(containers, containers[i].name, x) else 0
    ensures IsServed(containers[i], cpus, Get(pinning, containers[i].name))
  {
    var pinned := Get(pinning, containers[i].name);
    assert pinned != [] ==> multiset(pinned)[pinned[0]] > 0;
    forall x
      ensures multiset(pinned)[x] ==
                if x in cpus && containers[i].running then multiset(containers[i].limit.cpus)[x] else 0
    {
      ContainerIsPinnedOrBalanced(containers, |cpus|, i, x);
      assert Times(pinning, containers[i].name, x) ==
             if x in cpus then Listed(containers, containers[i].name, x) else 0;
    }
  }

  // All of deviceTaskBalance. The counters of the run come back as `loads`; `order`,
  // `pins` and `start` describe the greedy run that produced them.
  method DeviceTaskBalance(cpus: seq<int>, containers: seq<Container>)
    returns (pinning: Pinning, loads: Load, ghost start: Load, ghost order: seq<string>, ghost pins: Pins)
    requires Distinct(cpus)
    requires DistinctNames(containers)
    ensures start.Keys == loads.Keys == set x | x in cpus
    ensures forall c :: c in order ==> c in pins
    ensures Greedy(start, order, Shares(Balanced(containers, |cpus|), |cpus|), pins)
    ensures loads == Apply(start, order, pins)
    ensures Distinct(order) && forall c :: c in order <==> c in Balanced(containers, |cpus|)
    ensures forall c :: c in order ==> Distinct(Get(pinning, c))
    ensures forall c, x :: c in order ==> (x in Get(pinning, c) <==> x in pins[c])
    ensures forall c, x :: c !in order ==> Times(pinning, c, x) == if x in cpus then Listed(containers, c, x) else 0
    ensures forall x :: x in loads ==> loads[x] == Occurrences(pinning, x)
    ensures forall d :: SpreadAtMost(start, d) ==> SpreadAtMost(loads, Max(1, d))
    ensures forall i :: 0 <= i < |containers| ==> IsServed(containers[i], cpus, Get(pinning, containers[i].name))
  {
    var fixedContainers, balanced := Classify(containers, cpus);
    var usage := NewUsage(cpus);
    SizeOfDistinct(cpus);
    var fixedPins := PinFixed(usage, fixedContainers);
    BalancedStartUnpinned(containers, cpus, fixedPins);
    var sortedUsage := Collect(usage);
    start := Counts(usage);
    pinning, order, pins := BalanceAll(usage, sortedUsage, balanced, fixedPins);
    loads := map id | id in usage :: usage[id].count;
    forall d | SpreadAtMost(start, d) ensures SpreadAtMost(loads, Max(1, d)) {
      GreedyKeepsSpread(start, order, Shares(balanced, |cpus|), pins, d);
    }
    forall c, x | c !in order
      ensures Times(pinning, c, x) == if x in cpus then Listed(containers, c, x) else 0
    {
      assert Times(fixedPins, c, x) == if x in cpus then Listed(containers, c, x) else 0;
    }
    forall i | 0 <= i < |containers| ensures IsServed(containers[i], cpus, Get(pinning, containers[i].name)) {
      ContainerIsPinnedOrBalanced(containers, |cpus|, i, 0);
      if containers[i].running && containers[i].limit.Count? {
        BalancedIsServed(cpus, containers, start, order, pins, Get(pinning, containers[i].name), i);
      } else {
        FixedIsServed(cpus, containers, pinning, i);
      }
    }
  }
}
