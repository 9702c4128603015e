// nextSnapshot and the generated snapshot names (apollo/container_snapshot.go).
module SnapshotNames {
  import opened Wrappers
  import opened Decimal
  import opened Tables
  import opened ContainerStore
  import opened ContainerDatabase
  import opened ContainerRename

  // ---------------------------------------------------------------- scanning

  // The spaces that scanning skips; a newline is an error there.
  predicate IsSpace(c: char) {
    || ('\t' <= c <= '\r' && c != '\n') || c == ' ' || c == '\U{85}' || c == '\U{A0}' || c == '\U{1680}'
    || '\U{2000}' <= c <= '\U{200A}' || c == '\U{2028}' || c == '\U{2029}' || c == '\U{202F}' || c == '\U{205F}' ||
        c == '\U{3000}'
  }

  // By their code points.
  lemma SpacesExactly(c: char)
    ensures IsSpace(c) <==>
              c as int in {0x09, 0x0b, 0x0c, 0x0d, 0x20, 0x85, 0xa0, 0x1680, 0x2028, 0x2029, 0x202f, 0x205f, 0x3000}
              || 0x2000 <= c as int <= 0x200a
  {
  }

  function SkipSpace(s: string): Option<string> {
    if s == "" then Some(s)
    else if s[0] == '\n' then None
    else if IsSpace(s[0]) then SkipSpace(s[1..])
    else Some(s)
  }

  function DigitRun(s: string): (k: nat)
    ensures k <= |s| && AllDigits(s[..k])
    ensures k == |s| || !IsDigit(s[k])
  {
    if s != "" && IsDigit(s[0]) then DigitRun(s[1..]) + 1 else 0
  }

  // The digits at the beginning, whatever follows them.
  function ScanDigits(u: string): Option<nat> {
    var k := DigitRun(u);
    if k == 0 then None else Some(Value(u[..k]))
  }

  // fmt.Sscanf(s, "%d", &num): leading spaces and a sign are accepted, what
  // follows the digits is ignored, and a number beyond 64 bits is an error.
  function Sscanf(s: string): Option<int> {
    match SkipSpace(s)
    case None => None
    case Some(t) =>
      var signed := t != "" && (t[0] == '-' || t[0] == '+');
      match ScanDigits(if signed then t[1..] else t)
      case None => None
      case Some(m) =>
        var v: int := if signed && t[0] == '-' then 0 - m else m;
        if MIN_INT <= v <= MAX_INT then Some(v) else None
  }

  lemma ScanReadsPrint(n: int)
    requires MIN_INT <= n <= MAX_INT
    ensures Sscanf(Itoa(n)) == Some(n)
  {
    var s := Itoa(n);
    var ds := Digits(if n < 0 then -n else n);
    DigitsRoundTrip(if n < 0 then -n else n);
    assert IsDigit(ds[0]);
    if n < 0 { assert s[1..] == ds; }
    assert DigitRun(ds) == |ds|;
    assert ds[..|ds|] == ds;
  }

  lemma {:induction false} SpacesAreSkipped(spaces: string, t: string)
    requires forall i :: 0 <= i < |spaces| ==> IsSpace(spaces[i])
    ensures SkipSpace(spaces + t) == SkipSpace(t)
  {
    var s := spaces + t;
    if spaces == "" {
      assert s == t;
    } else {
      assert s[0] == spaces[0] && IsSpace(s[0]) && s[1..] == spaces[1..] + t;
      SpacesAreSkipped(spaces[1..], t);
    }
  }

  lemma {:induction false} DigitsRun(ds: string, rest: string)
    requires AllDigits(ds)
    requires rest == "" || !IsDigit(rest[0])
    ensures DigitRun(ds + rest) == |ds|
  {
    var s := ds + rest;
    if ds == "" {
      assert s == rest;
    } else {
      assert s[0] == ds[0] && s[1..] == ds[1..] + rest;
      DigitsRun(ds[1..], rest);
    }
  }

  lemma DigitsValue(n: nat, rest: string)
    requires rest == "" || !IsDigit(rest[0])
    ensures ScanDigits(Itoa(n) + rest) == Some(n)
    ensures Itoa(n) != "" && IsDigit(Itoa(n)[0])
  {
    var ds := Itoa(n);
    DigitsRoundTrip(n);
    assert IsDigit(ds[0]);
    DigitsRun(ds, rest);
    assert (ds + rest)[..|ds|] == ds;
  }

  lemma Unsigned(n: nat, rest: string)
    requires rest == "" || !IsDigit(rest[0])
    ensures SkipSpace(Itoa(n) + rest) == Some(Itoa(n) + rest)
    ensures Sscanf(Itoa(n) + rest) == if n <= MAX_INT then Some(n) else None
  {
    DigitsValue(n, rest);
    assert (Itoa(n) + rest)[0] == Itoa(n)[0];
  }

  lemma Signed(sign: char, u: string, n: nat)
    requires sign == '-' || sign == '+'
    requires ScanDigits(u) == Some(n)
    ensures SkipSpace([sign] + u) == Some([sign] + u)
    ensures var v: int := if sign == '-' then 0 - n else n;
            Sscanf([sign] + u) == if MIN_INT <= v <= MAX_INT then Some(v) else None
  {
    assert ([sign] + u)[1..] == u;
  }

  // Spaces, a sign or none, digits, and anything after them: just that number, if it
  // is an int.
  lemma ScanExactly(spaces: string, sign: char, n: nat, rest: string)
    requires forall i :: 0 <= i < |spaces| ==> IsSpace(spaces[i])
    requires sign == '-' || sign == '+'
    requires rest == "" || !IsDigit(rest[0])
    ensures Sscanf(spaces + (Itoa(n) + rest)) == if n <= MAX_INT then Some(n) else None
    ensures var v: int := if sign == '-' then 0 - n else n;
            Sscanf(spaces + ([sign] + (Itoa(n) + rest))) == if MIN_INT <= v <= MAX_INT then Some(v) else None
  {
    var u := Itoa(n) + rest;
    SpacesAreSkipped(spaces, u);
    SpacesAreSkipped(spaces, [sign] + u);
    DigitsValue(n, rest);
    Unsigned(n, rest);
    Signed(sign, u, n);
  }

  // A newline before it, or no digit, is an error.
  lemma ScanNothing(spaces: string, rest: string)
    requires forall i :: 0 <= i < |spaces| ==> IsSpace(spaces[i])
    ensures Sscanf(spaces + ("\n" + rest)) == None
    ensures rest == "" || (!IsSpace(rest[0]) && !IsDigit(rest[0]) && rest[0] != '-' && rest[0] != '+') ==>
              Sscanf(spaces + rest) == None
  {
    SpacesAreSkipped(spaces, "\n" + rest);
    SpacesAreSkipped(spaces, rest);
  }

  // --------------------------------------------------------- the next number

  // What each row of the query counts for.
  type Numbers = seq<Option<int>>

  predicate Wrapless(nums: Numbers) { forall i :: 0 <= i < |nums| ==> nums[i] != Some(MAX_INT) }

  predicate Below(nums: Numbers, next: int) {
    forall i :: 0 <= i < |nums| && nums[i].Some? ==> nums[i].value < next
  }

  // `next` is one more than the greatest number at or above `least`.
  predicate Follows(nums: Numbers, least: int, next: int) {
    least <= next && Below(nums, next) && (next == least || Some(next - 1) in nums)
  }

  // After a number MAX_INT, max = num + 1 wraps around and counting starts again.
  predicate WrapsAt(nums: Numbers, j: nat, next: int) {
    0 < j <= |nums| && nums[j - 1] == Some(MAX_INT) && Wrapless(nums[j..]) && Follows(nums[j..], MIN_INT, next)
  }

  ghost predicate IsNext(nums: Numbers, next: int) {
    if Wrapless(nums) then Follows(nums, 0, next) else exists j :: WrapsAt(nums, j, next)
  }

  // int addition
  function Increment(n: int): int { if n == MAX_INT then MIN_INT else n + 1 }

  function Number(name: string, base: string): (n: Option<int>)
    requires base <= name
    ensures n.Some? ==> MIN_INT <= n.value <= MAX_INT
  {
    Sscanf(name[|base|..])
  }

  predicate Based(names: seq<string>, base: string) {
    forall i :: 0 <= i < |names| ==> base <= names[i]
  }

  function NumbersIn(names: seq<string>, base: string): (nums: Numbers)
    requires Based(names, base)
    ensures |nums| == |names|
    ensures forall i :: 0 <= i < |names| ==> nums[i] == Number(names[i], base)
  {
    seq(|names|, i requires 0 <= i < |names| => Number(names[i], base))
  }

  // The loop has seen n numbers, and last started again after j of them.
  predicate Counted(nums: Numbers, n: nat, j: nat, max: int) {
    && j <= n <= |nums|
    && MIN_INT <= max <= MAX_INT
    && (0 < j ==> nums[j - 1] == Some(MAX_INT))
    && Wrapless(nums[j..n])
    && Follows(nums[j..n], if j == 0 then 0 else MIN_INT, max)
  }

  lemma CountedOneMore(nums: Numbers, n: nat, j: nat, max: int)
    requires n < |nums|
    requires Counted(nums, n, j, max)
    requires nums[n].Some? ==> MIN_INT <= nums[n].value <= MAX_INT
    ensures nums[n].None? || nums[n].value < max ==> Counted(nums, n + 1, j, max)
    ensures nums[n].Some? && nums[n].value >= max ==>
              Counted(nums, n + 1, if nums[n].value == MAX_INT then n + 1 else j, Increment(nums[n].value))
  {
    assert nums[j..n + 1] == nums[j..n] + [nums[n]];
    assert nums[n + 1..n + 1] == [];
  }

  lemma CountIsNext(nums: Numbers, j: nat, max: int)
    requires Counted(nums, |nums|, j, max)
    ensures IsNext(nums, max)
  {
    assert nums[j..|nums|] == nums[j..];
    if j > 0 {
      assert WrapsAt(nums, j, max);
      assert !Wrapless(nums);
    } else {
      assert nums[0..] == nums;
    }
  }

  // The loop of nextSnapshot over the rows of its query.
  method NextNumber(results: seq<string>, base: string) returns (max: int)
    requires Based(results, base)
    ensures IsNext(NumbersIn(results, base), max)
    ensures MIN_INT <= max <= MAX_INT
  {
    max := 0;
    ghost var nums, j := NumbersIn(results, base), 0;
    for n := 0 to |results|
      invariant Counted(nums, n, j, max)
    {
      var numstr := results[n];
      assert nums[n] == Number(numstr, base);
      CountedOneMore(nums, n, j, max);
      if |numstr| <= |base| {
        continue;
      }
      var num := Number(numstr, base);
      if num.None? {
        continue;
      }
      if num.value >= max {
        max := Increment(num.value);
        j := if num.value == MAX_INT then n + 1 else j;
      }
    }
    CountIsNext(nums, j, max);
  }

  lemma PrintedNumber(base: string, n: int)
    requires MIN_INT <= n <= MAX_INT
    ensures base <= base + Itoa(n) && Number(base + Itoa(n), base) == Some(n)
  {
    assert (base + Itoa(n))[|base|..] == Itoa(n);
    ScanReadsPrint(n);
  }

  lemma FollowingNameIsNew(names: seq<string>, base: string, least: int, next: int)
    requires Based(names, base)
    requires MIN_INT <= next <= MAX_INT
    requires Follows(NumbersIn(names, base), least, next)
    ensures base + Itoa(next) !in names
  {
    PrintedNumber(base, next);
    var nums := NumbersIn(names, base);
    forall i | 0 <= i < |names| ensures names[i] != base + Itoa(next) {
      assert nums[i] == Number(names[i], base);
    }
  }

  // Without a number MAX_INT among them, none of the names is the generated one,
  // whatever else they hold.
  lemma NextNameIsNew(names: seq<string>, base: string, next: int)
    requires Based(names, base)
    requires IsNext(NumbersIn(names, base), next)
    requires MIN_INT <= next <= MAX_INT
    requires Wrapless(NumbersIn(names, base))
    ensures base + Itoa(next) !in names
  {
    FollowingNameIsNew(names, base, 0, next);
  }

  // ------------------------------------------------- exactly when a name is new

  lemma OrderEndingTwo(names: set<string>, m: string, u: string) returns (rs: seq<string>)
    requires m in names && u in names && m != u
    ensures Lists(rs, names) && |rs| >= 2 && rs[|rs| - 2] == m && rs[|rs| - 1] == u
  {
    var rest := OrderEnding(names - {u}, m);
    rs := rest + [u];
    assert forall x :: x in rs <==> x in rest || x == u;
  }

  // The names of one query, and a number they may lead to.
  ghost predicate Generates(rs: seq<string>, base: string, next: int) {
    Based(rs, base) && MIN_INT <= next <= MAX_INT && IsNext(NumbersIn(rs, base), next)
  }

  // Some row order makes the generated name one of `names`.
  ghost predicate Collides(names: set<string>, base: string) {
    exists rs, next :: Lists(rs, names) && Generates(rs, base, next) && base + Itoa(next) in names
  }

  predicate Counts(name: string, base: string, n: int) { base <= name && Number(name, base) == Some(n) }

  // A number MAX_INT is there, and with it the name the count then starts from,
  // or two names of which one follows the other.
  ghost predicate WrapsOnto(names: set<string>, base: string) {
    && (exists m :: m in names && Counts(m, base, MAX_INT))
    && (|| base + Itoa(MIN_INT) in names
        || exists u, n :: u in names && n < MAX_INT && Counts(u, base, n) && base + Itoa(n + 1) in names)
  }

  lemma WrapToLeast(names: set<string>, base: string, m: string)
    requires forall s :: s in names ==> base <= s
    requires m in names && Counts(m, base, MAX_INT)
    requires base + Itoa(MIN_INT) in names
    ensures Collides(names, base)
  {
    var rs := OrderEnding(names, m);
    assert Based(rs, base) by {
      forall i | 0 <= i < |rs| ensures base <= rs[i] { assert rs[i] in names; }
    }
    var nums := NumbersIn(rs, base);
    assert nums[|nums|..] == [];
    assert WrapsAt(nums, |nums|, MIN_INT);
    assert Generates(rs, base, MIN_INT);
  }

  lemma CountsOn(nums: Numbers, n: int)
    requires |nums| >= 2 && nums[|nums| - 2] == Some(MAX_INT) && nums[|nums| - 1] == Some(n)
    requires MIN_INT <= n < MAX_INT
    ensures IsNext(nums, n + 1)
  {
    var j := |nums| - 1;
    assert nums[j..] == [Some(n)];
    assert WrapsAt(nums, j, n + 1);
    assert !Wrapless(nums);
  }

  lemma WrapToNext(names: set<string>, base: string, m: string, u: string, n: int)
    requires forall s :: s in names ==> base <= s
    requires m in names && Counts(m, base, MAX_INT)
    requires u in names && Counts(u, base, n) && n < MAX_INT && base + Itoa(n + 1) in names
    ensures Collides(names, base)
  {
    var rs := OrderEndingTwo(names, m, u);
    assert Based(rs, base) by {
      forall i | 0 <= i < |rs| ensures base <= rs[i] { assert rs[i] in names; }
    }
    var nums := NumbersIn(rs, base);
    CountsOn(nums, n);
    assert IsNext(nums, n + 1);
    assert Generates(rs, base, n + 1);
  }

  lemma RowBefore(nums: Numbers, j: nat, next: int) returns (i: nat)
    requires WrapsAt(nums, j, next) && next != MIN_INT
    ensures i < |nums| && nums[i] == Some(next - 1)
  {
    var k :| 0 <= k < |nums[j..]| && nums[j..][k] == Some(next - 1);
    i := j + k;
  }

  lemma IsOntoLeast(names: set<string>, base: string, m: string)
    requires m in names && Counts(m, base, MAX_INT)
    requires base + Itoa(MIN_INT) in names
    ensures WrapsOnto(names, base)
  {
  }

  lemma IsOntoNext(names: set<string>, base: string, m: string, u: string, next: int)
    requires m in names && Counts(m, base, MAX_INT)
    requires u in names && Counts(u, base, next - 1) && next <= MAX_INT && base + Itoa(next) in names
    ensures WrapsOnto(names, base)
  {
  }

  lemma CollisionWraps(names: set<string>, base: string, rs: seq<string>, next: int, j: nat)
    requires Lists(rs, names)
    requires Based(rs, base)
    requires WrapsAt(NumbersIn(rs, base), j, next)
    requires next <= MAX_INT && base + Itoa(next) in names
    ensures WrapsOnto(names, base)
  {
    if next != MIN_INT {
      var i := RowBefore(NumbersIn(rs, base), j, next);
      IsOntoNext(names, base, rs[j - 1], rs[i], next);
    } else {
      IsOntoLeast(names, base, rs[j - 1]);
    }
  }

  // The generated name is new in every order of the rows exactly when no wrap
  // can bring the count back onto a name in use.
  lemma CollidesExactly(names: set<string>, base: string)
    requires forall s :: s in names ==> base <= s
    ensures Collides(names, base) <==> WrapsOnto(names, base)
  {
    if Collides(names, base) {
      var rs, next :| Lists(rs, names) && Generates(rs, base, next) && base + Itoa(next) in names;
      if Wrapless(NumbersIn(rs, base)) {
        NextNameIsNew(rs, base, next);
        assert false;
      } else {
        var j :| WrapsAt(NumbersIn(rs, base), j, next);
        CollisionWraps(names, base, rs, next, j);
      }
    }
    if WrapsOnto(names, base) {
      var m :| m in names && Counts(m, base, MAX_INT);
      if base + Itoa(MIN_INT) in names {
        WrapToLeast(names, base, m);
      } else {
        var u, n :| u in names && n < MAX_INT && Counts(u, base, n) && base + Itoa(n + 1) in names;
        WrapToNext(names, base, m, u, n);
      }
    }
  }

  // ------------------------------------------------------------ on the database

  predicate IsResult(db: Db, i: int, base: string) {
    i in db.containers.rows && db.containers.rows[i].ctype == Snapshot && base <= db.containers.rows[i].name
  }

  // Names of containers that are not snapshots are host names, without a slash.
  ghost predicate PlainContainers(db: Db) {
    forall i :: i in db.containers.rows && db.containers.rows[i].ctype == Regular ==>
        SlashFree(db.containers.rows[i].name)
  }

  // No snapshot of `name` has the number MAX_INT.
  ghost predicate CountBelowMax(db: Db, base: string) {
    forall i :: IsResult(db, i, base) ==> !Counts(db.containers.rows[i].name, base, MAX_INT)
  }

  // The names that the query gives.
  ghost predicate Selects(db: Db, base: string, results: seq<string>) {
    && (forall s :: s in results ==> exists i :: IsResult(db, i, base) && db.containers.rows[i].name == s)
    && (forall i :: IsResult(db, i, base) ==> db.containers.rows[i].name in results)
  }

  // The query, its rows in any order.
  method SelectNames(d: Database, base: string) returns (results: seq<string>)
    ensures Based(results, base)
    ensures Selects(d.db, base, results)
  {
    results := [];
    var ids := set i | i in d.db.containers.rows && d.db.containers.rows[i].ctype == Snapshot &&
        base <= d.db.containers.rows[i].name;
    while ids != {}
      invariant Based(results, base)
      invariant forall i :: i in ids ==> IsResult(d.db, i, base)
      invariant forall i :: IsResult(d.db, i, base) && i !in ids ==> d.db.containers.rows[i].name in results
      invariant forall s :: s in results ==> exists i :: IsResult(d.db, i, base) && d.db.containers.rows[i].name == s
      decreases ids
    {
      ghost var some := Element(ids);
      var i :| i in ids;
      ids := ids - {i};
      results := results + [d.db.containers.rows[i].name];
    }
  }

  lemma GeneratedNameIsFree(db: Db, name: string, results: seq<string>, next: int)
    requires PlainContainers(db)
    requires Selects(db, name + "/snap", results)
    requires Generates(results, name + "/snap", next)
    requires CountBelowMax(db, name + "/snap")
    ensures !HasName(db, name + "/snap" + Itoa(next))
  {
    var base := name + "/snap";
    var fullName := base + Itoa(next);
    var nums := NumbersIn(results, base);
    forall k | 0 <= k < |nums| ensures nums[k] != Some(MAX_INT) {
      assert results[k] in results;
      var i :| IsResult(db, i, base) && db.containers.rows[i].name == results[k];
    }
    NextNameIsNew(results, base, next);
    forall i | i in db.containers.rows ensures db.containers.rows[i].name != fullName {
      assert fullName[|name|] == '/';
      assert base <= fullName;
      assert db.containers.rows[i].ctype == Snapshot && db.containers.rows[i].name == fullName ==>
          IsResult(db, i, base);
    }
  }

  // One more than the greatest number that a snapshot of `base` counts for, or 0.
  ghost predicate IsFollowing(db: Db, base: string, n: int) {
    && n >= 0
    && (forall i, m :: IsResult(db, i, base) && Counts(db.containers.rows[i].name, base, m) ==> m < n)
    && (n > 0 ==> exists i :: IsResult(db, i, base) && Counts(db.containers.rows[i].name, base, n - 1))
  }

  lemma NextIsFollowing(db: Db, base: string, results: seq<string>, next: int)
    requires Selects(db, base, results)
    requires Generates(results, base, next)
    requires CountBelowMax(db, base)
    ensures IsFollowing(db, base, next)
  {
    var nums := NumbersIn(results, base);
    forall k | 0 <= k < |nums| ensures nums[k] != Some(MAX_INT) {
      assert results[k] in results;
      var i :| IsResult(db, i, base) && db.containers.rows[i].name == results[k];
    }
    forall i, m | IsResult(db, i, base) && Counts(db.containers.rows[i].name, base, m) ensures m < next {
      var k :| 0 <= k < |results| && results[k] == db.containers.rows[i].name;
      assert nums[k] == Some(m);
    }
    if next > 0 {
      var k :| 0 <= k < |nums| && nums[k] == Some(next - 1);
      assert results[k] in results;
      var i :| IsResult(db, i, base) && db.containers.rows[i].name == results[k];
      assert Counts(db.containers.rows[i].name, base, next - 1);
    }
  }

  ghost predicate IsGenerated(db: Db, name: string, fullName: string, n: int) {
    && MIN_INT <= n <= MAX_INT && fullName == name + "/snap" + Itoa(n)
    && (CountBelowMax(db, name + "/snap") ==> IsFollowing(db, name + "/snap", n))
  }

  lemma NameIsGenerated(db: Db, name: string, results: seq<string>, next: int, fullName: string)
    requires PlainContainers(db)
    requires Selects(db, name + "/snap", results)
    requires Generates(results, name + "/snap", next)
    requires fullName == name + "/snap" + Itoa(next)
    ensures IsGenerated(db, name, fullName, next)
    ensures CountBelowMax(db, name + "/snap") ==> !HasName(db, fullName)
  {
    if CountBelowMax(db, name + "/snap") {
      GeneratedNameIsFree(db, name, results, next);
      NextIsFollowing(db, name + "/snap", results, next);
    }
  }

  lemma JoinedName(name: string, digits: string)
    ensures name + "/" + ("snap" + digits) == name + "/snap" + digits
  {
    assert "/" + ("snap" + digits) == "/snap" + digits;
    assert name + ("/" + ("snap" + digits)) == name + "/" + ("snap" + digits);
    assert name + ("/snap" + digits) == name + "/snap" + digits;
  }

  // The name that a snapshot request without one gets: no row has it.
  method GeneratedName(d: Database, name: string) returns (fullName: string)
    requires PlainContainers(d.db)
    ensures CountBelowMax(d.db, name + "/snap") ==> !HasName(d.db, fullName)
    ensures exists n :: IsGenerated(d.db, name, fullName, n)
  {
    var results := SelectNames(d, name + "/snap");
    var next := NextNumber(results, name + "/snap");
    fullName := name + "/" + ("snap" + Itoa(next));
    JoinedName(name, Itoa(next));
    NameIsGenerated(d.db, name, results, next, fullName);
  }
}
