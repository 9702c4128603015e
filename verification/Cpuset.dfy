// parseCpuset (apollo/devices.go), the reader of CPU lists such as "0-3,8".
module Cpuset {
  import opened Wrappers
  import opened Decimal
  import opened Text

  // low, low + 1, ..., high
  function Span(low: int, high: int): (cpus: seq<int>)
    ensures |cpus| == if low <= high then high - low + 1 else 0
    ensures forall i :: 0 <= i < |cpus| ==> cpus[i] == low + i
    decreases high - low
  {
    if low > high then [] else Span(low, high - 1) + [high]
  }

  // The place of the first '-'.
  function Dash(s: string): (k: nat)
    ensures k <= |s| && (k < |s| ==> s[k] == '-')
    ensures '-' !in s[..k]
    ensures k == |s| <==> '-' !in s
  {
    if s == "" || s[0] == '-' then 0
    else
      assert s == [s[0]] + s[1..] && s[..Dash(s[1..]) + 1] == [s[0]] + s[1..][..Dash(s[1..])];
      Dash(s[1..]) + 1
  }

  // --------------------------------------------------- the counter of a range

  // i++ on Go's int
  function Following(i: int): int { if i == MAX_INT then MIN_INT else i + 1 }

  // The counter of `for i := low; i <= high; i++` after n turns.
  function Counter(low: int, n: nat): int { if n == 0 then low else Following(Counter(low, n - 1)) }

  ghost predicate NeverEnds(low: int, high: int) {
    forall n: nat :: Counter(low, n) <= high
  }

  lemma {:induction false} CounterCounts(low: int, n: nat)
    requires MIN_INT <= low <= MAX_INT
    ensures MIN_INT <= Counter(low, n) <= MAX_INT
    ensures low + n <= MAX_INT ==> Counter(low, n) == low + n
  {
    if n > 0 { CounterCounts(low, n - 1); }
  }

  // The loop over a range never ends exactly when the range goes up to the greatest int.
  lemma NeverEndsExactly(low: int, high: int)
    requires MIN_INT <= low <= MAX_INT && MIN_INT <= high <= MAX_INT
    ensures NeverEnds(low, high) <==> high == MAX_INT
  {
    if high == MAX_INT {
      forall n: nat ensures Counter(low, n) <= high {
        CounterCounts(low, n);
      }
    } else {
      var n: nat := if low <= high then high + 1 - low else 0;
      CounterCounts(low, n);
      assert Counter(low, n) > high;
    }
  }

  // ---------------------------------------------------------------- what is read

  // An error, a call that never returns, or the CPUs.
  datatype Reading = Refused | Endless | Cpus(cpus: seq<int>)

  // What one chunk between commas stands for.
  function Chunk(chunk: string): Reading {
    if '-' in chunk then
      match (ParseInt(chunk[..Dash(chunk)]), ParseInt(chunk[Dash(chunk) + 1..]))
      case (Some(low), Some(high)) => if high == MAX_INT then Endless else Cpus(Span(low, high))
      case _ => Refused
    else
      match ParseInt(chunk)
      case Some(nr) => Cpus([nr])
      case None => Refused
  }

  predicate IsChunk(chunk: string) { Chunk(chunk).Cpus? }

  predicate AreChunks(chunks: seq<string>) { forall i :: 0 <= i < |chunks| ==> IsChunk(chunks[i]) }

  function AllChunks(chunks: seq<string>): seq<int>
    requires AreChunks(chunks)
  {
    if chunks == [] then []
    else
      assert IsChunk(chunks[|chunks| - 1]);
      AllChunks(chunks[..|chunks| - 1]) + Chunk(chunks[|chunks| - 1]).cpus
  }

  // Chunk n is the first that does not just give its CPUs.
  predicate StopsAt(chunks: seq<string>, n: int) {
    0 <= n < |chunks| && AreChunks(chunks[..n]) && !IsChunk(chunks[n])
  }

  // Both ends of a range are numbers, and the loop between them never ends.
  ghost predicate IsEndless(chunk: string) {
    && '-' in chunk
    && ParseInt(chunk[..Dash(chunk)]).Some? && ParseInt(chunk[Dash(chunk) + 1..]).Some?
    && NeverEnds(ParseInt(chunk[..Dash(chunk)]).value, ParseInt(chunk[Dash(chunk) + 1..]).value)
  }

  // The first chunk that does not just give its CPUs is a range that never ends.
  ghost predicate ReadsForEver(chunks: seq<string>) {
    exists n :: StopsAt(chunks, n) && IsEndless(chunks[n])
  }

  lemma EndlessChunk(chunk: string)
    ensures Chunk(chunk).Endless? <==> IsEndless(chunk)
  {
    if '-' in chunk {
      var low, high := ParseInt(chunk[..Dash(chunk)]), ParseInt(chunk[Dash(chunk) + 1..]);
      if low.Some? && high.Some? { NeverEndsExactly(low.value, high.value); }
    }
  }

  // The loop over a range. At the greatest int its counter wraps to the least,
  // from where it goes round for ever.
  method CountUp(low: int, high: int) returns (r: Reading)
    requires MIN_INT <= low <= MAX_INT && MIN_INT <= high <= MAX_INT
    ensures r.Endless? <==> NeverEnds(low, high)
    ensures !r.Endless? ==> r == Cpus(Span(low, high))
  {
    NeverEndsExactly(low, high);
    var range: seq<int> := [];
    var i := low;
    while i <= high
      invariant low <= i <= MAX_INT && (i <= high + 1 || i == low)
      invariant range == Span(low, i - 1)
    {
      range := range + [i];
      if Following(i) < i {
        return Endless;
      }
      i := Following(i);
    }
    if i > low { assert i - 1 == high; }
    return Cpus(range);
  }

  method ParseRange(chunk: string) returns (r: Reading)
    requires '-' in chunk
    ensures r == Chunk(chunk)
    ensures r.Endless? <==> IsEndless(chunk)
  {
    var low := ParseInt(chunk[..Dash(chunk)]);
    if low.None? {
      return Refused;
    }
    var high := ParseInt(chunk[Dash(chunk) + 1..]);
    if high.None? {
      return Refused;
    }
    NeverEndsExactly(low.value, high.value);
    r := CountUp(low.value, high.value);
  }

  method ParseChunk(chunk: string) returns (r: Reading)
    ensures r == Chunk(chunk)
  {
    if '-' in chunk {
      r := ParseRange(chunk);
    } else {
      var nr := ParseInt(chunk);
      r := if nr.None? then Refused else Cpus([nr.value]);
    }
  }

  lemma StopsOnce(chunks: seq<string>, n: int)
    requires StopsAt(chunks, n)
    ensures forall m :: StopsAt(chunks, m) ==> m == n
  {
    forall m | 0 <= m < |chunks| && m != n ensures !StopsAt(chunks, m) {
      if n < m {
        assert chunks[..m][n] == chunks[n];
      } else {
        assert chunks[..n][m] == chunks[m];
      }
    }
  }

  lemma ChunksMore(front: seq<string>, chunk: string)
    requires AreChunks(front)
    requires IsChunk(chunk)
    ensures AreChunks(front + [chunk])
    ensures AllChunks(front + [chunk]) == AllChunks(front) + Chunk(chunk).cpus
  {
    assert (front + [chunk])[..|front|] == front;
  }

  lemma ChunksOneMore(chunks: seq<string>, n: nat)
    requires n < |chunks|
    requires AreChunks(chunks[..n])
    ensures IsChunk(chunks[n]) ==>
              AreChunks(chunks[..n + 1]) &&
              AllChunks(chunks[..n + 1]) == AllChunks(chunks[..n]) + Chunk(chunks[n]).cpus
    ensures !IsChunk(chunks[n]) ==> !AreChunks(chunks)
  {
    assert chunks[..n + 1] == chunks[..n] + [chunks[n]];
    if IsChunk(chunks[n]) { ChunksMore(chunks[..n], chunks[n]); }
  }

  // The first chunk that is no number and no range ends the reading with an error,
  // the first range that never ends keeps it from ending; otherwise all are read.
  method ParseCpuset(cpu: string) returns (r: Reading)
    ensures r.Cpus? <==> AreChunks(Split(cpu, ','))
    ensures r.Cpus? ==> r.cpus == AllChunks(Split(cpu, ','))
    ensures r.Endless? <==> ReadsForEver(Split(cpu, ','))
  {
    var cpus: seq<int> := [];
    var chunks := Split(cpu, ',');
    for n := 0 to |chunks|
      invariant AreChunks(chunks[..n]) && cpus == AllChunks(chunks[..n])
    {
      r := ParseChunk(chunks[n]);
      ChunksOneMore(chunks, n);
      if !r.Cpus? {
        StopsOnce(chunks, n);
        EndlessChunk(chunks[n]);
        return;
      }
      cpus := cpus + r.cpus;
    }
    assert chunks[..|chunks|] == chunks;
    return Cpus(cpus);
  }

  // -------------------------------------------------------------- round trips

  datatype Item = Cpu(nr: nat) | Range(low: nat, high: nat)

  predicate Readable(it: Item) {
    match it
    case Cpu(nr) => nr <= MAX_INT
    case Range(low, high) => low <= MAX_INT && high < MAX_INT
  }

  predicate ToTheEnd(it: Item) { it.Range? && it.low <= MAX_INT && it.high == MAX_INT }

  // As the kernel writes CPU lists.
  function Print(it: Item): string {
    match it
    case Cpu(nr) => Itoa(nr)
    case Range(low, high) => Itoa(low) + "-" + Itoa(high)
  }

  function Meaning(it: Item): seq<int> {
    match it
    case Cpu(nr) => [nr]
    case Range(low, high) => Span(low, high)
  }

  function Meanings(items: seq<Item>): seq<int> {
    if items == [] then [] else Meanings(items[..|items| - 1]) + Meaning(items[|items| - 1])
  }

  function Prints(items: seq<Item>): (ps: seq<string>)
    ensures |ps| == |items| && forall i :: 0 <= i < |items| ==> ps[i] == Print(items[i])
  {
    seq(|items|, i requires 0 <= i < |items| => Print(items[i]))
  }

  lemma DigitsOnly(n: nat, c: char)
    requires !IsDigit(c)
    ensures c !in Itoa(n)
  {
    DigitsRoundTrip(n);
    forall x | x in Itoa(n) ensures x != c {
      var i :| 0 <= i < |Itoa(n)| && Itoa(n)[i] == x;
      assert IsDigit(Itoa(n)[i]);
    }
  }

  lemma {:induction false} FirstDash(a: string, b: string)
    requires '-' !in a
    ensures Dash(a + "-" + b) == |a|
  {
    var s := a + "-" + b;
    if a == "" {
      assert s[0] == '-';
    } else {
      assert s[0] == a[0] && a[0] in a && s[1..] == a[1..] + "-" + b;
      FirstDash(a[1..], b);
    }
  }

  lemma ReadsPrint(n: nat)
    ensures ParseInt(Itoa(n)) == if n <= MAX_INT then Some(n) else None
  {
    DigitsRoundTrip(n);
    assert IsDigit(Itoa(n)[0]);
  }

  lemma ItemRoundTrip(it: Item)
    ensures Chunk(Print(it)) ==
              if Readable(it) then Cpus(Meaning(it)) else if ToTheEnd(it) then Endless else Refused
    ensures ',' !in Print(it)
  {
    match it
    case Cpu(nr) =>
      DigitsOnly(nr, '-');
      DigitsOnly(nr, ',');
      ReadsPrint(nr);
    case Range(low, high) =>
      var a, b := Itoa(low), Itoa(high);
      DigitsOnly(low, '-');
      DigitsOnly(low, ',');
      DigitsOnly(high, ',');
      FirstDash(a, b);
      var s := a + "-" + b;
      assert s[..|a|] == a && s[|a| + 1..] == b && s[|a|] == '-';
      ReadsPrint(low);
      ReadsPrint(high);
  }

  lemma {:induction false} ItemsMean(items: seq<Item>)
    requires forall i :: 0 <= i < |items| ==> Readable(items[i])
    ensures AreChunks(Prints(items))
    ensures AllChunks(Prints(items)) == Meanings(items)
  {
    forall i | 0 <= i < |items| ensures IsChunk(Prints(items)[i]) {
      ItemRoundTrip(items[i]);
    }
    if items != [] {
      ItemsMean(items[..|items| - 1]);
      ItemRoundTrip(items[|items| - 1]);
      assert Prints(items)[..|items| - 1] == Prints(items[..|items| - 1]);
    }
  }

  // Item n is the first that cannot be read.
  predicate FirstUnread(items: seq<Item>, n: int) {
    0 <= n < |items| && !Readable(items[n]) && forall i :: 0 <= i < n ==> Readable(items[i])
  }

  lemma PrintedStops(items: seq<Item>, n: int)
    ensures StopsAt(Prints(items), n) <==> FirstUnread(items, n)
    ensures 0 <= n < |items| ==> (IsEndless(Prints(items)[n]) <==> ToTheEnd(items[n]))
  {
    forall i | 0 <= i < |items| ensures IsChunk(Prints(items)[i]) <==> Readable(items[i]) {
      ItemRoundTrip(items[i]);
    }
    if 0 <= n < |items| {
      ItemRoundTrip(items[n]);
      EndlessChunk(Prints(items)[n]);
      if StopsAt(Prints(items), n) {
        forall i | 0 <= i < n ensures Readable(items[i]) {
          assert IsChunk(Prints(items)[..n][i]);
        }
      }
    }
  }

  lemma ChunksArePrints(items: seq<Item>)
    requires items != []
    ensures Split(Join(Prints(items), ','), ',') == Prints(items)
  {
    forall i | 0 <= i < |items| ensures ',' !in Prints(items)[i] {
      ItemRoundTrip(items[i]);
    }
    SplitJoin(Prints(items), ',');
  }

  // A printed list of CPUs and ranges is read, and then as exactly the CPUs it
  // stands for, if and only if its numbers are ints and no range goes up to the greatest.
  lemma CpusetRoundTrip(items: seq<Item>)
    requires items != []
    ensures var chunks := Split(Join(Prints(items), ','), ',');
            AreChunks(chunks) <==> forall i :: 0 <= i < |items| ==> Readable(items[i])
    ensures var chunks := Split(Join(Prints(items), ','), ',');
            AreChunks(chunks) ==> AllChunks(chunks) == Meanings(items)
  {
    ChunksArePrints(items);
    forall i | 0 <= i < |items| ensures IsChunk(Prints(items)[i]) <==> Readable(items[i]) {
      ItemRoundTrip(items[i]);
    }
    if forall i :: 0 <= i < |items| ==> Readable(items[i]) { ItemsMean(items); }
  }

  // Reading it never ends, exactly when the first item that cannot be read is a
  // range up to the greatest int.
  lemma EndlessExactly(items: seq<Item>)
    requires items != []
    ensures ReadsForEver(Split(Join(Prints(items), ','), ',')) <==>
              exists n :: FirstUnread(items, n) && ToTheEnd(items[n])
  {
    var chunks := Prints(items);
    ChunksArePrints(items);
    if n :| StopsAt(chunks, n) && IsEndless(chunks[n]) {
      PrintedStops(items, n);
    }
    if n :| FirstUnread(items, n) && ToTheEnd(items[n]) {
      PrintedStops(items, n);
    }
  }

  // "0-9223372036854775807", for one, which any container may ask for.
  lemma EndlessList(low: nat)
    requires low <= MAX_INT
    ensures ReadsForEver(Split(Itoa(low) + "-" + Itoa(MAX_INT), ','))
  {
    var items := [Range(low, MAX_INT)];
    assert FirstUnread(items, 0);
    EndlessExactly(items);
    assert Join(Prints(items), ',') == Print(items[0]);
  }
}
