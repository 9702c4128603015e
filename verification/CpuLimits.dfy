// How deviceTaskBalance (apollo/devices.go) reads limits.cpu of all containers
// before it balances any of them.
module CpuLimits {
  import opened Wrappers
  import opened Decimal
  import opened Text
  import opened Cpuset
  import opened CpuBalance

  // `limit` is the expanded limits.cpu, empty when it is not set.
  datatype Setting = Setting(name: string, running: bool, limit: string)

  // The containers to balance; or the balancing ends before it began, with nothing
  // pinned; or it never ends.
  datatype Limits = Given(containers: seq<Container>) | GivesUp | Hangs

  function LimitText(s: Setting, effectiveCpus: string): string {
    if s.limit == "" then effectiveCpus else s.limit
  }

  // A number, or a list that can be read.
  predicate IsLimit(text: string) { ParseInt(text).Some? || AreChunks(Split(text, ',')) }

  function LimitOf(text: string): Limit
    requires IsLimit(text)
  {
    match ParseInt(text)
    case Some(n) => Count(n)
    case None => CpuBalance.Cpuset(AllChunks(Split(text, ',')))
  }

  // Where the host has a single CPU n, a limit that is not set is taken for a count
  // of n, not for the list of that CPU.
  lemma OneCpuIsACount(s: Setting, n: nat)
    requires s.limit == "" && n <= MAX_INT
    ensures var text := LimitText(s, Itoa(n));
            IsLimit(text) && LimitOf(text) == Count(n)
    ensures AreChunks(Split(Itoa(n), ',')) && AllChunks(Split(Itoa(n), ',')) == [n]
  {
    ParseReadsPrint(n);
    var items := [Cpu(n)];
    CpusetRoundTrip(items);
    assert Prints(items) == [Itoa(n)] && Join(Prints(items), ',') == Itoa(n);
    assert Meanings(items) == Meanings([]) + [n];
  }

  // ------------------------------------------------- the texts that stand for a limit

  // A list that no one takes for a number.
  predicate IsList(items: seq<Item>) {
    && items != [] && (|items| > 1 || items[0].Range?)
    && forall i :: 0 <= i < |items| ==> Readable(items[i])
  }

  predicate AsksCount(text: string, n: int) { MIN_INT <= n <= MAX_INT && text == Itoa(n) }

  predicate AsksCpus(text: string, items: seq<Item>) { IsList(items) && text == Join(Prints(items), ',') }

  lemma NoNumber(text: string, i: nat)
    requires i < |text| && !IsDigit(text[i])
    requires i == 0 ==> text[0] != '-' && text[0] != '+'
    ensures ParseInt(text).None?
  {
    var u := if text[0] == '-' || text[0] == '+' then text[1..] else text;
    assert if text[0] == '-' || text[0] == '+' then u[i - 1] == text[i] else u[i] == text[i];
  }

  lemma ListIsNoNumber(items: seq<Item>)
    requires IsList(items)
    ensures ParseInt(Join(Prints(items), ',')).None?
  {
    var text, ps := Join(Prints(items), ','), Prints(items);
    if |items| > 1 {
      var front := Join(ps[..|ps| - 1], ',');
      assert text == front + [','] + ps[|ps| - 1];
      assert text[|front|] == ',';
      NoNumber(text, |front|);
    } else {
      var low := Itoa(items[0].low);
      assert text == low + "-" + Itoa(items[0].high);
      DigitsRoundTrip(items[0].low);
      NoNumber(text, |low|);
    }
  }

  // A number is a count, and a list of CPUs and ranges is those CPUs.
  lemma LimitIsAsAsked(text: string, n: int, items: seq<Item>)
    ensures AsksCount(text, n) ==> IsLimit(text) && LimitOf(text) == Count(n)
    ensures AsksCpus(text, items) ==> IsLimit(text) && LimitOf(text) == CpuBalance.Cpuset(Meanings(items))
  {
    if AsksCount(text, n) { ParseReadsPrint(n); }
    if AsksCpus(text, items) {
      ListIsNoNumber(items);
      ChunksArePrints(items);
      CpusetRoundTrip(items);
    }
  }

  lemma {:induction false} PieceHas(s: string, sep: char, c: char) returns (i: nat)
    requires c in s && c != sep
    ensures i < |Split(s, sep)| && c in Split(s, sep)[i]
  {
    var front, ps := Split(s[..|s| - 1], sep), Split(s, sep);
    if s[|s| - 1] == c {
      i := |front| - 1;
      assert ps[i][|ps[i]| - 1] == c;
    } else {
      i := PieceHas(s[..|s| - 1], sep, c);
      if i == |front| - 1 { assert front[i] <= ps[i]; }
    }
  }

  predicate IsOdd(c: char) { !('0' <= c <= '9') && c != '-' && c != '+' && c != ',' }

  // Nothing else than digits, signs and commas can be in a limit.
  lemma OddTextIsNoLimit(text: string, c: char)
    requires c in text && IsOdd(c)
    ensures !IsLimit(text)
  {
    var k :| 0 <= k < |text| && text[k] == c;
    NoNumber(text, k);
    var i := PieceHas(text, ',', c);
    var chunk := Split(text, ',')[i];
    var m :| 0 <= m < |chunk| && chunk[m] == c;
    if '-' in chunk {
      var d := Dash(chunk);
      if m < d { NoNumber(chunk[..d], m); } else { NoNumber(chunk[d + 1..], m - d - 1); }
    } else {
      NoNumber(chunk, m);
    }
    assert !IsChunk(Split(text, ',')[i]);
  }

  // The limit of a stopped container is not read.
  predicate Fine(s: Setting, effectiveCpus: string) { s.running ==> IsLimit(LimitText(s, effectiveCpus)) }

  predicate AllFine(settings: seq<Setting>, effectiveCpus: string) {
    forall i :: 0 <= i < |settings| ==> Fine(settings[i], effectiveCpus)
  }

  predicate FirstUnfit(settings: seq<Setting>, effectiveCpus: string, n: int) {
    0 <= n < |settings| && AllFine(settings[..n], effectiveCpus) && !Fine(settings[n], effectiveCpus)
  }

  // The containers with the limits that their settings stand for.
  ghost predicate Stands(settings: seq<Setting>, effectiveCpus: string, containers: seq<Container>) {
    && |containers| == |settings|
    && (forall i :: 0 <= i < |settings| ==>
          containers[i].name == settings[i].name && containers[i].running == settings[i].running)
    && (forall i :: 0 <= i < |settings| && settings[i].running && IsLimit(LimitText(settings[i], effectiveCpus)) ==>
          containers[i].limit == LimitOf(LimitText(settings[i], effectiveCpus)))
  }

  method ReadLimit(cpulimit: string) returns (limit: Option<Limit>, endless: bool)
    ensures limit == if IsLimit(cpulimit) then Some(LimitOf(cpulimit)) else None
    ensures limit.None? ==> (endless <==> ReadsForEver(Split(cpulimit, ',')))
  {
    var count := ParseInt(cpulimit);
    if count.Some? {
      return Some(Count(count.value)), false;
    }
    var list := ParseCpuset(cpulimit);
    limit := if list.Cpus? then Some(CpuBalance.Cpuset(list.cpus)) else None;
    endless := list.Endless?;
  }

  lemma UnfitOnce(settings: seq<Setting>, effectiveCpus: string, n: int)
    requires FirstUnfit(settings, effectiveCpus, n)
    ensures !AllFine(settings, effectiveCpus)
    ensures forall m :: FirstUnfit(settings, effectiveCpus, m) ==> m == n
  {
    forall m | 0 <= m < |settings| && m != n ensures !FirstUnfit(settings, effectiveCpus, m) {
      if n < m {
        assert settings[..m][n] == settings[n];
      } else {
        assert settings[..n][m] == settings[m];
      }
    }
  }

  lemma StandsOneMore(settings: seq<Setting>, effectiveCpus: string, containers: seq<Container>, s: Setting,
                      c: Container)
    requires Stands(settings, effectiveCpus, containers)
    requires AllFine(settings, effectiveCpus)
    requires Fine(s, effectiveCpus)
    requires c.name == s.name && c.running == s.running
    requires s.running ==> c.limit == LimitOf(LimitText(s, effectiveCpus))
    ensures Stands(settings + [s], effectiveCpus, containers + [c])
    ensures AllFine(settings + [s], effectiveCpus)
  {
  }

  // The container's own text, or the host's if it has none.
  predicate HasText(s: Setting, effectiveCpus: string, text: string) {
    s.running && ((s.limit == text && text != "") || (s.limit == "" && text == effectiveCpus))
  }

  ghost predicate AsAsked(settings: seq<Setting>, effectiveCpus: string, containers: seq<Container>)
    requires |containers| == |settings|
  {
    && (forall i, n, text ::
          0 <= i < |settings| && HasText(settings[i], effectiveCpus, text) && AsksCount(text, n)
          ==> containers[i].limit == Count(n))
    && (forall i, items, text ::
          0 <= i < |settings| && HasText(settings[i], effectiveCpus, text) && AsksCpus(text, items)
          ==> containers[i].limit == CpuBalance.Cpuset(Meanings(items)))
  }

  lemma StandsForTexts(settings: seq<Setting>, effectiveCpus: string, containers: seq<Container>)
    requires Stands(settings, effectiveCpus, containers)
    ensures AsAsked(settings, effectiveCpus, containers)
  {
    forall i, n, text | 0 <= i < |settings| && HasText(settings[i], effectiveCpus, text) && AsksCount(text, n)
      ensures containers[i].limit == Count(n)
    {
      LimitIsAsAsked(text, n, []);
    }
    forall i, items, text | 0 <= i < |settings| && HasText(settings[i], effectiveCpus, text) && AsksCpus(text, items)
      ensures containers[i].limit == CpuBalance.Cpuset(Meanings(items))
    {
      LimitIsAsAsked(text, 0, items);
    }
  }

  // Whose text is a number or a list, or who is stopped, is no obstacle; whose text
  // has another character in it is one.
  lemma FineAsAsked(s: Setting, effectiveCpus: string, text: string, n: int, items: seq<Item>, c: char)
    ensures !s.running ==> Fine(s, effectiveCpus)
    ensures HasText(s, effectiveCpus, text) && (AsksCount(text, n) || AsksCpus(text, items)) ==> Fine(s, effectiveCpus)
    ensures HasText(s, effectiveCpus, text) && c in text && IsOdd(c) ==> !Fine(s, effectiveCpus)
  {
    LimitIsAsAsked(text, n, items);
    if c in text && IsOdd(c) { OddTextIsNoLimit(text, c); }
  }

  // Only one unreadable limit, of whichever running container, keeps all of them
  // from being balanced; and if that limit never ends, so does the balancing.
  method ReadLimits(settings: seq<Setting>, effectiveCpus: string) returns (r: Limits)
    ensures r.Given? <==> AllFine(settings, effectiveCpus)
    ensures r.Given? ==> Stands(settings, effectiveCpus, r.containers)
    ensures r.Given? ==> AsAsked(settings, effectiveCpus, r.containers)
    ensures r.Hangs? <==> exists n :: FirstUnfit(settings, effectiveCpus, n) &&
                                      ReadsForEver(Split(LimitText(settings[n], effectiveCpus), ','))
  {
    var containers: seq<Container> := [];
    for i := 0 to |settings|
      invariant AllFine(settings[..i], effectiveCpus)
      invariant Stands(settings[..i], effectiveCpus, containers)
    {
      var s := settings[i];
      assert settings[..i + 1] == settings[..i] + [s];
      if !s.running {
        StandsOneMore(settings[..i], effectiveCpus, containers, s, Container(s.name, false, Count(0)));
        containers := containers + [Container(s.name, false, Count(0))];
        continue;
      }
      var cpulimit := LimitText(s, effectiveCpus);
      var limit, endless := ReadLimit(cpulimit);
      if limit.None? {
        UnfitOnce(settings, effectiveCpus, i);
        return if endless then Hangs else GivesUp;
      }
      StandsOneMore(settings[..i], effectiveCpus, containers, s, Container(s.name, true, limit.value));
      containers := containers + [Container(s.name, true, limit.value)];
    }
    assert settings[..|settings|] == settings;
    StandsForTexts(settings, effectiveCpus, containers);
    return Given(containers);
  }
}
