// Decimal numbers as text: strconv and the %d verb of fmt.
module Decimal {
  import opened Wrappers

  // Go's int on the 64-bit platforms the daemon runs on.
  const MAX_INT := 0x7fff_ffff_ffff_ffff
  const MIN_INT := -0x8000_0000_0000_0000

  predicate IsDigit(c: char) { '0' <= c <= '9' }

  predicate AllDigits(s: string) { forall k :: 0 <= k < |s| ==> IsDigit(s[k]) }

  function Digit(d: nat): (c: char)
    requires d < 10
    ensures IsDigit(c) && c as int - '0' as int == d
  {
    (d + '0' as int) as char
  }

  function Digits(n: nat): string {
    if n < 10 then [Digit(n)] else Digits(n / 10) + [Digit(n % 10)]
  }

  // strconv.Itoa, and "%d" in fmt.Sprintf
  function Itoa(n: int): string { if n < 0 then "-" + Digits(-n) else Digits(n) }

  function Value(s: string): nat
    requires AllDigits(s)
  {
    if s == "" then 0
    else
      assert IsDigit(s[|s| - 1]);
      Value(s[..|s| - 1]) * 10 + (s[|s| - 1] as int - '0' as int)
  }

  lemma {:induction false} DigitsRoundTrip(n: nat)
    ensures Digits(n) != "" && AllDigits(Digits(n)) && Value(Digits(n)) == n
  {
    var s := Digits(n);
    if n < 10 {
      assert s[..0] == "";
    } else {
      DigitsRoundTrip(n / 10);
      assert s[..|s| - 1] == Digits(n / 10);
    }
  }

  // strconv.ParseInt(s, 10, 64)
  function ParseInt(s: string): Option<int> {
    var signed := s != "" && (s[0] == '-' || s[0] == '+');
    var u := if signed then s[1..] else s;
    if u == "" || !AllDigits(u) then None
    else
      var v: int := if signed && s[0] == '-' then 0 - Value(u) else Value(u);
      if MIN_INT <= v <= MAX_INT then Some(v) else None
  }

  lemma ParseReadsPrint(n: int)
    requires MIN_INT <= n <= MAX_INT
    ensures ParseInt(Itoa(n)) == Some(n)
  {
    var s := Itoa(n);
    var ds := Digits(if n < 0 then -n else n);
    DigitsRoundTrip(if n < 0 then -n else n);
    assert IsDigit(ds[0]);
    if n < 0 { assert s[1..] == ds; }
  }

  predicate AllZeros(s: string) { forall k :: 0 <= k < |s| ==> s[k] == '0' }

  lemma {:induction false} ZerosAreNothing(zeros: string, s: string)
    requires AllZeros(zeros)
    requires AllDigits(s)
    ensures AllDigits(zeros + s) && Value(zeros + s) == Value(s)
    decreases |zeros| + |s|
  {
    var t := zeros + s;
    if s != "" {
      ZerosAreNothing(zeros, s[..|s| - 1]);
      assert t[..|t| - 1] == zeros + s[..|s| - 1];
    } else if zeros != "" {
      ZerosAreNothing(zeros[..|zeros| - 1], "");
      assert t[..|t| - 1] == zeros[..|zeros| - 1] + "";
    }
  }

  lemma {:induction false} ZerosInFront(s: string) returns (zeros: string)
    requires s != "" && AllDigits(s)
    ensures AllZeros(zeros) && s == zeros + Digits(Value(s))
  {
    var front := s[..|s| - 1];
    if front == "" {
      zeros := "";
    } else {
      zeros := ZerosInFront(front);
      var last := [s[|s| - 1]];
      assert s == front + last;
      if Value(front) == 0 {
        assert Value(s) < 10 && Digits(Value(s)) == last;
        zeros := front;
      } else {
        assert Digits(Value(s)) == Digits(Value(front)) + last;
      }
    }
  }

  // What ParseInt reads: a sign or none, and digits, zeros in front or not, that
  // stand for an int.
  predicate IsNumeral(sign: string, zeros: string, m: nat, n: int) {
    && AllZeros(zeros)
    && ((sign == "-" && n == 0 - m) || ((sign == "" || sign == "+") && n == m))
    && MIN_INT <= n <= MAX_INT
  }

  lemma NumeralIsRead(sign: string, zeros: string, m: nat, n: int)
    requires IsNumeral(sign, zeros, m, n)
    ensures ParseInt(sign + (zeros + Digits(m))) == Some(n)
  {
    var u := zeros + Digits(m);
    DigitsRoundTrip(m);
    ZerosAreNothing(zeros, Digits(m));
    assert IsDigit(u[0]);
    assert (sign + u)[|sign|..] == u;
    assert sign != "" ==> (sign + u)[0] == sign[0];
  }

  lemma ReadIsNumeral(s: string, n: int) returns (sign: string, zeros: string, m: nat)
    requires ParseInt(s) == Some(n)
    ensures IsNumeral(sign, zeros, m, n) && s == sign + (zeros + Digits(m))
  {
    var u := if s[0] == '-' || s[0] == '+' then s[1..] else s;
    sign := if s[0] == '-' then "-" else if s[0] == '+' then "+" else "";
    assert s == sign + u;
    m := Value(u);
    zeros := ZerosInFront(u);
  }

  lemma ParseExactly(s: string, n: int)
    ensures ParseInt(s) == Some(n) <==>
              exists sign, zeros, m: nat :: IsNumeral(sign, zeros, m, n) && s == sign + (zeros + Digits(m))
  {
    if ParseInt(s) == Some(n) {
      var sign, zeros, m := ReadIsNumeral(s, n);
    }
    if sign, zeros, m: nat :| IsNumeral(sign, zeros, m, n) && s == sign + (zeros + Digits(m)) {
      NumeralIsRead(sign, zeros, m, n);
    }
  }
}
