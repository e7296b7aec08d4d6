/**
 * Decimal text of integers, as Python's `str()` and `'{}'.format()` write
 * them, together with the reader that inverts it.
 */
module Decimal {
  import opened Wrappers
  import opened Text

  function DigitChar(d: nat): (c: char)
    requires d < 10
    ensures IsDigit(c)
  {
    ('0' as int + d) as char
  }

  function DigitValue(c: char): (d: nat)
    requires IsDigit(c)
    ensures d < 10 && DigitChar(d) == c
  {
    c as int - '0' as int
  }

  predicate AllDigits(s: string) {
    forall i :: 0 <= i < |s| ==> IsDigit(s[i])
  }

  /** `str(n)` for a non-negative integer: its digits, without leading zeros. */
  function NatToString(n: nat): (r: string)
    ensures r != [] && AllDigits(r)
    ensures r[0] == '0' ==> n == 0
    decreases n
  {
    if n < 10 then [DigitChar(n)] else NatToString(n / 10) + [DigitChar(n % 10)]
  }

  /** `str(i)` for any integer: a minus sign for negative values, then the digits. */
  function IntToString(i: int): (r: string)
    ensures r != []
    ensures i < 0 <==> r[0] == '-'
  {
    if i < 0 then "-" + NatToString(-i) else NatToString(i)
  }

  /** The value of a string of digits. */
  function DigitsValue(s: string): nat
    requires AllDigits(s)
    decreases |s|
  {
    if s == [] then 0 else 10 * DigitsValue(s[..|s| - 1]) + DigitValue(s[|s| - 1])
  }

  lemma {:induction false} NatToStringValue(n: nat)
    ensures DigitsValue(NatToString(n)) == n
    decreases n
  {
    if n >= 10 {
      NatToStringValue(n / 10);
      var s := NatToString(n);
      assert s[..|s| - 1] == NatToString(n / 10);
    }
  }

  /** Different numbers have different decimal text. */
  lemma NatToStringInjective(a: nat, b: nat)
    requires NatToString(a) == NatToString(b)
    ensures a == b
  {
    NatToStringValue(a);
    NatToStringValue(b);
  }

  lemma IntToStringInjective(a: int, b: int)
    requires IntToString(a) == IntToString(b)
    ensures a == b
  {
    if a < 0 && b < 0 {
      assert NatToString(-a) == IntToString(a)[1..];
      NatToStringInjective(-a, -b);
    } else if a >= 0 && b >= 0 {
      NatToStringInjective(a, b);
    }
  }

  /** Number of leading digits. */
  function DigitRun(s: string): (n: nat)
    ensures n <= |s| && AllDigits(s[..(n)])
    ensures n < |s| ==> !IsDigit(s[n])
    decreases |s|
  {
    if s != [] && IsDigit(s[0]) then 1 + DigitRun(s[1..]) else 0
  }

  /** Reads one integer (an optional minus sign and at least one digit) from the front of `s`. */
  function ParseInt(s: string): (r: Option<(int, string)>)
    ensures r.Some? ==> |r.value.1| < |s| && r.value.1 == s[|s| - |r.value.1|..]
    ensures r.Some? ==> IsDigit(s[0]) || (s[0] == '-' && |s| > 1 && IsDigit(s[1]))
    ensures r.Some? ==> r.value.1 == [] || !IsDigit(r.value.1[0])
  {
    if s != [] && s[0] == '-' then
      var t := s[1..];
      var k := DigitRun(t);
      var v: int := 0 - DigitsValue(t[..k]) as int;
      if k == 0 then None else Some((v, t[k..]))
    else
      var k := DigitRun(s);
      var v: int := DigitsValue(s[..k]);
      if k == 0 then None else Some((v, s[k..]))
  }

  lemma {:induction false} DigitRunOf(d: string, rest: string)
    requires AllDigits(d)
    requires rest == [] || !IsDigit(rest[0])
    ensures DigitRun(d + rest) == |d|
    decreases |d|
  {
    if d != [] {
      assert (d + rest)[1..] == d[1..] + rest;
      DigitRunOf(d[1..], rest);
    } else {
      assert d + rest == rest;
    }
  }

  /** Reading back the text of an integer gives the integer and leaves what follows it. */
  lemma ParseIntRoundTrip(i: int, rest: string)
    requires rest == [] || !IsDigit(rest[0])
    ensures ParseInt(IntToString(i) + rest) == Some((i, rest))
  {
    var n: nat := if i < 0 then -i else i;
    var d := NatToString(n);
    NatToStringValue(n);
    DigitRunOf(d, rest);
    assert (d + rest)[..|d|] == d && (d + rest)[|d|..] == rest;
    if i < 0 {
      assert (IntToString(i) + rest)[1..] == d + rest;
    }
  }

  /** Integers separated by single spaces, as `'{} {}'.format(...)` writes them. */
  function NumsText(vs: seq<int>): string
    decreases |vs|
  {
    if vs == [] then ""
    else if |vs| == 1 then IntToString(vs[0])
    else IntToString(vs[0]) + " " + NumsText(vs[1..])
  }

  /** Reads `k` integers separated by single spaces from the front of `s`. */
  function ParseNums(s: string, k: nat): (r: Option<(seq<int>, string)>)
    ensures r.Some? ==> |r.value.0| == k && |r.value.1| <= |s|
    ensures r.Some? && k > 0 ==> |r.value.1| < |s|
    decreases k
  {
    if k == 0 then Some(([], s))
    else
      match ParseInt(s)
      case None => None
      case Some((v, rest)) =>
        if k == 1 then Some(([v], rest))
        else if rest != [] && rest[0] == ' ' then
          match ParseNums(rest[1..], k - 1)
          case None => None
          case Some((vs, tail)) => Some(([v] + vs, tail))
        else None
  }

  lemma ParseNumsOne(vs: seq<int>, rest: string)
    requires |vs| == 1
    requires rest == [] || !IsDigit(rest[0])
    ensures ParseNums(NumsText(vs) + rest, 1) == Some((vs, rest))
  {
    ParseIntRoundTrip(vs[0], rest);
    assert [vs[0]] == vs;
  }

  lemma ParseNumsCons(vs: seq<int>, tail: string, text: string, rest: string)
    requires |vs| >= 2
    requires ParseNums(tail, |vs| - 1) == Some((vs[1..], rest))
    requires text == IntToString(vs[0]) + (" " + tail)
    ensures ParseNums(text, |vs|) == Some((vs, rest))
  {
    ParseIntRoundTrip(vs[0], " " + tail);
    assert (" " + tail)[1..] == tail;
    assert [vs[0]] + vs[1..] == vs;
  }

  lemma NumsTextCons(vs: seq<int>, rest: string)
    requires |vs| >= 2
    ensures NumsText(vs) + rest == IntToString(vs[0]) + (" " + (NumsText(vs[1..]) + rest))
  {
    var a, b := IntToString(vs[0]), NumsText(vs[1..]);
    assert NumsText(vs) == a + " " + b;
    Assoc4(a, " ", b, rest);
  }

  lemma Assoc4(a: string, b: string, c: string, d: string)
    ensures a + b + c + d == a + (b + (c + d))
  {
  }

  /** Reading the first number of a list puts the reader where the text of the others starts. */
  lemma ParseNumsText(vs: seq<int>, rest: string)
    requires |vs| >= 2
    requires ParseNums(NumsText(vs[1..]) + rest, |vs| - 1) == Some((vs[1..], rest))
    ensures ParseNums(NumsText(vs) + rest, |vs|) == Some((vs, rest))
  {
    NumsTextCons(vs, rest);
    ParseNumsCons(vs, NumsText(vs[1..]) + rest, NumsText(vs) + rest, rest);
  }

  lemma {:induction false} NumsRoundTrip(vs: seq<int>, rest: string)
    requires vs != []
    requires rest == [] || !IsDigit(rest[0])
    ensures ParseNums(NumsText(vs) + rest, |vs|) == Some((vs, rest))
    decreases |vs|, 1
  {
    if |vs| == 1 {
      ParseNumsOne(vs, rest);
    } else {
      NumsRoundTripCons(vs, rest);
    }
  }

  lemma {:induction false} NumsRoundTripCons(vs: seq<int>, rest: string)
    requires |vs| >= 2
    requires rest == [] || !IsDigit(rest[0])
    ensures ParseNums(NumsText(vs) + rest, |vs|) == Some((vs, rest))
    decreases |vs|, 0
  {
    var tail := vs[1..];
    assert |tail| == |vs| - 1;
    NumsRoundTrip(tail, rest);
    ParseNumsText(vs, rest);
  }
}
