/** Decimal integers as text: strconv.Atoi for signed 64-bit values and the
    %d verb for naturals. */
module Decimal {
  import opened Wrappers

  const MinInt64: int := -0x8000_0000_0000_0000
  const MaxInt64: int := 0x7fff_ffff_ffff_ffff

  predicate IsDigit(c: char) { '0' <= c <= '9' }

  predicate AllDigits(s: string)
  {
    forall i :: 0 <= i < |s| ==> IsDigit(s[i])
  }

  function DigitValue(c: char): (d: nat)
    requires IsDigit(c)
    ensures d < 10
  {
    c as int - '0' as int
  }

  function DigitChar(d: nat): (c: char)
    requires d < 10
    ensures IsDigit(c) && DigitValue(c) == d
  {
    ('0' as int + d) as char
  }

  /** The value of a digit string, most significant digit first. */
  function DigitsValue(s: string): (n: nat)
    requires AllDigits(s)
    decreases |s|
  {
    if |s| == 0 then 0 else 10 * DigitsValue(s[..|s| - 1]) + DigitValue(s[|s| - 1])
  }

  /** strconv.Atoi: an optional sign and at least one ASCII digit, leading
      zeros allowed, no spaces or underscores, and the value within int64. */
  function Atoi(s: string): (r: Option<int>)
    ensures r.Some? ==> MinInt64 <= r.value <= MaxInt64
    ensures r.Some? ==> |s| > 0
  {
    var negative := |s| > 0 && s[0] == '-';
    var digits := if |s| > 0 && (s[0] == '-' || s[0] == '+') then s[1..] else s;
    if |digits| == 0 || !AllDigits(digits) then None
    else
      var d: int := DigitsValue(digits);
      var v := if negative then -d else d;
      if v < MinInt64 || MaxInt64 < v then None else Some(v)
  }

  /** %d of a natural number: no sign, no leading zeros, "0" for zero. */
  function Format(n: nat): (s: string)
    ensures |s| > 0 && AllDigits(s)
    ensures |s| > 1 ==> s[0] != '0'
    ensures DigitsValue(s) == n
    decreases n
  {
    if n < 10 then [DigitChar(n)]
    else
      var s := Format(n / 10) + [DigitChar(n % 10)];
      assert s[..|s| - 1] == Format(n / 10);
      s
  }

  /** %d of any integer: a minus sign before the digits of a negative one. */
  function FormatInt(n: int): (s: string)
    ensures |s| > 0
  {
    if n < 0 then "-" + Format(-n) else Format(n)
  }

  /** Atoi reads back whatever %d writes, over the whole int64 range. */
  lemma AtoiFormat(n: int)
    requires MinInt64 <= n <= MaxInt64
    ensures Atoi(FormatInt(n)) == Some(n)
  {
    var s := FormatInt(n);
    if n < 0 {
      assert s[1..] == Format(-n);
    }
  }

  /** Digit strings without leading zeros are determined by their value. */
  lemma {:induction false} DigitsValueInjective(a: string, b: string)
    requires AllDigits(a) && AllDigits(b) && |a| > 0 && |b| > 0
    requires (|a| > 1 ==> a[0] != '0') && (|b| > 1 ==> b[0] != '0')
    requires DigitsValue(a) == DigitsValue(b)
    ensures a == b
    decreases |a|
  {
    var la, lb := a[|a| - 1], b[|b| - 1];
    assert DigitValue(la) == DigitsValue(a) % 10 && DigitValue(lb) == DigitsValue(b) % 10;
    assert la == lb;
    var ia, ib := a[..|a| - 1], b[..|b| - 1];
    if |ia| == 0 || |ib| == 0 {
      if |ia| > 0 {
        LeadingDigitPositive(ia);
        assert false;
      }
      if |ib| > 0 {
        LeadingDigitPositive(ib);
        assert false;
      }
    } else {
      assert ia[0] == a[0] && ib[0] == b[0];
      DigitsValueInjective(ia, ib);
    }
  }

  /** A digit string not starting with '0' has a positive value. */
  lemma {:induction false} LeadingDigitPositive(s: string)
    requires AllDigits(s) && |s| > 0 && s[0] != '0'
    ensures DigitsValue(s) > 0
    decreases |s|
  {
    if |s| > 1 {
      LeadingDigitPositive(s[..|s| - 1]);
    }
  }

  /** %d reproduces every canonical digit string from its value. */
  lemma FormatDigits(s: string)
    requires AllDigits(s) && |s| > 0 && (|s| > 1 ==> s[0] != '0')
    ensures Format(DigitsValue(s)) == s
  {
    DigitsValueInjective(Format(DigitsValue(s)), s);
  }
}
