/**
 Decimal rendering of integers, as `fmt` writes an `int` or `int64_t` for the
 `{}` placeholder: an optional '-' followed by the digits, without leading
 zeros. The parser beside it is the rendering's inverse and serves to show
 that no two integers render alike.
 */
module Decimal {

  predicate IsDigit(c: char) {
    '0' <= c <= '9'
  }

  predicate AllDigits(s: string) {
    forall i :: 0 <= i < |s| ==> IsDigit(s[i])
  }

  function DigitChar(d: nat): (c: char)
    requires d < 10
    ensures IsDigit(c) && c as int - '0' as int == d
  {
    (('0' as int) + d) as char
  }

  /** The digits of `n`, most significant first. */
  function NatToDec(n: nat): (s: string)
    ensures |s| > 0 && AllDigits(s)
    ensures |s| > 1 ==> s[0] != '0'
    decreases n
  {
    if n < 10 then [DigitChar(n)] else NatToDec(n / 10) + [DigitChar(n % 10)]
  }

  /** `x` as `fmt` prints it: a minus sign for negative values, then the digits of |x|. */
  function IntToDec(x: int): (s: string)
    ensures |s| > 0
    ensures s[0] == '-' <==> x < 0
    ensures forall i :: 0 <= i < |s| ==> s[i] == '-' || IsDigit(s[i])
  {
    if x < 0 then "-" + NatToDec(-x) else NatToDec(x)
  }

  /** The value of a string of digits, read from the left. */
  function DecToNat(s: string): nat
    requires AllDigits(s)
    decreases |s|
  {
    if s == [] then 0
    else DecToNat(s[..|s| - 1]) * 10 + (s[|s| - 1] as int - '0' as int)
  }

  /** The value of an optional '-' followed by digits. */
  function DecToInt(s: string): int
    requires |s| > 0
    requires s[0] == '-' ==> AllDigits(s[1..])
    requires s[0] != '-' ==> AllDigits(s)
  {
    if s[0] == '-' then 0 - DecToNat(s[1..]) as int else DecToNat(s)
  }

  lemma {:induction false} NatRoundTrip(n: nat)
    ensures DecToNat(NatToDec(n)) == n
    decreases n
  {
    if n >= 10 {
      var s := NatToDec(n);
      var prefix := NatToDec(n / 10);
      assert s == prefix + [DigitChar(n % 10)];
      assert s[..|s| - 1] == prefix;
      NatRoundTrip(n / 10);
    }
  }

  lemma IntRoundTrip(x: int)
    ensures DecToInt(IntToDec(x)) == x
  {
    if x < 0 {
      var s := IntToDec(x);
      assert s[1..] == NatToDec(-x);
      NatRoundTrip(-x);
    } else {
      NatRoundTrip(x);
    }
  }

  /** Distinct integers have distinct renderings. */
  lemma IntToDecInjective(a: int, b: int)
    requires IntToDec(a) == IntToDec(b)
    ensures a == b
  {
    IntRoundTrip(a);
    IntRoundTrip(b);
  }
}
