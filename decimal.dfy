/** Decimal digit strings: what Python's str() and the zero-padded format
    specifiers `{n:02}` / `{n:03}` produce for a non-negative int, and the
    value a digit string denotes (used to read timestamps back). */
module Decimal {

  predicate IsDigit(c: char) {
    '0' <= c <= '9'
  }

  predicate IsDigits(s: string) {
    forall i :: 0 <= i < |s| ==> IsDigit(s[i])
  }

  function DigitChar(d: nat): (c: char)
    requires d < 10
    ensures IsDigit(c)
  {
    ('0' as int + d) as char
  }

  function DigitValue(c: char): (d: nat)
    requires IsDigit(c)
    ensures d < 10
  {
    c as int - '0' as int
  }

  function Pow10(k: nat): (r: nat)
    ensures r >= 1
  {
    if k == 0 then 1 else 10 * Pow10(k - 1)
  }

  /** The number a string of decimal digits denotes (most significant first). */
  function Value(s: string): nat
    requires IsDigits(s)
  {
    if s == [] then 0 else 10 * Value(s[..|s| - 1]) + DigitValue(s[|s| - 1])
  }

  /** `str(n)` for a non-negative int: the shortest decimal spelling. */
  function NatToString(n: nat): (s: string)
    ensures |s| >= 1 && IsDigits(s)
  {
    if n < 10 then [DigitChar(n)] else NatToString(n / 10) + [DigitChar(n % 10)]
  }

  /** `str(n)` starts with '0' only for n == 0. */
  lemma {:induction false} NoLeadingZero(n: nat)
    ensures NatToString(n)[0] == '0' <==> n == 0
  {
    if n >= 10 {
      NoLeadingZero(n / 10);
      assert NatToString(n)[0] == NatToString(n / 10)[0];
    }
  }

  function Zeros(k: nat): (s: string)
    ensures |s| == k
    ensures forall i :: 0 <= i < k ==> s[i] == '0'
  {
    if k == 0 then [] else Zeros(k - 1) + ['0']
  }

  /** `f"{n:0{width}}"`: str(n) with '0's on the left up to `width` characters;
      longer spellings are left as they are. */
  function ZeroPad(n: nat, width: nat): string {
    var d := NatToString(n);
    if |d| >= width then d else Zeros(width - |d|) + d
  }

  /** Padding gives at least `width` digits and does not change the value. */
  lemma ZeroPadValue(n: nat, width: nat)
    ensures IsDigits(ZeroPad(n, width)) && |ZeroPad(n, width)| >= width
    ensures Value(ZeroPad(n, width)) == n
  {
    var d := NatToString(n);
    ValueOfNatToString(n);
    if |d| < width {
      LeadingZerosKeepValue(width - |d|, d);
    }
  }

  lemma {:induction false} ValueOfNatToString(n: nat)
    ensures Value(NatToString(n)) == n
  {
    if n >= 10 {
      var s := NatToString(n);
      assert s[..|s| - 1] == NatToString(n / 10);
      ValueOfNatToString(n / 10);
    }
  }

  lemma {:induction false} LeadingZerosKeepValue(k: nat, d: string)
    requires IsDigits(d)
    ensures IsDigits(Zeros(k) + d)
    ensures Value(Zeros(k) + d) == Value(d)
  {
    var s := Zeros(k) + d;
    if d == [] {
      assert s == Zeros(k);
      ValueOfZeros(k);
    } else {
      assert s[..|s| - 1] == Zeros(k) + d[..|d| - 1];
      LeadingZerosKeepValue(k, d[..|d| - 1]);
    }
  }

  lemma {:induction false} ValueOfZeros(k: nat)
    ensures IsDigits(Zeros(k)) && Value(Zeros(k)) == 0
  {
    if k > 0 {
      assert Zeros(k)[..k - 1] == Zeros(k - 1);
      ValueOfZeros(k - 1);
    }
  }

  /** A number below 10^width has at most `width` digits. */
  lemma {:induction false} NatToStringLength(n: nat, width: nat)
    requires 1 <= width && n < Pow10(width)
    ensures |NatToString(n)| <= width
  {
    if n >= 10 {
      assert width >= 2;
      assert n / 10 < Pow10(width - 1);
      NatToStringLength(n / 10, width - 1);
    }
  }

  /** Hence padding such a number gives exactly `width` digits. */
  lemma ZeroPadExact(n: nat, width: nat)
    requires 1 <= width && n < Pow10(width)
    ensures |ZeroPad(n, width)| == width
  {
    NatToStringLength(n, width);
  }
}
