/** The string formatting the listing relies on: decimal rendering of an
    integer (Int32.ToString), its inverse on digit strings, and String.PadLeft. */
module Text {

  predicate IsDigit(c: char) {
    '0' <= c <= '9'
  }

  predicate AllDigits(s: string) {
    forall i | 0 <= i < |s| :: IsDigit(s[i])
  }

  function DigitChar(d: nat): (c: char)
    requires d < 10
    ensures IsDigit(c) && (c as int) - ('0' as int) == d
  {
    (('0' as int) + d) as char
  }

  function DigitValue(c: char): (d: nat)
    requires IsDigit(c)
    ensures d < 10
  {
    (c as int) - ('0' as int)
  }

  /** The decimal spelling of a natural number, most significant digit first. */
  function NatToString(n: nat): (s: string)
    ensures |s| >= 1 && AllDigits(s)
    ensures s[0] == '0' ==> n == 0
  {
    if n < 10 then [DigitChar(n)] else NatToString(n / 10) + [DigitChar(n % 10)]
  }

  /** The value of a string of decimal digits. */
  function ParseNat(s: string): nat
    requires AllDigits(s)
  {
    if s == [] then 0 else ParseNat(s[..|s| - 1]) * 10 + DigitValue(s[|s| - 1])
  }

  lemma {:induction false} ParseNatToString(n: nat)
    ensures ParseNat(NatToString(n)) == n
  {
    if n >= 10 {
      var s := NatToString(n);
      assert s[..|s| - 1] == NatToString(n / 10);
      ParseNatToString(n / 10);
    }
  }

  /** Int32.ToString in the invariant culture: a minus sign, then the digits. */
  function IntToString(i: int): (s: string)
    ensures |s| >= 1
  {
    if i < 0 then "-" + NatToString(-i) else NatToString(i)
  }

  /** The digits of IntToString read back as the absolute value, after a
      minus sign exactly for a negative number. */
  lemma IntToStringReadsBack(i: int)
    ensures var s := IntToString(i);
      (i >= 0 ==> AllDigits(s) && ParseNat(s) == i) &&
      (i < 0 ==> s[0] == '-' && AllDigits(s[1..]) && ParseNat(s[1..]) == -i)
  {
    if i < 0 {
      ParseNatToString(-i);
      assert ("-" + NatToString(-i))[1..] == NatToString(-i);
    } else {
      ParseNatToString(i);
    }
  }

  function Repeat(c: char, n: nat): (s: string)
    ensures |s| == n
    ensures forall k | 0 <= k < n :: s[k] == c
  {
    if n == 0 then [] else [c] + Repeat(c, n - 1)
  }

  /** String.PadLeft(width, pad): the string right-aligned in a field of the
      given width; a string at least that wide comes back unchanged. A negative
      width throws in .NET and is excluded. */
  function PadLeft(s: string, width: int, pad: char): (r: string)
    requires width >= 0
    ensures |r| == if |s| < width then width else |s|
    ensures r[|r| - |s|..] == s
    ensures forall k | 0 <= k < |r| - |s| :: r[k] == pad
  {
    if |s| < width then Repeat(pad, width - |s|) + s else s
  }
}
