/**
 * Decimal notation of non-negative integers, as a number is printed inside
 * a time label, and the canonical-numeral test that
 * decides whether a property key is an array index.
 */
module Decimal {
  import opened Chars

  function DigitChar(d: nat): (c: char)
    requires d < 10
    ensures IsDigit(c)
  {
    ('0' as int + d) as char
  }

  function DigitValue(c: char): (d: nat)
    requires IsDigit(c)
    ensures d < 10 && DigitChar(d) == c
  {
    c as int - '0' as int
  }

  predicate AllDigits(s: string)
  {
    forall i :: 0 <= i < |s| ==> IsDigit(s[i])
  }

  /** A numeral as JavaScript prints it: digits only, no leading zero unless it is `0` itself. */
  predicate Canonical(s: string)
  {
    |s| > 0 && AllDigits(s) && (s[0] != '0' || |s| == 1)
  }

  /** `String(n)`: the decimal digits of `n`. */
  function NatToString(n: nat): (r: string)
    ensures Canonical(r)
    decreases n
  {
    if n < 10 then [DigitChar(n)] else NatToString(n / 10) + [DigitChar(n % 10)]
  }

  /** The number a string of decimal digits denotes. */
  function DecimalValue(s: string): nat
    requires AllDigits(s)
  {
    if |s| == 0 then 0 else 10 * DecimalValue(s[..|s| - 1]) + DigitValue(s[|s| - 1])
  }

  /** Reading back what `NatToString` printed gives the number. */
  lemma {:induction false} NatToStringRoundTrip(n: nat)
    ensures DecimalValue(NatToString(n)) == n
    decreases n
  {
    if n >= 10 {
      NatToStringRoundTrip(n / 10);
      var s := NatToString(n);
      assert s[..|s| - 1] == NatToString(n / 10);
    }
  }

  lemma {:induction false} NonZeroDigitMakesPositive(s: string, i: nat)
    requires AllDigits(s) && i < |s| && s[i] != '0'
    ensures DecimalValue(s) > 0
    decreases |s|
  {
    if i < |s| - 1 {
      NonZeroDigitMakesPositive(s[..|s| - 1], i);
    }
  }

  /** Printing the value of a canonical numeral gives the numeral back. */
  lemma {:induction false} DecimalValueRoundTrip(s: string)
    requires Canonical(s)
    ensures NatToString(DecimalValue(s)) == s
    decreases |s|
  {
    if |s| > 1 {
      var prefix := s[..|s| - 1];
      assert Canonical(prefix) && prefix[0] == s[0];
      NonZeroDigitMakesPositive(prefix, 0);
      DecimalValueRoundTrip(prefix);
      assert s == prefix + [s[|s| - 1]];
    }
  }

  /** A digit string is canonical exactly when printing its value reproduces it. */
  lemma {:induction false} CanonicalIffRoundTrip(s: string)
    requires AllDigits(s)
    ensures Canonical(s) <==> NatToString(DecimalValue(s)) == s
  {
    if Canonical(s) {
      DecimalValueRoundTrip(s);
    }
  }

  /** 2^32 - 1, the one canonical 32-bit numeral that is not an array index. */
  const MaxArrayLength: nat := 0xFFFF_FFFF

  /**
   * A property key that is an array index: `ToString(ToUint32(P)) === P` and
   * `ToUint32(P) !== 2^32 - 1`. A key that is not a canonical numeral never
   * prints back to itself, and one at or above 2^32 is reduced modulo 2^32
   * to a shorter numeral.
   */
  predicate IsArrayIndex(key: string)
  {
    Canonical(key) && DecimalValue(key) < MaxArrayLength
  }
}
