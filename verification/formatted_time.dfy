/**
 * reporter/utils/FormattedTime.kt: whole units of time in a nanosecond
 * count, and the same number followed by the unit's suffix.
 */
module FormattedTime {
  import opened Wrappers
  import opened Arith

  datatype UnitOfTime = Day | Hour | Minute | Second | Millisecond | Microsecond

  /** `inNanos`. */
  function InNanos(u: UnitOfTime): (r: int)
    ensures r > 0
  {
    match u
    case Day => 86_400_000_000_000
    case Hour => 3_600_000_000_000
    case Minute => 60_000_000_000
    case Second => 1_000_000_000
    case Millisecond => 1_000_000
    case Microsecond => 1_000
  }

  /**
   * `suffix`. The microsecond suffix is the two characters U+00CE U+00BC
   * followed by `s`, as the source file spells it: a UTF-8 "μs" read back
   * as Latin-1.
   */
  function Suffix(u: UnitOfTime): (r: string)
    ensures |r| > 0 && !('0' <= r[0] <= '9')
  {
    match u
    case Day => "d"
    case Hour => "h"
    case Minute => "m"
    case Second => "s"
    case Millisecond => "ms"
    case Microsecond => "Î¼s"
  }

  /** No two units share a suffix. */
  lemma SuffixesDistinct(u: UnitOfTime, v: UnitOfTime)
    requires u != v
    ensures Suffix(u) != Suffix(v)
  {
  }

  /** Each unit is a whole number of the next smaller one: 24 h, 60 min, 60 s, 1000 ms, 1000 μs. */
  function Smaller(u: UnitOfTime): Option<(UnitOfTime, int)>
  {
    match u
    case Day => Some((Hour, 24))
    case Hour => Some((Minute, 60))
    case Minute => Some((Second, 60))
    case Second => Some((Millisecond, 1000))
    case Millisecond => Some((Microsecond, 1000))
    case Microsecond => None
  }

  lemma UnitsNest(u: UnitOfTime)
    ensures Smaller(u).Some? ==> InNanos(u) == Smaller(u).value.1 * InNanos(Smaller(u).value.0)
    ensures Smaller(u).None? ==> InNanos(u) == 1000
  {
  }

  /** `format`: the value divided by the unit, truncated toward zero as Kotlin's `Long` division does. */
  function Format(value: int, u: UnitOfTime): (r: int)
    ensures value >= 0 ==> r >= 0 && r * InNanos(u) <= value < (r + 1) * InNanos(u)
    ensures value <= 0 ==> r <= 0 && (r - 1) * InNanos(u) < value <= r * InNanos(u)
  {
    Quot(value, InNanos(u))
  }

  /** A longer duration never formats to fewer whole units. */
  lemma FormatMonotone(v: int, w: int, u: UnitOfTime)
    requires v <= w
    ensures Format(v, u) <= Format(w, u)
  {
    QuotMonotone(v, w, InNanos(u));
  }

  /** Less than one unit, in either direction, formats to 0. */
  lemma FormatBelowUnitIsZero(v: int, u: UnitOfTime)
    requires -InNanos(u) < v < InNanos(u)
    ensures Format(v, u) == 0
  {
  }

  /** A whole number of units formats back to that number. */
  lemma FormatWholeUnits(n: int, u: UnitOfTime)
    ensures Format(n * InNanos(u), u) == n
  {
    var b := InNanos(u);
    var q := Format(n * b, u);
    if n >= 0 {
      assert q * b <= n * b < (q + 1) * b;
      if q < n { MulMonotone(q + 1, n, b); }
      if q > n { MulMonotone(n + 1, q, b); }
    } else {
      assert (q - 1) * b < n * b <= q * b;
      if q < n { MulMonotone(q, n - 1, b); }
      if q > n { MulMonotone(n, q - 1, b); }
    }
  }

  // ---------------------------------------------------------------------------
  // Decimal text

  function DigitChar(d: int): (c: char)
    requires 0 <= d < 10
    ensures '0' <= c <= '9'
  {
    "0123456789"[d]
  }

  predicate IsDigits(s: string)
  {
    forall i :: 0 <= i < |s| ==> '0' <= s[i] <= '9'
  }

  /** The decimal digits of a natural number, most significant first, without leading zeros. */
  function NatToDigits(n: nat): (s: string)
    ensures |s| > 0 && IsDigits(s)
    ensures s[0] == '0' <==> n == 0
    ensures n == 0 ==> s == "0"
  {
    if n < 10 then [DigitChar(n)] else NatToDigits(n / 10) + [DigitChar(n % 10)]
  }

  /** The value of a string of decimal digits. */
  function DigitsToNat(s: string): nat
    requires IsDigits(s)
  {
    if s == [] then 0 else 10 * DigitsToNat(s[..|s| - 1]) + (s[|s| - 1] as int - '0' as int)
  }

  lemma {:induction false} DigitsRoundTrip(n: nat)
    ensures DigitsToNat(NatToDigits(n)) == n
  {
    if n >= 10 {
      DigitsRoundTrip(n / 10);
      var s := NatToDigits(n);
      assert s[..|s| - 1] == NatToDigits(n / 10);
    }
  }

  /**
   * The canonical decimal text of an integer, as Kotlin's `Long.toString`
   * writes it: digits without leading zeros, `0` for zero, and a `-` only
   * before a non-zero magnitude.
   */
  predicate CanonicalDecimal(s: string)
  {
    || s == "0"
    || (|s| > 0 && IsDigits(s) && s[0] != '0')
    || (|s| > 1 && s[0] == '-' && IsDigits(s[1..]) && s[1] != '0')
  }

  /** Kotlin's `Long.toString`: a leading `-` for negative values. */
  function IntToString(i: int): (s: string)
    ensures CanonicalDecimal(s)
  {
    if i < 0 then "-" + NatToDigits(-i) else NatToDigits(i)
  }

  /** Read back an optionally negative decimal number. */
  function ParseInt(s: string): Option<int>
  {
    if |s| > 1 && s[0] == '-' && IsDigits(s[1..]) then Some(-(DigitsToNat(s[1..]) as int))
    else if |s| > 0 && IsDigits(s) then Some(DigitsToNat(s))
    else None
  }

  lemma IntStringRoundTrip(i: int)
    ensures ParseInt(IntToString(i)) == Some(i)
  {
    if i < 0 {
      var n: nat := -i;
      assert IntToString(i) == "-" + NatToDigits(n);
      NegativeRoundTrip(n);
    } else {
      var n: nat := i;
      assert IntToString(i) == NatToDigits(n);
      NonNegativeRoundTrip(n);
    }
  }

  /** Canonical text is unique: it is the only canonical text that reads back as its value. */
  lemma CanonicalTextIsUnique(s: string, i: int)
    requires CanonicalDecimal(s) && ParseInt(s) == Some(i)
    ensures s == IntToString(i)
  {
    if |s| > 1 && s[0] == '-' && IsDigits(s[1..]) {
      var d := s[1..];
      assert s[1] == d[0];
      LeadingDigitPositive(d);
      DigitsUnique(d);
      assert s == "-" + d;
    } else {
      assert IsDigits(s);
      DigitsUnique(s);
    }
  }

  /** Digits that do not start with `0` denote a positive number. */
  lemma {:induction false} LeadingDigitPositive(s: string)
    requires |s| > 0 && IsDigits(s) && s[0] != '0'
    ensures DigitsToNat(s) > 0
  {
    if |s| > 1 {
      var p := s[..|s| - 1];
      assert p[0] == s[0];
      LeadingDigitPositive(p);
    }
  }

  /** Digits without a leading zero, or a lone `0`, are the digits of their value. */
  lemma {:induction false} DigitsUnique(s: string)
    requires |s| > 0 && IsDigits(s) && (s == "0" || s[0] != '0')
    ensures s == NatToDigits(DigitsToNat(s))
  {
    var c := s[|s| - 1];
    var d := c as int - '0' as int;
    assert DigitChar(d) == c;
    if |s| > 1 {
      var p := s[..|s| - 1];
      assert p[0] == s[0];
      LeadingDigitPositive(p);
      DigitsUnique(p);
      var n := DigitsToNat(s);
      assert n == 10 * DigitsToNat(p) + d;
      assert n / 10 == DigitsToNat(p) && n % 10 == d;
      assert s == p + [c];
    }
  }

  lemma NonNegativeRoundTrip(n: nat)
    ensures ParseInt(NatToDigits(n)) == Some(n)
  {
    var s := NatToDigits(n);
    assert s[0] != '-';
    DigitsRoundTrip(n);
  }

  lemma NegativeRoundTrip(n: nat)
    requires n > 0
    ensures ParseInt("-" + NatToDigits(n)) == Some(-(n as int))
  {
    var d := NatToDigits(n);
    var s := "-" + d;
    assert s[0] == '-' && s[1..] == d;
    DigitsRoundTrip(n);
  }

  /**
   * `formatString`: the whole number of units in decimal, then the unit's
   * suffix; reading the number back before the suffix gives `format`.
   */
  function FormatString(value: int, u: UnitOfTime): (r: string)
    ensures |r| > |Suffix(u)| && r[|r| - |Suffix(u)|..] == Suffix(u)
    ensures ParseInt(r[..|r| - |Suffix(u)|]) == Some(Format(value, u))
    ensures CanonicalDecimal(r[..|r| - |Suffix(u)|])
  {
    var text := IntToString(Format(value, u));
    IntStringRoundTrip(Format(value, u));
    assert (text + Suffix(u))[..|text|] == text;
    text + Suffix(u)
  }

  /** Example: 1.5 s is "1s", or "1500ms". */
  lemma ExampleSecondAndAHalf()
    ensures Format(1_500_000_000, Second) == 1 && Format(1_500_000_000, Millisecond) == 1500
  {
  }
}
