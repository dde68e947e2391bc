/**
 * `atoi` of the kernel C library (kernel/stdc/stdlib/atoi.c), with `int` 32 bits wide.
 *
 * Leading spaces, an optional sign, then decimal digits up to the first other character, which
 * sets EINVAL.  The register is checked for having gone negative after each digit.
 */
module AtoI {
  import opened Common
  import opened Digits

  const INT_MAX: int := LONG_MAX
  const INT_MIN: int := LONG_MIN

  /** What atoi hands back: the value and what it leaves in errno. */
  datatype Converted = Converted(value: int, errno: Errno)

  /** atoi as written. */
  function Spec(s: seq<char>): (r: Converted)
    ensures INT_MIN <= r.value <= INT_MAX
  {
    var (j, neg) := Sign(s, SkipSpaces(s, 0));
    var e := DigitsEnd(s, j, 10);
    match WrapAccum(s, j, e, 10)
    case Overflowed => Converted(if neg then INT_MIN else INT_MAX, ERange)
    case Done(v) => Converted(if neg then -v else v, if e < |s| then EInval else Unchanged)
  }

  /** The parsing loop of atoi over the characters of a string. */
  method AtoI(s: seq<char>) returns (r: Converted)
    ensures r == Spec(s)
  {
    var i := 0;
    while i < |s| && s[i] == ' '
      invariant 0 <= i <= |s|
      invariant SkipSpaces(s, i) == SkipSpaces(s, 0)
    {
      i := i + 1;
    }
    var (j, neg) := Sign(s, i);
    var ret, end, overflow := CheckedAccumulate(s, j, 10);
    if overflow {
      return Converted(if neg then INT_MIN else INT_MAX, ERange);
    }
    if neg {
      ret := -ret;
    }
    return Converted(ret, if end < |s| then EInval else Unchanged);
  }

  /** atoi saturating at INT_MAX and INT_MIN whenever the value is out of the range of `int`. */
  function Intended(s: seq<char>): (r: Converted)
    ensures INT_MIN <= r.value <= INT_MAX
  {
    var (j, neg) := Sign(s, SkipSpaces(s, 0));
    var e := DigitsEnd(s, j, 10);
    var v := Value(s, j, e, 10);
    if !neg && v > INT_MAX then Converted(INT_MAX, ERange)
    else if neg && v > -INT_MIN then Converted(INT_MIN, ERange)
    else Converted(if neg then -(v as int) else v, if e < |s| then EInval else Unchanged)
  }

  /**
   * While the decimal value of the digit prefix fits in an `int`, atoi as written and as intended
   * agree: that value, negated after '-', and EINVAL exactly when a non-digit stopped the scan.
   */
  lemma AgreesInRange(s: seq<char>)
    requires Value(s, Sign(s, SkipSpaces(s, 0)).0, DigitsEnd(s, Sign(s, SkipSpaces(s, 0)).0, 10), 10) <= INT_MAX
    ensures Spec(s) == Intended(s)
    ensures Spec(s).errno != ERange
  {
    var (j, neg) := Sign(s, SkipSpaces(s, 0));
    WrapAccumExact(s, j, DigitsEnd(s, j, 10), 10);
  }

  /** A decimal numeral reads back as its number, and with a '-' in front as its negation. */
  lemma RoundTrip(n: nat, negative: bool)
    requires n <= INT_MAX
    ensures var s := (if negative then ['-'] else []) + Numeral(n, 10);
      Spec(s) == Converted(if negative then -(n as int) else n, Unchanged)
  {
    var t := Numeral(n, 10);
    var s := (if negative then ['-'] else []) + t;
    var i0 := if negative then 1 else 0;
    assert s[i0..] == t;
    assert SkipSpaces(s, 0) == 0 && Sign(s, 0) == (i0, negative) by {
      if !negative { assert s[0] == t[0] && IsDigitIn(t[0], 10); }
    }
    ValueShift(t, s, i0, |t|, 10);
    assert DigitsEnd(s, i0, 10) == |s|;
    NumeralValue(n, 10);
    AgreesInRange(s);
  }

  /**
   * "4294967300" is 2^32 + 4: the register wraps from 429496730 * 10 to 4 without going negative,
   * so atoi as written returns 4 with no error where INT_MAX and ERANGE are due.
   */
  lemma MissedOverflow()
    ensures Spec("4294967300") == Converted(4, Unchanged)
    ensures Intended("4294967300") == Converted(INT_MAX, ERange)
  {
    WrappedAsWritten("4294967300");
    SaturatedAsIntended("4294967300");
  }

  lemma WrappedAsWritten(s: seq<char>)
    requires s == "4294967300"
    ensures Spec(s) == Converted(4, Unchanged)
  {
    WrapsToFour();
    TenDigitStages(s);
  }

  lemma SaturatedAsIntended(s: seq<char>)
    requires s == "4294967300"
    ensures Intended(s) == Converted(INT_MAX, ERange)
  {
    ValueIsTwoToThirtyTwoPlusFour();
    TenDigitStages(s);
  }
}
