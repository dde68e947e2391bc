/**
 * `strtol` of the kernel C library (kernel/stdc/stdlib/strtol.c), with `long` 32 bits wide.
 *
 * Leading spaces are skipped, then an optional sign, then a "0" or "0x" prefix, then digits of the
 * base up to the first character that is not one.  The accumulating register is checked for
 * having gone negative after each digit.
 */
module StrToL {
  import opened Common
  import opened Digits

  predicate ValidBase(base: int)
  {
    0 <= base <= 36 && base != 1
  }

  /** strtol as written. */
  function Spec(s: seq<char>, base: int): (r: Parsed)
    ensures LONG_MIN <= r.value <= LONG_MAX
    ensures r.end.Some? ==> r.end.value <= |s|
  {
    if !ValidBase(base) then Parsed(0, None, EInval)
    else
      var (j, neg) := Sign(s, SkipSpaces(s, 0));
      var (p, b) := Prefix(s, j, base);
      var e := DigitsEnd(s, p, b);
      match WrapAccum(s, p, e, b)
      case Overflowed => Parsed(if neg then LONG_MIN else LONG_MAX, None, ERange)
      case Done(v) => Parsed(if neg then -v else v, Some(e), if e < |s| then EInval else Unchanged)
  }

  /** The parsing loop of strtol over the characters of a string. */
  method StrToL(s: seq<char>, base: int) returns (r: Parsed)
    ensures r == Spec(s, base)
  {
    if base < 0 || base == 1 || base > 36 {
      return Parsed(0, None, EInval);
    }
    var i := 0;
    while i < |s| && s[i] == ' '
      invariant 0 <= i <= |s|
      invariant SkipSpaces(s, i) == SkipSpaces(s, 0)
    {
      i := i + 1;
    }
    var (j, neg) := Sign(s, i);
    var (p, b) := Prefix(s, j, base);
    var ret, end, overflow := CheckedAccumulate(s, p, b);
    if overflow {
      return Parsed(if neg then LONG_MIN else LONG_MAX, None, ERange);
    }
    if neg {
      ret := -ret;
    }
    return Parsed(ret, Some(end), if end < |s| then EInval else Unchanged);
  }

  /**
   * strtol as the C standard describes it: base 0 without a prefix reads decimal, and a value out
   * of the range of `long` gives LONG_MAX or LONG_MIN with ERANGE.
   */
  function Intended(s: seq<char>, base: int): (r: Parsed)
    ensures LONG_MIN <= r.value <= LONG_MAX
  {
    if !ValidBase(base) then Parsed(0, None, EInval)
    else
      var (j, neg) := Sign(s, SkipSpaces(s, 0));
      var (p, b0) := Prefix(s, j, base);
      var b := if b0 == 0 then 10 else b0;
      var e := DigitsEnd(s, p, b);
      var v := Value(s, p, e, b);
      if !neg && v > LONG_MAX then Parsed(LONG_MAX, Some(e), ERange)
      else if neg && v > -LONG_MIN then Parsed(LONG_MIN, Some(e), ERange)
      else Parsed(if neg then -(v as int) else v, Some(e), if e < |s| then EInval else Unchanged)
  }

  /**
   * Where the base is explicit or given by a prefix and the digits' value fits in a `long`, strtol
   * as written and as intended agree: the value (negated after '-'), the end of the digits, and
   * EINVAL exactly when a character other than a digit stopped the scan.
   */
  lemma AgreesInRange(s: seq<char>, base: int)
    requires ValidBase(base)
    requires Prefix(s, Sign(s, SkipSpaces(s, 0)).0, base).1 != 0
    requires Value(s, Prefix(s, Sign(s, SkipSpaces(s, 0)).0, base).0,
      DigitsEnd(s, Prefix(s, Sign(s, SkipSpaces(s, 0)).0, base).0, Prefix(s, Sign(s, SkipSpaces(s, 0)).0, base).1),
      Prefix(s, Sign(s, SkipSpaces(s, 0)).0, base).1) <= LONG_MAX
    ensures Spec(s, base) == Intended(s, base)
    ensures Spec(s, base).errno != ERange
  {
    var (j, neg) := Sign(s, SkipSpaces(s, 0));
    var (p, b) := Prefix(s, j, base);
    WrapAccumExact(s, p, DigitsEnd(s, p, b), b);
  }

  /** A numeral in any base 2..36 reads back as its number, and with a '-' in front as its negation. */
  lemma RoundTrip(n: nat, base: nat, negative: bool)
    requires 2 <= base <= 36 && n <= LONG_MAX
    ensures var s := (if negative then ['-'] else []) + Numeral(n, base);
      Spec(s, base) == Parsed(if negative then -(n as int) else n, Some(|s|), Unchanged) &&
      Intended(s, base) == Spec(s, base)
  {
    var t := Numeral(n, base);
    var s := (if negative then ['-'] else []) + t;
    var i0 := if negative then 1 else 0;
    SignedNumeral(n, base, negative, t, s, i0);
    AgreesInRange(s, base);
  }

  /** How strtol's stages split a numeral with an optional '-': sign, no prefix, all digits. */
  lemma SignedNumeral(n: nat, base: nat, negative: bool, t: seq<char>, s: seq<char>, i0: nat)
    requires 2 <= base <= 36 && n <= LONG_MAX
    requires t == Numeral(n, base) && s == (if negative then ['-'] else []) + t
    requires i0 == if negative then 1 else 0
    ensures SkipSpaces(s, 0) == 0 && Sign(s, 0) == (i0, negative)
    ensures Prefix(s, i0, base).1 == base
    ensures DigitsEnd(s, Prefix(s, i0, base).0, base) == |s|
    ensures Value(s, Prefix(s, i0, base).0, |s|, base) == n
  {
    assert s[i0..] == t;
    assert SkipSpaces(s, 0) == 0 by {
      if !negative { assert s[0] == t[0] && IsDigitIn(t[0], base); }
    }
    assert Sign(s, 0) == (i0, negative) by {
      if !negative { assert s[0] == t[0] && IsDigitIn(t[0], base); }
    }
    var p := Prefix(s, i0, base).0;
    assert Prefix(s, i0, base).1 == base;
    DigitsFrom(s, i0, base);
    assert DigitsEnd(s, p, base) == |s|;
    NumeralValue(n, base);
    if n == 0 {
      assert t == ['0'];
      assert Value(s, p, |s|, base) == 0;
    } else {
      assert s[i0] == t[0] != '0';
      assert p == i0;
      ValueShift(t, s, i0, |t|, base);
    }
  }

  /** Every character from i0 on is a digit when the suffix from i0 is all digits. */
  lemma DigitsFrom(s: seq<char>, i0: nat, base: nat)
    requires i0 <= |s| && forall j :: 0 <= j < |s[i0..]| ==> IsDigitIn(s[i0..][j], base)
    ensures forall k :: i0 <= k < |s| ==> IsDigitIn(s[k], base)
  {
    forall k | i0 <= k < |s|
      ensures IsDigitIn(s[k], base)
    {
      assert s[k] == s[i0..][k - i0];
    }
  }

  /**
   * Base 0 without a prefix: strtol as written stops at the first digit, returning 0 and EINVAL,
   * where a decimal numeral was meant.
   */
  lemma BaseZeroReadsNothing(n: nat)
    requires 1 <= n <= LONG_MAX
    ensures Spec(Numeral(n, 10), 0) == Parsed(0, Some(0), EInval)
    ensures Intended(Numeral(n, 10), 0) == Parsed(n, Some(|Numeral(n, 10)|), Unchanged)
  {
    var s := Numeral(n, 10);
    assert SkipSpaces(s, 0) == 0 && Sign(s, 0) == (0, false) by {
      assert IsDigitIn(s[0], 10);
    }
    assert Prefix(s, 0, 0) == (0, 0);
    assert DigitsEnd(s, 0, 0) == 0 by {
      assert !IsDigitIn(s[0], 0);
    }
    RoundTrip(n, 10, false);
    assert DigitsEnd(s, 0, 10) == |s|;
    NumeralValue(n, 10);
  }

  /**
   * "4294967300" is 2^32 + 4: the register wraps from 429496730 * 10 to 4 without going negative,
   * so strtol as written returns 4 with no error where LONG_MAX and ERANGE are due.
   */
  lemma MissedOverflow()
    ensures Spec("4294967300", 10) == Parsed(4, Some(10), Unchanged)
    ensures Intended("4294967300", 10) == Parsed(LONG_MAX, Some(10), ERange)
  {
    WrappedAsWritten("4294967300");
    SaturatedAsIntended("4294967300");
  }

  lemma WrappedAsWritten(s: seq<char>)
    requires s == "4294967300"
    ensures Spec(s, 10) == Parsed(4, Some(10), Unchanged)
  {
    WrapsToFour();
    TenDigitStages(s);
  }

  lemma SaturatedAsIntended(s: seq<char>)
    requires s == "4294967300"
    ensures Intended(s, 10) == Parsed(LONG_MAX, Some(10), ERange)
  {
    ValueIsTwoToThirtyTwoPlusFour();
    TenDigitStages(s);
  }
}
