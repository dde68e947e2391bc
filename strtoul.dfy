/**
 * `strtoul` of the boot loader's C library (boot/stdc/stdlib/strtoul.c), with `unsigned long`
 * 32 bits wide.
 *
 * Like strtol without the sign: leading spaces, a "0" or "0x" prefix, then digits of the base.
 * The register is not checked: the result is the value of the digits modulo 2^32.
 */
module StrToUL {
  import opened Common
  import opened Digits

  predicate ValidBase(base: int)
  {
    0 <= base <= 36 && base != 1
  }

  /** strtoul as written. */
  function Spec(s: seq<char>, base: int): (r: Parsed)
    ensures 0 <= r.value < ULONG_MODULUS
    ensures r.errno != ERange
  {
    if !ValidBase(base) then Parsed(0, None, EInval)
    else
      var (p, b) := Prefix(s, SkipSpaces(s, 0), base);
      var e := DigitsEnd(s, p, b);
      Parsed(Value(s, p, e, b) % ULONG_MODULUS, Some(e), if e < |s| then EInval else Unchanged)
  }

  /** Reducing the register modulo 2^32 after each step gives the value modulo 2^32. */
  lemma ModStep(x: int, b: nat, d: nat)
    ensures (x % ULONG_MODULUS * b + d) % ULONG_MODULUS == (x * b + d) % ULONG_MODULUS
  {
    var m := ULONG_MODULUS;
    var q := x / m;
    assert x == q * m + x % m;
    assert x * b + d == (x % m * b + d) + (q * b) * m;
    ModAddMultiple(x % m * b + d, q * b);
  }

  lemma ModAddMultiple(a: int, k: int)
    ensures (a + k * ULONG_MODULUS) % ULONG_MODULUS == a % ULONG_MODULUS
  {
  }

  /** The parsing loop of strtoul over the characters of a string. */
  method StrToUL(s: seq<char>, base: int) returns (r: Parsed)
    ensures r == Spec(s, base)
  {
    if base < 0 || base == 1 || base > 36 {
      return Parsed(0, None, EInval);
    }
    var i := 0;
    while i < |s| && s[i] == ' '
      invariant 0 <= i <= |s|
      invariant SkipSpaces(s, i) == SkipSpaces(s, 0)
    {
      i := i + 1;
    }
    var (p, b) := Prefix(s, i, base);
    ghost var e := DigitsEnd(s, p, b);
    var ret := 0;
    i := p;
    while i < |s|
      invariant p <= i <= e
      invariant ret == Value(s, p, i, b) % ULONG_MODULUS
    {
      var d := DigitOf(s[i]);
      if d.None? || d.value >= b {
        break;
      }
      ModStep(Value(s, p, i, b), b, d.value);
      ret := (ret * b + d.value) % ULONG_MODULUS;
      i := i + 1;
    }
    return Parsed(ret, Some(i), if i < |s| then EInval else Unchanged);
  }

  /** strtoul with base 0 reading decimal when there is no prefix, as the C standard describes. */
  function Intended(s: seq<char>, base: int): (r: Parsed)
    ensures 0 <= r.value < ULONG_MODULUS
  {
    if !ValidBase(base) then Parsed(0, None, EInval)
    else
      var (p, b0) := Prefix(s, SkipSpaces(s, 0), base);
      var b := if b0 == 0 then 10 else b0;
      var e := DigitsEnd(s, p, b);
      Parsed(Value(s, p, e, b) % ULONG_MODULUS, Some(e), if e < |s| then EInval else Unchanged)
  }

  /** A numeral of a number below 2^32, in any base 2..36, reads back as the number. */
  lemma RoundTrip(n: nat, base: nat)
    requires 2 <= base <= 36 && n < ULONG_MODULUS
    ensures Spec(Numeral(n, base), base) == Parsed(n, Some(|Numeral(n, base)|), Unchanged)
    ensures Intended(Numeral(n, base), base) == Spec(Numeral(n, base), base)
  {
    WrapsModulo(n, base);
    SameWithBase(Numeral(n, base), base);
  }

  /** With an explicit base the two readings agree on every string. */
  lemma SameWithBase(s: seq<char>, base: nat)
    requires 2 <= base <= 36
    ensures Intended(s, base) == Spec(s, base)
  {
    assert Prefix(s, SkipSpaces(s, 0), base).1 == base;
  }

  /** Larger numbers read back modulo 2^32, with no error. */
  lemma WrapsModulo(n: nat, base: nat)
    requires 2 <= base <= 36
    ensures Spec(Numeral(n, base), base) == Parsed(n % ULONG_MODULUS, Some(|Numeral(n, base)|), Unchanged)
  {
    var s := Numeral(n, base);
    assert SkipSpaces(s, 0) == 0 by {
      assert IsDigitIn(s[0], base);
    }
    NumeralValue(n, base);
    if n == 0 {
      assert s == ['0'];
      assert Prefix(s, 0, base) == (1, base);
    } else {
      assert Prefix(s, 0, base) == (0, base);
    }
  }

  /**
   * Base 0 without a prefix: strtoul as written stops at the first digit, returning 0 and EINVAL,
   * where a decimal numeral was meant.
   */
  lemma BaseZeroReadsNothing(n: nat)
    requires 1 <= n < ULONG_MODULUS
    ensures Spec(Numeral(n, 10), 0) == Parsed(0, Some(0), EInval)
    ensures Intended(Numeral(n, 10), 0) == Parsed(n, Some(|Numeral(n, 10)|), Unchanged)
  {
    var s := Numeral(n, 10);
    assert SkipSpaces(s, 0) == 0 by {
      assert IsDigitIn(s[0], 10);
    }
    assert Prefix(s, 0, 0) == (0, 0);
    assert DigitsEnd(s, 0, 0) == 0 by {
      assert !IsDigitIn(s[0], 0);
    }
    assert DigitsEnd(s, 0, 10) == |s|;
    NumeralValue(n, 10);
  }
}
