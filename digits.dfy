/**
 * Pieces shared by the number parsers of the C library (strtol, strtoul, atoi): digit values,
 * leading-space skipping, the maximal run of digits of a base, the mathematical value of such a
 * run, and the 32-bit two's complement wrap-around of the i686 `int` and `long`.
 * C strings are modelled as the characters before the terminating NUL.
 */
module Digits {
  import opened Common

  const LONG_MAX: int := 0x7FFF_FFFF
  const LONG_MIN: int := -0x8000_0000
  /** 2^32: `unsigned long` arithmetic is modulo this. */
  const ULONG_MODULUS: int := 0x1_0000_0000

  /** What a parser leaves in `errno`. */
  datatype Errno = Unchanged | EInval | ERange

  /** What strtol and strtoul hand back: the value, what `*endptr` is set to (None: left alone), and errno. */
  datatype Parsed = Parsed(value: int, end: Option<nat>, errno: Errno)

  /** The value of an alphanumeric character as a digit: 0-9, then a/A = 10 up to z/Z = 35. */
  function DigitOf(c: char): (d: Option<nat>)
    ensures d.Some? <==> ('0' <= c <= '9' || 'a' <= c <= 'z' || 'A' <= c <= 'Z')
    ensures d.Some? ==> d.value < 36
    ensures '0' <= c <= '9' ==> d == Some(c as nat - '0' as nat)
  {
    if '0' <= c <= '9' then Some(c as nat - '0' as nat)
    else if 'a' <= c <= 'z' then Some(c as nat - 'a' as nat + 10)
    else if 'A' <= c <= 'Z' then Some(c as nat - 'A' as nat + 10)
    else None
  }

  /** The character is a digit of the base. */
  predicate IsDigitIn(c: char, base: nat)
  {
    DigitOf(c).Some? && DigitOf(c).value < base
  }

  /** The value of a character known to be a digit of the base. */
  function DigitValue(c: char, base: nat): (d: nat)
    requires IsDigitIn(c, base)
    ensures d < base
  {
    DigitOf(c).value
  }

  /** The two's complement reading of the low 32 bits of x (the wrap of a 32-bit register). */
  function Wrap32(x: int): (r: int)
    ensures LONG_MIN <= r <= LONG_MAX
    ensures (r - x) % ULONG_MODULUS == 0
    ensures LONG_MIN <= x <= LONG_MAX ==> r == x
  {
    (x - LONG_MIN) % ULONG_MODULUS + LONG_MIN
  }

  /** The first position at or after i that is not a space (`while (*str == ' ') str++`). */
  function SkipSpaces(s: seq<char>, i: nat): (j: nat)
    requires i <= |s|
    ensures i <= j <= |s|
    ensures forall k :: i <= k < j ==> s[k] == ' '
    ensures j < |s| ==> s[j] != ' '
    decreases |s| - i
  {
    if i < |s| && s[i] == ' ' then SkipSpaces(s, i + 1) else i
  }

  /** Where the maximal run of digits of the base starting at i ends. */
  function DigitsEnd(s: seq<char>, i: nat, base: nat): (e: nat)
    requires i <= |s|
    ensures i <= e <= |s|
    ensures forall k :: i <= k < e ==> IsDigitIn(s[k], base)
    ensures e < |s| ==> !IsDigitIn(s[e], base)
    decreases |s| - i
  {
    if i < |s| && IsDigitIn(s[i], base) then DigitsEnd(s, i + 1, base) else i
  }

  /** The mathematical value of the digits s[i..k] in the base, most significant first. */
  function Value(s: seq<char>, i: nat, k: nat, base: nat): nat
    requires i <= k <= |s|
    requires forall j :: i <= j < k ==> IsDigitIn(s[j], base)
    decreases k
  {
    if k == i then 0
    else
      var high := Value(s, i, k - 1, base);
      MulNat(high, base) + DigitValue(s[k - 1], base)
  }

  /** A product of naturals, kept apart so that its sign is settled once. */
  function MulNat(a: nat, b: nat): (p: nat)
    ensures p == a * b
  {
    a * b
  }

  /** Appending a digit never makes the value smaller. */
  lemma {:induction false} ValueMonotone(s: seq<char>, i: nat, j: nat, k: nat, base: nat)
    requires i <= j <= k <= |s|
    requires forall m :: i <= m < k ==> IsDigitIn(s[m], base)
    ensures Value(s, i, j, base) <= Value(s, i, k, base)
    decreases k
  {
    if j < k {
      ValueMonotone(s, i, j, k - 1, base);
      assert base >= 1 by { assert IsDigitIn(s[k - 1], base); }
      MulGrows(Value(s, i, k - 1, base), base);
    }
  }

  lemma MulGrows(v: nat, b: nat)
    requires b >= 1
    ensures v * b >= v
  {
    assert v * b == v + v * (b - 1);
  }

  /** Outcome of accumulating digits into a signed 32-bit register checked for going negative. */
  datatype Accum = Done(value: int) | Overflowed

  /**
   * The accumulation loop of strtol and atoi: `ret = ret * base + digit` in a 32-bit register,
   * stopping with an overflow as soon as the register reads negative.
   */
  function WrapAccum(s: seq<char>, i: nat, k: nat, base: nat): (a: Accum)
    requires i <= k <= |s|
    requires forall j :: i <= j < k ==> IsDigitIn(s[j], base)
    ensures a.Done? ==> 0 <= a.value <= LONG_MAX
    decreases k
  {
    if k == i then Done(0)
    else
      match WrapAccum(s, i, k - 1, base)
      case Overflowed => Overflowed
      case Done(r) =>
        var r' := Wrap32(r * base + DigitValue(s[k - 1], base));
        if r' < 0 then Overflowed else Done(r')
  }

  /** One more digit: the register after it, or the overflow. */
  lemma WrapAccumStep(s: seq<char>, i: nat, k: nat, base: nat, r: int)
    requires i <= k < |s|
    requires forall j :: i <= j <= k ==> IsDigitIn(s[j], base)
    requires WrapAccum(s, i, k, base) == Done(r)
    ensures WrapAccum(s, i, k + 1, base) ==
      if Wrap32(r * base + DigitValue(s[k], base)) < 0 then Overflowed
      else Done(Wrap32(r * base + DigitValue(s[k], base)))
  {
  }

  /**
   * The digit loop of strtol and atoi: digits of the base from `start` on go into a 32-bit
   * register, up to the first character that is not one, or until the register reads negative.
   */
  method CheckedAccumulate(s: seq<char>, start: nat, base: nat) returns (ret: int, i: nat, overflow: bool)
    requires start <= |s|
    ensures overflow <==> WrapAccum(s, start, DigitsEnd(s, start, base), base) == Overflowed
    ensures !overflow ==> i == DigitsEnd(s, start, base) && WrapAccum(s, start, i, base) == Done(ret)
  {
    ghost var e := DigitsEnd(s, start, base);
    ret, i := 0, start;
    while i < |s|
      invariant start <= i <= e
      invariant WrapAccum(s, start, i, base) == Done(ret)
    {
      var d := DigitOf(s[i]);
      if d.None? || d.value >= base {
        break;
      }
      WrapAccumStep(s, start, i, base, ret);
      ret := Wrap32(ret * base + d.value);
      if ret < 0 {
        OverflowSticks(s, start, i + 1, e, base);
        return ret, i, true;
      }
      i := i + 1;
    }
    overflow := false;
  }

  /** While the true value fits in a `long`, the checked 32-bit accumulation computes it exactly. */
  lemma {:induction false} WrapAccumExact(s: seq<char>, i: nat, k: nat, base: nat)
    requires i <= k <= |s|
    requires forall j :: i <= j < k ==> IsDigitIn(s[j], base)
    requires Value(s, i, k, base) <= LONG_MAX
    ensures WrapAccum(s, i, k, base) == Done(Value(s, i, k, base))
    decreases k
  {
    if k > i {
      ValueMonotone(s, i, k - 1, k, base);
      WrapAccumExact(s, i, k - 1, base);
    }
  }

  /** A checked overflow, once reached, survives the digits that follow. */
  lemma {:induction false} OverflowSticks(s: seq<char>, i: nat, k: nat, e: nat, base: nat)
    requires i <= k <= e <= |s|
    requires forall j :: i <= j < e ==> IsDigitIn(s[j], base)
    requires WrapAccum(s, i, k, base) == Overflowed
    ensures WrapAccum(s, i, e, base) == Overflowed
    decreases e
  {
    if k < e {
      OverflowSticks(s, i, k, e - 1, base);
    }
  }

  /** An optional '+' or '-' at i: the position after it and whether it was '-'. */
  function Sign(s: seq<char>, i: nat): (r: (nat, bool))
    requires i <= |s|
    ensures i <= r.0 <= |s|
  {
    if i < |s| && s[i] == '+' then (i + 1, false)
    else if i < |s| && s[i] == '-' then (i + 1, true)
    else (i, false)
  }

  /**
   * The "0" or "0x"/"0X" prefix at i: where the digits start and the base they are read in.  The
   * prefix is skipped whatever the base; base 0 becomes 8 after "0" and 16 after "0x".
   */
  function Prefix(s: seq<char>, i: nat, base: nat): (r: (nat, nat))
    requires i <= |s|
    ensures i <= r.0 <= |s|
  {
    if i < |s| && s[i] == '0' then
      if i + 1 < |s| && (s[i + 1] == 'x' || s[i + 1] == 'X') then (i + 2, if base == 0 then 16 else base)
      else (i + 1, if base == 0 then 8 else base)
    else (i, base)
  }

  /** The lower-case character for a digit value. */
  function DigitChar(d: nat): (c: char)
    requires d < 36
    ensures DigitOf(c) == Some(d)
  {
    if d < 10 then ('0' as int + d) as char else ('a' as int + d - 10) as char
  }

  /** The numeral of n in the base, most significant digit first, without leading zeros. */
  function Numeral(n: nat, base: nat): (r: seq<char>)
    requires 2 <= base <= 36
    ensures |r| >= 1
    ensures forall j :: 0 <= j < |r| ==> IsDigitIn(r[j], base)
    ensures r[0] == '0' <==> n == 0
    decreases n
  {
    if n < base then [DigitChar(n)]
    else
      DivFacts(n, base);
      Numeral(n / base, base) + [DigitChar(n % base)]
  }

  lemma DivFacts(n: nat, base: nat)
    requires 2 <= base <= n
    ensures 1 <= n / base < n && n % base < base
    ensures n == n / base * base + n % base
  {
    var q := n / base;
    assert q * base <= n;
    assert q < n by {
      assert q * base >= q * 2;
    }
  }

  /** Value reads only the characters in its range. */
  lemma {:induction false} ValueLocal(s: seq<char>, t: seq<char>, i: nat, k: nat, base: nat)
    requires i <= k <= |s| && k <= |t|
    requires forall j :: i <= j < k ==> IsDigitIn(s[j], base) && t[j] == s[j]
    ensures Value(s, i, k, base) == Value(t, i, k, base)
    decreases k
  {
    if k > i {
      ValueLocal(s, t, i, k - 1, base);
    }
  }

  /** Reading a numeral back gives the number. */
  lemma {:induction false} NumeralValue(n: nat, base: nat)
    requires 2 <= base <= 36
    ensures Value(Numeral(n, base), 0, |Numeral(n, base)|, base) == n
    decreases n
  {
    var r := Numeral(n, base);
    if n >= base {
      DivFacts(n, base);
      var q := Numeral(n / base, base);
      NumeralValue(n / base, base);
      ValueLocal(q, r, 0, |q|, base);
      assert Value(r, 0, |r|, base) == Value(r, 0, |q|, base) * base + n % base;
    }
  }

  /** The value of the digits s[d..d+k] is that of the first k characters of the suffix s[d..]. */
  lemma {:induction false} ValueSlice(s: seq<char>, d: nat, k: nat, base: nat)
    requires d + k <= |s|
    requires forall j :: d <= j < d + k ==> IsDigitIn(s[j], base)
    ensures forall j :: 0 <= j < k ==> IsDigitIn(s[d..][j], base)
    ensures Value(s, d, d + k, base) == Value(s[d..], 0, k, base)
    decreases k
  {
    if k > 0 {
      ValueSlice(s, d, k - 1, base);
      assert s[d..][k - 1] == s[d + k - 1];
    }
  }

  /** The value of a numeral does not change when it is preceded by other characters. */
  lemma {:induction false} ValueShift(t: seq<char>, s: seq<char>, d: nat, k: nat, base: nat)
    requires d <= |s| && k <= |t| && s == s[..d] + t
    requires forall j :: 0 <= j < k ==> IsDigitIn(t[j], base)
    ensures forall j :: d <= j < d + k ==> IsDigitIn(s[j], base)
    ensures Value(s, d, d + k, base) == Value(t, 0, k, base)
    decreases k
  {
    assert forall j :: d <= j < d + k ==> s[j] == t[j - d];
    if k > 0 {
      ValueShift(t, s, d, k - 1, base);
    }
  }

  /** The ten characters of "4294967300" (2^32 + 4) are decimal digits. */
  lemma AllDecimalDigits()
    ensures forall j :: 0 <= j < 10 ==> IsDigitIn("4294967300"[j], 10)
  {
    var s := "4294967300";
    assert s[0] == '4' && s[1] == '2' && s[2] == '9' && s[3] == '4' && s[4] == '9';
    assert s[5] == '6' && s[6] == '7' && s[7] == '3' && s[8] == '0' && s[9] == '0';
  }

  /** One more decimal digit while the register stays below 2^31: no wrap happens. */
  lemma DecimalStep(s: seq<char>, k: nat, r: int, d: nat)
    requires k < |s| && forall j :: 0 <= j <= k ==> IsDigitIn(s[j], 10)
    requires WrapAccum(s, 0, k, 10) == Done(r)
    requires DigitOf(s[k]) == Some(d)
    requires r * 10 + d <= LONG_MAX
    ensures WrapAccum(s, 0, k + 1, 10) == Done(r * 10 + d)
  {
  }

  /** How the readers' stages split a ten-digit numeral starting with 4: no space, no sign, no prefix. */
  lemma TenDigitStages(s: seq<char>)
    requires |s| == 10 && s[0] == '4' && forall j :: 0 <= j < 10 ==> IsDigitIn(s[j], 10)
    ensures SkipSpaces(s, 0) == 0 && Sign(s, 0) == (0, false) && Prefix(s, 0, 10) == (0, 10)
    ensures DigitsEnd(s, 0, 10) == 10
  {
  }

  /** The checked 32-bit accumulation of "4294967300" wraps to 4 without reading negative. */
  lemma WrapsToFour()
    ensures forall j :: 0 <= j < 10 ==> IsDigitIn("4294967300"[j], 10)
    ensures WrapAccum("4294967300", 0, 10, 10) == Done(4)
  {
    var s := "4294967300";
    assert s[0] == '4' && s[1] == '2' && s[2] == '9' && s[3] == '4' && s[4] == '9';
    assert s[5] == '6' && s[6] == '7' && s[7] == '3' && s[8] == '0' && s[9] == '0';
    WrapsToFourAt(s);
  }

  /** The accumulation of the characters 4294967300, held in a sequence that is not a literal. */
  lemma WrapsToFourAt(s: seq<char>)
    requires |s| == 10
    requires s[0] == '4' && s[1] == '2' && s[2] == '9' && s[3] == '4' && s[4] == '9'
    requires s[5] == '6' && s[6] == '7' && s[7] == '3' && s[8] == '0' && s[9] == '0'
    ensures forall j :: 0 <= j < 10 ==> IsDigitIn(s[j], 10)
    ensures WrapAccum(s, 0, 10, 10) == Done(4)
  {
    FirstFiveDigits(s);
    DecimalStep(s, 5, 42949, 6);
    DecimalStep(s, 6, 429496, 7);
    DecimalStep(s, 7, 4294967, 3);
    DecimalStep(s, 8, 42949673, 0);
    WrapsPastLimit();
    DecimalWrap(s, 9, 429496730, 0, 4);
  }

  /** "42949" accumulates without wrapping. */
  lemma FirstFiveDigits(s: seq<char>)
    requires |s| == 10
    requires s[0] == '4' && s[1] == '2' && s[2] == '9' && s[3] == '4' && s[4] == '9'
    requires forall j :: 0 <= j < 10 ==> IsDigitIn(s[j], 10)
    ensures WrapAccum(s, 0, 5, 10) == Done(42949)
  {
    assert WrapAccum(s, 0, 0, 10) == Done(0);
    DecimalStep(s, 0, 0, 4);
    DecimalStep(s, 1, 4, 2);
    DecimalStep(s, 2, 42, 9);
    DecimalStep(s, 3, 429, 4);
    DecimalStep(s, 4, 4294, 9);
  }

  /** 429496730 * 10 is 2^32 + 4, which the register reads as 4. */
  lemma WrapsPastLimit()
    ensures Wrap32(429496730 * 10 + 0) == 4
  {
  }

  /** One more decimal digit whose product wraps to w, which reads non-negative. */
  lemma DecimalWrap(s: seq<char>, k: nat, r: int, d: nat, w: int)
    requires k < |s| && forall j :: 0 <= j <= k ==> IsDigitIn(s[j], 10)
    requires WrapAccum(s, 0, k, 10) == Done(r)
    requires DigitOf(s[k]) == Some(d)
    requires w == Wrap32(r * 10 + d) && w >= 0
    ensures WrapAccum(s, 0, k + 1, 10) == Done(w)
  {
  }

  /** The true value of "4294967300". */
  lemma ValueIsTwoToThirtyTwoPlusFour()
    ensures forall j :: 0 <= j < 10 ==> IsDigitIn("4294967300"[j], 10)
    ensures Value("4294967300", 0, 10, 10) == 4294967300
  {
    var s := "4294967300";
    AllDecimalDigits();
    assert Value(s, 0, 1, 10) == 4;
    assert Value(s, 0, 2, 10) == 42;
    assert Value(s, 0, 3, 10) == 429;
    assert Value(s, 0, 4, 10) == 4294;
    assert Value(s, 0, 5, 10) == 42949;
    assert Value(s, 0, 6, 10) == 429496;
    assert Value(s, 0, 7, 10) == 4294967;
    assert Value(s, 0, 8, 10) == 42949673;
    assert Value(s, 0, 9, 10) == 429496730;
  }
}
