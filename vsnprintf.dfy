/**
 * The kernel's formatted output, `vsnprintf` (kernel/stdc/stdio/vsnprintf.c).  Each `%`
 * conversion specification is decoded from the format string into a `Spec`, then one printer
 * writes it into the room left in the buffer; every printer stops when the room runs out, and
 * the terminating NUL is written only when room remains.
 *
 * The format string and the `%s` arguments are sequences whose characters before the first
 * NUL are the C string.  The variable arguments are a sequence of `Arg`s consumed left to right
 * as `va_arg` does; an argument that is missing or of the other kind reads as 0 or NULL (in C
 * that is undefined).  An integer argument is the mathematical value passed; the printer narrows
 * it as its C cast does on i686 (int, long, size_t and pointers 32 bits, long long and intmax_t
 * 64 bits).  The bit-fields of `struct fmt_spec` are modelled exactly: the width is a 24-bit and
 * the precision a 16-bit signed field, so a store into either wraps.
 */
module Vsnprintf {
  import opened Common
  import Digits

  const INT_MAX: int := 0x7FFF_FFFF
  const TWO63: int := 0x8000_0000_0000_0000
  const TWO64: int := 0x1_0000_0000_0000_0000
  /** `WIDTH_ARG` and `PREC_ARG`: the width or precision is taken from the next argument (`*`). */
  const FROM_ARG: int := -1
  /** `sizeof(void*) * 2` on i686: the precision `%p` gets when none is given. */
  const PTR_DIGITS: int := 8

  /** `enum fmt_spec_type`: what a conversion prints (the `ST_` prefix dropped). */
  datatype Kind = Invalid | Percent | WideChar | Char | WideStr | Str | Ptr
    | ULongLong | LongLong | ULong | Long | UByte | SByte | UShort | Short | UInt | Int
    | UIntMax | IntMax | Size | PtrDiff | Double | LongDouble

  /** The types `print_int` handles. */
  predicate IsInteger(k: Kind)
  {
    k.Ptr? || k.ULongLong? || k.LongLong? || k.ULong? || k.Long? || k.UByte? || k.SByte?
    || k.UShort? || k.Short? || k.UInt? || k.Int? || k.UIntMax? || k.IntMax? || k.Size? || k.PtrDiff?
  }

  /** The types `print_int` reads as signed (`is_signed = 1`). */
  predicate IsSigned(k: Kind)
  {
    k.LongLong? || k.Long? || k.SByte? || k.Short? || k.Int? || k.IntMax? || k.PtrDiff?
  }

  /** The `SF_` flag bits. */
  datatype Flags = Flags(left: bool, plus: bool, space: bool, zero: bool, lower: bool, prefix: bool, ptr: bool)

  const NO_FLAGS: Flags := Flags(false, false, false, false, false, false, false)

  /** `struct fmt_spec`; `next` is the index of the first format character after the specification. */
  datatype Spec = Spec(kind: Kind, width: int, flags: Flags, base: nat, precision: int, next: nat)

  /** The two bit-fields a number is stored into. */
  datatype Field = WidthField | PrecisionField

  /** Storing v into the signed bit-field: 24 bits for the width, 16 for the precision. */
  function Store(f: Field, v: int): (r: int)
    ensures f == WidthField ==> -0x80_0000 <= r < 0x80_0000
    ensures f == PrecisionField ==> -0x8000 <= r < 0x8000
    ensures f == WidthField && -0x80_0000 <= v < 0x80_0000 ==> r == v
    ensures f == PrecisionField && -0x8000 <= v < 0x8000 ==> r == v
  {
    if f == WidthField then (v + 0x80_0000) % 0x100_0000 - 0x80_0000
    else (v + 0x8000) % 0x1_0000 - 0x8000
  }

  function Min(a: int, b: int): int { if a < b then a else b }
  function Max(a: int, b: int): int { if a < b then b else a }

  /** The first n characters of s, or all of s when it is shorter: what fits in a room of n. */
  function Take(s: seq<char>, n: nat): (r: seq<char>)
    ensures |r| == Min(n, |s|) && r == s[..|r|]
  {
    s[..Min(n, |s|)]
  }

  // ---------------------------------------------------------------------------------------
  // Decoding a conversion specification (decode_spec)
  // ---------------------------------------------------------------------------------------

  /** `*fmt`: the character at i, or the terminating NUL past the end. */
  function Ch(fmt: seq<char>, i: nat): char
  {
    if i < |fmt| then fmt[i] else '\0'
  }

  predicate IsFlag(c: char) { c == '-' || c == '+' || c == ' ' || c == '#' || c == '0' }

  predicate IsDecimal(c: char) { '0' <= c <= '9' }

  /** The flag a flag character sets. */
  function SetFlag(f: Flags, c: char): Flags
  {
    if c == '-' then f.(left := true)
    else if c == '+' then f.(plus := true)
    else if c == ' ' then f.(space := true)
    else if c == '#' then f.(prefix := true)
    else if c == '0' then f.(zero := true)
    else f
  }

  /** The run of flag characters from i: where it ends, and the flags f with those it names added. */
  function FlagRun(fmt: seq<char>, i: nat, f: Flags): (r: (nat, Flags))
    requires i <= |fmt|
    ensures i <= r.0 <= |fmt|
    ensures forall k :: i <= k < r.0 ==> IsFlag(fmt[k])
    ensures !IsFlag(Ch(fmt, r.0))
    decreases |fmt| - i
  {
    if i < |fmt| && IsFlag(fmt[i]) then FlagRun(fmt, i + 1, SetFlag(f, fmt[i])) else (i, f)
  }

  /** Some character of fmt[i..j] is c. */
  predicate Mentions(fmt: seq<char>, i: nat, j: nat, c: char)
    requires i <= j <= |fmt|
  {
    exists k :: i <= k < j && fmt[k] == c
  }

  /** Whether the flag the character c names is set in f (false for any other character). */
  predicate Names(f: Flags, c: char)
  {
    if c == '-' then f.left
    else if c == '+' then f.plus
    else if c == ' ' then f.space
    else if c == '#' then f.prefix
    else if c == '0' then f.zero
    else false
  }

  /** A flag character sets its own flag and leaves the others as they were. */
  lemma SetFlagNames(f: Flags, d: char)
    requires IsFlag(d)
    ensures forall c :: Names(SetFlag(f, d), c) <==> Names(f, c) || (IsFlag(c) && c == d)
    ensures SetFlag(f, d).lower == f.lower && SetFlag(f, d).ptr == f.ptr
  {
  }

  /** A flag is set after the run exactly when it was set before or a character of the run names it. */
  lemma {:induction false} FlagRunSets(fmt: seq<char>, i: nat, f: Flags)
    requires i <= |fmt|
    ensures var (j, g) := FlagRun(fmt, i, f);
      && (forall c :: IsFlag(c) ==> (Names(g, c) <==> Names(f, c) || Mentions(fmt, i, j, c)))
      && g.lower == f.lower && g.ptr == f.ptr
    decreases |fmt| - i
  {
    var j := FlagRun(fmt, i, f).0;
    if i < |fmt| && IsFlag(fmt[i]) {
      var f' := SetFlag(f, fmt[i]);
      assert FlagRun(fmt, i, f) == FlagRun(fmt, i + 1, f');
      FlagRunSets(fmt, i + 1, f');
      SetFlagNames(f, fmt[i]);
      forall c | Mentions(fmt, i, j, c)
        ensures fmt[i] == c || Mentions(fmt, i + 1, j, c)
      {
        var k :| i <= k < j && fmt[k] == c;
        if k > i {
          assert i + 1 <= k < j && fmt[k] == c;
        }
      }
      forall c | Mentions(fmt, i + 1, j, c)
        ensures Mentions(fmt, i, j, c)
      {
        var k :| i + 1 <= k < j && fmt[k] == c;
        assert i <= k < j && fmt[k] == c;
      }
      assert i < j && fmt[i] == fmt[i];
    } else {
      assert j == i;
    }
  }

  /**
   * The run of decimal digits from i accumulated onto v: where it ends, and the number, each
   * `*= 10` and `+= digit` being a store into the bit-field.
   */
  function DecimalRun(fmt: seq<char>, i: nat, v: int, f: Field): (r: (nat, int))
    requires i <= |fmt|
    ensures i <= r.0 <= |fmt|
    ensures forall k :: i <= k < r.0 ==> IsDecimal(fmt[k])
    ensures !IsDecimal(Ch(fmt, r.0))
    ensures r.0 == i ==> r.1 == v
    ensures r.0 > i && f == WidthField ==> -0x80_0000 <= r.1 < 0x80_0000
    ensures r.0 > i && f == PrecisionField ==> -0x8000 <= r.1 < 0x8000
    decreases |fmt| - i
  {
    if i < |fmt| && IsDecimal(fmt[i]) then
      DecimalRun(fmt, i + 1, Store(f, Store(f, v * 10) + (fmt[i] as int - '0' as int)), f)
    else (i, v)
  }

  /** One digit of the run: the number so far times ten plus the digit, as stores into the field. */
  lemma DecimalRunStep(fmt: seq<char>, i: nat, v: int, f: Field)
    requires i < |fmt| && IsDecimal(fmt[i])
    ensures DecimalRun(fmt, i, v, f) == DecimalRun(fmt, i + 1, Store(f, Store(f, v * 10) + (fmt[i] as int - '0' as int)), f)
  {
  }

  /** The length modifier at j: where it ends, and the type it selects (`int` when there is none). */
  function Length(fmt: seq<char>, j: nat): (r: (nat, Kind))
    requires j <= |fmt|
    ensures j <= r.0 <= j + 2 && r.0 <= |fmt|
    ensures r.0 == j <==> r.1 == Int
    ensures r.0 == j + 2 <==> (r.1 == SByte || r.1 == LongLong)
    ensures r.1 == SByte ==> fmt[j..j + 2] == "hh"
    ensures r.1 == LongLong ==> fmt[j..j + 2] == "ll"
  {
    var c := Ch(fmt, j);
    if c == 'h' then (if Ch(fmt, j + 1) == 'h' then (j + 2, SByte) else (j + 1, Short))
    else if c == 'l' then (if Ch(fmt, j + 1) == 'l' then (j + 2, LongLong) else (j + 1, Long))
    else if c == 'j' then (j + 1, IntMax)
    else if c == 'z' then (j + 1, Size)
    else if c == 't' then (j + 1, PtrDiff)
    else if c == 'L' then (j + 1, LongDouble)
    else (j, Int)
  }

  /** The type `u`, `o`, `x` and `X` turn a length into. */
  function Unsigned(k: Kind): (r: Kind)
    ensures (k.SByte? || k.Short? || k.Int? || k.Long? || k.LongLong?) ==> IsInteger(r) && !IsSigned(r)
    ensures k.LongDouble? ==> r.Invalid?
    ensures r != k ==> IsSigned(k) || k.LongDouble?
    ensures IsInteger(k) ==> IsInteger(r)
  {
    if k == SByte then UByte
    else if k == Short then UShort
    else if k == Int then UInt
    else if k == Long then ULong
    else if k == LongLong then ULongLong
    else if k == LongDouble then Invalid
    else k
  }

  predicate IsFloatLetter(c: char)
  {
    c == 'f' || c == 'F' || c == 'e' || c == 'E' || c == 'g' || c == 'G' || c == 'a' || c == 'A'
  }

  /** The characters the conversion switch recognises (and steps over). */
  predicate IsConversion(c: char)
  {
    c == '%' || c == 'd' || c == 'i' || c == 'u' || c == 'o' || c == 'x' || c == 'X'
    || IsFloatLetter(c) || c == 'c' || c == 's' || c == 'p' || c == 'n'
  }

  /** The conversion character at j applied to the spec decoded so far. */
  function Conversion(fmt: seq<char>, j: nat, s: Spec): (r: Spec)
    requires j <= |fmt|
    ensures r.next == (if IsConversion(Ch(fmt, j)) then j + 1 else j)
    ensures r.width == s.width
    ensures Ch(fmt, j) == 'u' ==> r.base == 10 && r.flags.lower
    ensures Ch(fmt, j) == 'o' ==> r.base == 8 && r.flags.lower
    ensures Ch(fmt, j) == 'x' ==> r.base == 16 && r.flags.lower
    ensures Ch(fmt, j) == 'X' ==> r.base == 16 && r.flags == s.flags
    ensures Ch(fmt, j) in "uoxX" ==> r.kind == Unsigned(s.kind)
    ensures Ch(fmt, j) in "di" ==> r.base == 10 && (s.kind != LongDouble ==> r.kind == s.kind)
    ensures r.base != s.base ==> Ch(fmt, j) in "diuoxXp"
    ensures r.base == s.base || r.base == 8 || r.base == 10 || r.base == 16
    ensures Ch(fmt, j) == 'n' ==> r.kind == s.kind && r.base == s.base && r.flags.ptr
    ensures !IsConversion(Ch(fmt, j)) ==> r == s.(next := j)
  {
    var c := Ch(fmt, j);
    if c == '%' then s.(kind := Percent, next := j + 1)
    else if c == 'd' || c == 'i' then
      s.(kind := if s.kind == LongDouble then Invalid else s.kind, base := 10, next := j + 1)
    else if c == 'u' || c == 'o' || c == 'x' || c == 'X' then
      s.(kind := Unsigned(s.kind),
         flags := if c == 'X' then s.flags else s.flags.(lower := true),
         base := if c == 'u' then 10 else if c == 'o' then 8 else 16,
         next := j + 1)
    else if IsFloatLetter(c) then
      s.(kind := if s.kind == Int then Double else if s.kind == LongDouble then LongDouble else Invalid,
         next := j + 1)
    else if c == 'c' then
      s.(kind := if s.kind == Int then Char else if s.kind == Long then WideChar else Invalid, next := j + 1)
    else if c == 's' then
      s.(kind := if s.kind == Int then Str else if s.kind == Long then WideStr else Invalid, next := j + 1)
    else if c == 'p' then
      if s.kind == Int then
        s.(kind := Ptr, precision := if s.precision == 0 then PTR_DIGITS else s.precision, base := 16,
           next := j + 1)
      else s.(kind := Invalid, next := j + 1)
    else if c == 'n' then s.(flags := s.flags.(ptr := true), next := j + 1)
    else s.(next := j)
  }

  /** The width at j: `*`, or the decimal number there (0, automatic, when there is none). */
  function WidthAt(fmt: seq<char>, j: nat): (r: (nat, int))
    requires j <= |fmt|
    ensures j <= r.0 <= |fmt|
    ensures Ch(fmt, j) == '*' ==> r == (j + 1, FROM_ARG)
    ensures r.1 == FROM_ARG || -0x80_0000 <= r.1 < 0x80_0000
  {
    if Ch(fmt, j) == '*' then (j + 1, FROM_ARG) else DecimalRun(fmt, j, 0, WidthField)
  }

  /** The precision at j: nothing unless a '.' is there, then `*` or a decimal number. */
  function PrecisionAt(fmt: seq<char>, j: nat): (r: (nat, int))
    requires j <= |fmt|
    ensures j <= r.0 <= |fmt|
    ensures Ch(fmt, j) != '.' ==> r == (j, 0)
    ensures Ch(fmt, j) == '.' && Ch(fmt, j + 1) == '*' ==> r == (j + 2, FROM_ARG)
  {
    if Ch(fmt, j) != '.' then (j, 0)
    else if Ch(fmt, j + 1) == '*' then (j + 2, FROM_ARG)
    else DecimalRun(fmt, j + 1, 0, PrecisionField)
  }

  /** The specification that starts at i (just after the '%'): flags, width, precision, length, conversion. */
  function SpecOf(fmt: seq<char>, i: nat): (r: Spec)
    requires i <= |fmt|
    ensures i <= r.next <= |fmt|
    ensures r.base == 0 || r.base == 8 || r.base == 10 || r.base == 16
    ensures r.width == FROM_ARG || -0x80_0000 <= r.width < 0x80_0000
  {
    var (j1, flags) := FlagRun(fmt, i, NO_FLAGS);
    var (j2, width) := WidthAt(fmt, j1);
    var (j3, precision) := PrecisionAt(fmt, j2);
    var (j4, kind) := Length(fmt, j3);
    Conversion(fmt, j4, Spec(kind, width, flags, 0, precision, j4))
  }

  /** `decode_spec`: reads the specification that starts at `start`, one character at a time. */
  method DecodeSpec(fmt: seq<char>, start: nat) returns (spec: Spec)
    requires start <= |fmt|
    ensures spec == SpecOf(fmt, start)
  {
    var i := start;
    var flags := NO_FLAGS;
    while Ch(fmt, i) != '\0'
      invariant start <= i <= |fmt|
      invariant FlagRun(fmt, i, flags) == FlagRun(fmt, start, NO_FLAGS)
      decreases |fmt| - i
    {
      if !IsFlag(fmt[i]) {
        break;
      }
      flags := SetFlag(flags, fmt[i]);
      i := i + 1;
    }
    var afterFlags := i;
    var width := 0;
    if Ch(fmt, i) == '*' {
      width := FROM_ARG;
      i := i + 1;
    } else {
      i, width := ScanNumber(fmt, i, WidthField);
    }
    var afterWidth := i;
    var precision := 0;
    if Ch(fmt, i) == '.' {
      i := i + 1;
      if Ch(fmt, i) == '*' {
        precision := FROM_ARG;
        i := i + 1;
      } else {
        i, precision := ScanNumber(fmt, i, PrecisionField);
      }
    }
    assert (afterFlags, flags) == FlagRun(fmt, start, NO_FLAGS);
    assert (afterWidth, width) == WidthAt(fmt, afterFlags);
    assert (i, precision) == PrecisionAt(fmt, afterWidth);
    var (afterLength, kind) := Length(fmt, i);
    spec := Conversion(fmt, afterLength, Spec(kind, width, flags, 0, precision, afterLength));
  }

  /**
   * The digit loop `decode_spec` runs for the width and for the precision: from i, while the
   * character is a decimal digit, multiply the field by ten and add the digit.
   */
  method ScanNumber(fmt: seq<char>, start: nat, f: Field) returns (i: nat, v: int)
    requires start <= |fmt|
    ensures (i, v) == DecimalRun(fmt, start, 0, f)
  {
    i, v := start, 0;
    while Ch(fmt, i) != '\0'
      invariant start <= i <= |fmt|
      invariant DecimalRun(fmt, i, v, f) == DecimalRun(fmt, start, 0, f)
      decreases |fmt| - i
    {
      if !IsDecimal(fmt[i]) {
        break;
      }
      DecimalRunStep(fmt, i, v, f);
      v := Store(f, Store(f, v * 10) + (fmt[i] as int - '0' as int));
      i := i + 1;
    }
  }

  /** A full specification: left-justified, zero flag, width 8, precision 3, `long`, lower-case hex. */
  lemma DecodeExample(fmt: seq<char>)
    requires fmt == "-08.3lx"
    ensures SpecOf(fmt, 0) == Spec(ULong, 8, NO_FLAGS.(left := true, zero := true, lower := true), 16, 3, 7)
  {
    var both := NO_FLAGS.(left := true, zero := true);
    assert FlagRun(fmt, 2, both) == (2, both);
    assert FlagRun(fmt, 1, NO_FLAGS.(left := true)) == (2, both);
    assert FlagRun(fmt, 0, NO_FLAGS) == (2, both);
    assert DecimalRun(fmt, 3, 8, WidthField) == (3, 8);
    assert DecimalRun(fmt, 2, 0, WidthField) == (3, 8);
    assert DecimalRun(fmt, 5, 3, PrecisionField) == (5, 3);
    assert DecimalRun(fmt, 4, 0, PrecisionField) == (5, 3);
    assert Length(fmt, 5) == (6, Long);
  }

  /** `%p` is a pointer printed as eight hexadecimal digits unless a precision is given. */
  lemma PointerDefaults(fmt: seq<char>)
    requires fmt == "p"
    ensures SpecOf(fmt, 0) == Spec(Ptr, 0, NO_FLAGS, 16, PTR_DIGITS, 1)
  {
    assert FlagRun(fmt, 0, NO_FLAGS) == (0, NO_FLAGS);
  }

  // ---------------------------------------------------------------------------------------
  // Digits (do_print_int)
  // ---------------------------------------------------------------------------------------

  /** The bases an integer conversion sets. */
  predicate Radix(b: nat) { b == 8 || b == 10 || b == 16 }

  /** `hex_table_lower[d]` or `hex_table_upper[d]`. */
  function Hex(d: nat, lower: bool): (c: char)
    requires d < 16
    ensures Digits.DigitOf(c) == Some(d)
    ensures d < 10 ==> c == ('0' as int + d) as char
    ensures c == '0' <==> d == 0
  {
    if d < 10 then ('0' as int + d) as char
    else if lower then ('a' as int + d - 10) as char
    else ('A' as int + d - 10) as char
  }

  /**
   * `num / base` and `num % base` for one of the three bases, spelled with the base as a
   * literal so that the division stays linear arithmetic.
   */
  function Quot(n: nat, b: nat): (q: nat)
    requires Radix(b)
  {
    if b == 8 then n / 8 else if b == 10 then n / 10 else n / 16
  }

  function Rem(n: nat, b: nat): (r: nat)
    requires Radix(b)
    ensures r < b
  {
    if b == 8 then n % 8 else if b == 10 then n % 10 else n % 16
  }

  /** The digits of n > 0 in base b, most significant first (none for 0). */
  function Msd(n: nat, b: nat, lower: bool): (r: seq<char>)
    requires Radix(b)
    ensures |r| == 0 <==> n == 0
    decreases n
  {
    if n == 0 then [] else Msd(Quot(n, b), b, lower) + [Hex(Rem(n, b), lower)]
  }

  /** Every figure is a digit of the base, and the first is not a zero. */
  lemma {:induction false} MsdDigits(n: nat, b: nat, lower: bool)
    requires Radix(b)
    ensures forall j :: 0 <= j < |Msd(n, b, lower)| ==> Digits.IsDigitIn(Msd(n, b, lower)[j], b)
    ensures n > 0 ==> Msd(n, b, lower)[0] != '0'
    decreases n
  {
    if n > 0 {
      var q, h := Msd(Quot(n, b), b, lower), Hex(Rem(n, b), lower);
      assert Msd(n, b, lower) == q + [h] by {
        MsdStep(n, b, lower);
      }
      assert (forall j :: 0 <= j < |q| ==> Digits.IsDigitIn(q[j], b)) && (|q| > 0 ==> q[0] != '0') by {
        MsdDigits(Quot(n, b), b, lower);
      }
      assert |q| == 0 ==> h != '0' by {
        if |q| == 0 {
          assert Quot(n, b) == 0;
          assert Rem(n, b) == n;
        }
      }
      LeadingSnoc(q, h, b);
    }
  }

  /** A figure appended to figures of the base: still figures, still without a leading zero. */
  lemma LeadingSnoc(q: seq<char>, h: char, b: nat)
    requires forall j :: 0 <= j < |q| ==> Digits.IsDigitIn(q[j], b)
    requires Digits.IsDigitIn(h, b)
    requires |q| > 0 ==> q[0] != '0'
    requires |q| == 0 ==> h != '0'
    ensures forall j :: 0 <= j < |q + [h]| ==> Digits.IsDigitIn((q + [h])[j], b)
    ensures (q + [h])[0] != '0'
  {
  }

  /** The digits `do_print_int` prints for n: those of n, or a single "0" for zero. */
  function Figures(n: nat, b: nat, lower: bool): (r: seq<char>)
    requires Radix(b)
    ensures |r| >= 1
    ensures n == 0 ==> r == "0"
    ensures n > 0 ==> r == Msd(n, b, lower)
  {
    if n == 0 then "0" else Msd(n, b, lower)
  }

  /** Read back in base b, most significant first, the figures are the number. */
  lemma {:induction false} FiguresValue(n: nat, b: nat, lower: bool)
    requires Radix(b)
    ensures forall j :: 0 <= j < |Figures(n, b, lower)| ==> Digits.IsDigitIn(Figures(n, b, lower)[j], b)
    ensures Figures(n, b, lower)[0] == '0' <==> n == 0
    ensures Digits.Value(Figures(n, b, lower), 0, |Figures(n, b, lower)|, b) == n
  {
    MsdDigits(n, b, lower);
    if n > 0 {
      MsdValue(n, b, lower);
    } else {
      assert Digits.Value("0", 0, 1, b) == Digits.MulNat(Digits.Value("0", 0, 0, b), b) + 0;
    }
  }

  lemma {:induction false} MsdValue(n: nat, b: nat, lower: bool)
    requires Radix(b)
    requires forall j :: 0 <= j < |Msd(n, b, lower)| ==> Digits.IsDigitIn(Msd(n, b, lower)[j], b)
    ensures Digits.Value(Msd(n, b, lower), 0, |Msd(n, b, lower)|, b) == n
    decreases n
  {
    if n > 0 {
      var q, h := Msd(Quot(n, b), b, lower), Hex(Rem(n, b), lower);
      assert Msd(n, b, lower) == q + [h] by {
        MsdStep(n, b, lower);
      }
      assert (forall j :: 0 <= j < |q| ==> Digits.IsDigitIn(q[j], b)) && Digits.Value(q, 0, |q|, b) == Quot(n, b) by {
        MsdDigits(Quot(n, b), b, lower);
        MsdValue(Quot(n, b), b, lower);
      }
      LastFigure(q, h, n, b);
    }
  }

  /** Figures worth n / b followed by the figure n % b are worth n. */
  lemma LastFigure(q: seq<char>, h: char, n: nat, b: nat)
    requires Radix(b)
    requires forall j :: 0 <= j < |q| ==> Digits.IsDigitIn(q[j], b)
    requires Digits.IsDigitIn(h, b) && Digits.DigitValue(h, b) == Rem(n, b)
    requires Digits.Value(q, 0, |q|, b) == Quot(n, b)
    ensures Digits.Value(q + [h], 0, |q| + 1, b) == n
  {
    ValueSnoc(q, h, b);
    DivMod(n, b);
  }

  /** The quotient and remainder put back together are the number. */
  lemma DivMod(n: nat, b: nat)
    requires Radix(b)
    ensures Digits.MulNat(Quot(n, b), b) + Rem(n, b) == n
    ensures Quot(n, b) == n / b && Rem(n, b) == n % b
  {
  }

  /** One round of the digit loop keeps: the figures are those of m followed by the reversed buffer. */
  lemma CollectStep(figures: seq<char>, m: nat, b: nat, lower: bool, collected: seq<char>)
    requires Radix(b) && m > 0
    requires figures == Msd(m, b, lower) + Reversed(collected)
    ensures figures == Msd(Quot(m, b), b, lower) + Reversed(collected + [Hex(Rem(m, b), lower)])
    ensures |Msd(m, b, lower)| == |Msd(Quot(m, b), b, lower)| + 1
  {
    MsdStep(m, b, lower);
    ReversedSnoc(collected, Hex(Rem(m, b), lower));
  }

  /** The last figure of m > 0 is m % b, and the ones before it those of m / b. */
  lemma MsdStep(m: nat, b: nat, lower: bool)
    requires Radix(b) && m > 0
    ensures Msd(m, b, lower) == Msd(Quot(m, b), b, lower) + [Hex(Rem(m, b), lower)]
    ensures |Msd(m, b, lower)| == |Msd(Quot(m, b), b, lower)| + 1
  {
  }

  /** Appending a digit multiplies the value by the base and adds the digit. */
  lemma ValueSnoc(q: seq<char>, h: char, b: nat)
    requires forall j :: 0 <= j < |q| ==> Digits.IsDigitIn(q[j], b)
    requires Digits.IsDigitIn(h, b)
    ensures forall j :: 0 <= j < |q + [h]| ==> Digits.IsDigitIn((q + [h])[j], b)
    ensures Digits.Value(q + [h], 0, |q| + 1, b) == Digits.MulNat(Digits.Value(q, 0, |q|, b), b) + Digits.DigitValue(h, b)
  {
    var r := q + [h];
    assert forall j :: 0 <= j < |r| ==> Digits.IsDigitIn(r[j], b);
    Digits.ValueLocal(q, r, 0, |q|, b);
  }

  function Pow8(k: nat): nat
  {
    if k == 0 then 1 else 8 * Pow8(k - 1)
  }

  /** A number below 8^k has at most k digits in any base of eight or more. */
  lemma {:induction false} MsdLength(n: nat, b: nat, lower: bool, k: nat)
    requires Radix(b) && n < Pow8(k)
    ensures |Msd(n, b, lower)| <= k
    decreases k
  {
    if n > 0 {
      QuotientBelow(n, b, k);
      MsdStep(n, b, lower);
      MsdLength(Quot(n, b), b, lower, k - 1);
    }
  }

  lemma QuotientBelow(n: nat, b: nat, k: nat)
    requires Radix(b) && 0 < n < Pow8(k)
    ensures k > 0 && Quot(n, b) < Pow8(k - 1)
  {
    var q := Quot(n, b);
    assert q * b <= n;
    assert q * 8 <= q * b;
  }

  /** 64-bit numbers have at most 22 digits: the 22-character `rbuf` always suffices. */
  lemma FitsRbuf(n: nat, b: nat, lower: bool)
    requires Radix(b) && n < TWO64
    ensures |Msd(n, b, lower)| <= 22
  {
    assert Pow8(2) == 64;
    assert Pow8(4) == 0x1000;
    assert Pow8(6) == 0x4_0000;
    assert Pow8(8) == 0x100_0000;
    assert Pow8(10) == 0x4000_0000;
    assert Pow8(12) == 0x10_0000_0000;
    assert Pow8(14) == 0x400_0000_0000;
    assert Pow8(16) == 0x1_0000_0000_0000;
    assert Pow8(18) == 0x40_0000_0000_0000;
    assert Pow8(20) == 0x1000_0000_0000_0000;
    assert Pow8(22) == 0x4_0000_0000_0000_0000;
    MsdLength(n, b, lower, 22);
  }

  function Reversed(s: seq<char>): (r: seq<char>)
    ensures |r| == |s|
  {
    if s == [] then [] else Reversed(s[1..]) + [s[0]]
  }

  lemma {:induction false} ReversedSnoc(s: seq<char>, c: char)
    ensures Reversed(s + [c]) == [c] + Reversed(s)
  {
    if s != [] {
      assert (s + [c])[1..] == s[1..] + [c];
      ReversedSnoc(s[1..], c);
    } else {
      assert s + [c] == [c];
    }
  }

  // ---------------------------------------------------------------------------------------
  // Integer layout (do_print_int)
  // ---------------------------------------------------------------------------------------

  /** n spaces, none when n is not positive. */
  function Spaces(n: int): (r: seq<char>)
    ensures |r| == Max(n, 0) && forall j :: 0 <= j < |r| ==> r[j] == ' '
  {
    if n <= 0 then [] else seq(n, _ => ' ')
  }

  /** n zero digits, none when n is not positive. */
  function ZeroFill(n: int): (r: seq<char>)
    ensures |r| == Max(n, 0) && forall j :: 0 <= j < |r| ==> r[j] == '0'
  {
    if n <= 0 then [] else seq(n, _ => '0')
  }

  /** `(long long)num < 0` for a signed decimal conversion: the number is printed as '-' and its magnitude. */
  predicate Negative(num: nat, spec: Spec, isSigned: bool)
  {
    isSigned && spec.base == 10 && num >= TWO63
  }

  /** The number whose figures are printed: `-(long long)num` for a negative one. */
  function Magnitude(num: nat, spec: Spec, isSigned: bool): (m: nat)
    requires num < TWO64
    ensures m <= TWO63 || !Negative(num, spec, isSigned)
    ensures Negative(num, spec, isSigned) ==> m + num == TWO64
    ensures !Negative(num, spec, isSigned) ==> m == num
  {
    if Negative(num, spec, isSigned) then TWO64 - num else num
  }

  /** The sign printed: '-' for a negative number, else ' ' or '+' when the flags ask for one. */
  function SignText(num: nat, spec: Spec, isSigned: bool): (s: seq<char>)
    ensures |s| <= 1
    ensures Negative(num, spec, isSigned) ==> s == "-"
    ensures !Negative(num, spec, isSigned) ==> (|s| == 1 <==> spec.flags.space || spec.flags.plus)
  {
    if Negative(num, spec, isSigned) then "-"
    else if spec.flags.space then " "
    else if spec.flags.plus then "+"
    else ""
  }

  /**
   * The whole text `do_print_int` prints for num when the room is large enough: sign, left
   * padding, zeros up to the precision, figures, right padding.  With the zero flag the zeros
   * fill the field; `signInside` says whether the sign is counted in the width (as intended)
   * or comes on top of it (as written).
   */
  function Layout(num: nat, spec: Spec, isSigned: bool, signInside: bool): seq<char>
    requires num < TWO64 && Radix(spec.base)
  {
    var s := SignText(num, spec, isSigned);
    var d := Figures(Magnitude(num, spec, isSigned), spec.base, spec.flags.lower);
    var zeroWidth := if signInside then spec.width - |s| else spec.width;
    Arrange(s, PadLength(spec, |s|, |d|), ZeroCount(spec, zeroWidth, |d|), d, spec.flags.left)
  }

  /**
   * `pad_len`: the width less the room the precision or the figures take, none with the zero
   * flag, and one column less for a sign.
   */
  function PadLength(spec: Spec, signLength: nat, figures: nat): int
  {
    (if spec.flags.zero then 0 else spec.width - Max(spec.precision, figures)) - signLength
  }

  /**
   * The zeros before the figures: up to the precision, which the zero flag raises to the
   * width given (a store into the 16-bit precision field).
   */
  function ZeroCount(spec: Spec, zeroWidth: int, figures: nat): int
  {
    (if spec.flags.zero then Store(PrecisionField, Max(zeroWidth, spec.precision)) else spec.precision) - figures
  }

  /** The integer text split into its parts. */
  lemma IntTextParts(num: nat, spec: Spec, isSigned: bool)
    requires num < TWO64 && Radix(spec.base)
    ensures var s := SignText(num, spec, isSigned);
      var d := Figures(Magnitude(num, spec, isSigned), spec.base, spec.flags.lower);
      IntText(num, spec, isSigned) == Arrange(s, PadLength(spec, |s|, |d|), ZeroCount(spec, spec.width - |s|, |d|), d, spec.flags.left)
  {
  }

  /** The layout spelled out piece by piece. */
  lemma LayoutSpelled(num: nat, spec: Spec, isSigned: bool, signInside: bool)
    requires num < TWO64 && Radix(spec.base)
    ensures var s := SignText(num, spec, isSigned);
      var d := Figures(Magnitude(num, spec, isSigned), spec.base, spec.flags.lower);
      var pad := PadLength(spec, |s|, |d|);
      var zeros := ZeroFill(ZeroCount(spec, if signInside then spec.width - |s| else spec.width, |d|));
      Layout(num, spec, isSigned, signInside)
        == s + (if spec.flags.left then [] else Spaces(pad)) + zeros + d + (if spec.flags.left then Spaces(pad) else [])
  {
    var s := SignText(num, spec, isSigned);
    var d := Figures(Magnitude(num, spec, isSigned), spec.base, spec.flags.lower);
    var zeroWidth := if signInside then spec.width - |s| else spec.width;
    ArrangeSpelled(s, PadLength(spec, |s|, |d|), ZeroCount(spec, zeroWidth, |d|), d, spec.flags.left);
  }

  /** Sign, padding on the left unless left-justified, zeros, figures, padding on the right if so. */
  function Arrange(sign: seq<char>, pad: int, zeros: int, d: seq<char>, left: bool): seq<char>
  {
    Concat([sign, Spaces(if left then 0 else pad), ZeroFill(zeros), d, Spaces(if left then pad else 0)])
  }

  /** The pieces of a field one after the other. */
  function Concat(pieces: seq<seq<char>>): seq<char>
  {
    if pieces == [] then [] else pieces[0] + Concat(pieces[1..])
  }

  /** The field spelled out: sign, left padding, zeros, figures, right padding. */
  lemma ArrangeSpelled(sign: seq<char>, pad: int, zeros: int, d: seq<char>, left: bool)
    ensures Arrange(sign, pad, zeros, d, left)
      == sign + (if left then [] else Spaces(pad)) + ZeroFill(zeros) + d + (if left then Spaces(pad) else [])
  {
    ConcatFive(sign, Spaces(if left then 0 else pad), ZeroFill(zeros), d, Spaces(if left then pad else 0));
  }

  /** Five pieces one after the other. */
  lemma ConcatFive(a: seq<char>, b: seq<char>, c: seq<char>, d: seq<char>, e: seq<char>)
    ensures Concat([a, b, c, d, e]) == a + b + c + d + e
  {
    assert [a, b, c, d, e] == [a] + [b, c, d, e] && [b, c, d, e] == [b] + [c, d, e];
    assert [c, d, e] == [c] + [d, e] && [d, e] == [d] + [e] && [e] == [e] + [];
    ConcatCons(e, []);
    ConcatCons(d, [e]);
    ConcatCons(c, [d, e]);
    ConcatCons(b, [c, d, e]);
    ConcatCons(a, [b, c, d, e]);
  }

  /** The first piece, then the others. */
  lemma ConcatCons(a: seq<char>, rest: seq<seq<char>>)
    ensures Concat([a] + rest) == a + Concat(rest)
  {
    assert ([a] + rest)[1..] == rest;
  }

  /** The text of an integer conversion, with the sign inside the field. */
  function IntText(num: nat, spec: Spec, isSigned: bool): seq<char>
    requires num < TWO64 && Radix(spec.base)
  {
    Layout(num, spec, isSigned, true)
  }

  /** The text as the C lays it out: with the zero flag the zeros alone fill the width. */
  function IntTextAsWritten(num: nat, spec: Spec, isSigned: bool): seq<char>
    requires num < TWO64 && Radix(spec.base)
  {
    Layout(num, spec, isSigned, false)
  }

  /**
   * The field is exactly as wide as the width asks, or as the sign and the digits (at least
   * `precision` of them) need when that is more.
   */
  lemma IntTextWidth(num: nat, spec: Spec, isSigned: bool)
    requires num < TWO64 && Radix(spec.base)
    requires spec.width < 0x8000 && -0x8000 <= spec.precision < 0x8000
    ensures var d := Figures(Magnitude(num, spec, isSigned), spec.base, spec.flags.lower);
      |IntText(num, spec, isSigned)| == Max(spec.width, |SignText(num, spec, isSigned)| + Max(spec.precision, |d|))
  {
    LayoutSpelled(num, spec, isSigned, true);
  }

  /** Without width, precision or flags, a negative number prints as '-' and its magnitude. */
  lemma NegativePrintsMagnitude(v: int, k: Kind, spec: Spec)
    requires IsSigned(k) && -(Modulus(k) as int) / 2 <= v < 0
    requires spec.base == 10 && spec.width == 0 && spec.precision == 0 && spec.flags == NO_FLAGS
    ensures IntText(Narrow(k, v), spec, true) == "-" + Figures(-v, 10, false)
  {
    assert Magnitude(Narrow(k, v), spec, true) == -v;
    LayoutSpelled(Narrow(k, v), spec, true, true);
  }

  /** Without width, precision or flags, any other number prints as its figures alone. */
  lemma PlainNumber(num: nat, spec: Spec, isSigned: bool)
    requires num < TWO64 && Radix(spec.base) && !Negative(num, spec, isSigned)
    requires spec.width == 0 && spec.precision == 0 && spec.flags == NO_FLAGS
    ensures IntText(num, spec, isSigned) == Figures(num, spec.base, false)
  {
    LayoutSpelled(num, spec, isSigned, true);
  }

  /** `%05d` of -42: as written "-00042", six characters in a field of five; intended "-0042". */
  lemma ZeroPadSignOverflows(spec: Spec)
    requires spec == Spec(Int, 5, NO_FLAGS.(zero := true), 10, 0, 0)
    ensures IntTextAsWritten(Narrow(Int, -42), spec, true) == "-00042"
    ensures IntText(Narrow(Int, -42), spec, true) == "-0042"
  {
    var num := Narrow(Int, -42);
    assert num == TWO64 - 42;
    assert Figures(42, 10, false) == "42";
    LayoutSpelled(num, spec, true, true);
    LayoutSpelled(num, spec, true, false);
  }

  // ---------------------------------------------------------------------------------------
  // Writing into the buffer
  // ---------------------------------------------------------------------------------------

  /** Writing one piece after another into a room of n is writing their concatenation. */
  lemma TakeMore(done: seq<char>, piece: seq<char>, n: nat)
    ensures Take(done, n) + Take(piece, n - |Take(done, n)|) == Take(done + piece, n)
  {
    if |done| < n {
      assert (done + piece)[..Min(n, |done + piece|)] == done + piece[..Min(n - |done|, |piece|)];
    }
  }

  /**
   * One of the printers' `while (... && len > 0) *buf++ = ...` loops: buf[at..p] holds what fits
   * of done in a room of len, and the loop writes what then fits of piece.
   */
  method Append(buf: array<char>, at: nat, len: nat, p: nat, ghost done: seq<char>, piece: seq<char>)
    returns (q: nat)
    requires at <= p && at + len <= buf.Length
    requires p - at == |Take(done, len)| && buf[at..p] == Take(done, len)
    modifies buf
    ensures p <= q && q - at == |Take(done + piece, len)| && buf[at..q] == Take(done + piece, len)
    ensures forall k :: 0 <= k < buf.Length && !(p <= k < q) ==> buf[k] == old(buf[k])
  {
    q := p;
    var j := 0;
    while j < |piece| && q - at < len
      invariant 0 <= j <= |piece| && q == p + j && q - at <= len
      invariant forall k :: p <= k < q ==> buf[k] == piece[k - p]
      invariant forall k :: 0 <= k < buf.Length && !(p <= k < q) ==> buf[k] == old(buf[k])
    {
      buf[q] := piece[j];
      q := q + 1;
      j := j + 1;
    }
    assert buf[p..q] == Take(piece, len - (p - at));
    assert buf[at..q] == buf[at..p] + buf[p..q];
    TakeMore(done, piece, len);
  }

  /**
   * `do_print_int`, with the zero padding corrected to leave room for the sign: the figures are
   * collected least significant first in the 22-character `rbuf`, then sign, padding, zeros and
   * figures are written while room remains.  The room is the one a caller has partly filled:
   * buf[at..p] holds what fitted of `done`, and the call adds what then fits of `IntText`.
   */
  method DoPrintInt(buf: array<char>, at: nat, len: nat, p: nat, ghost done: seq<char>, num: nat, spec: Spec, isSigned: bool)
    returns (q: nat)
    requires num < TWO64 && Radix(spec.base)
    requires at <= p && at + len <= buf.Length
    requires p - at == |Take(done, len)| && buf[at..p] == Take(done, len)
    modifies buf
    ensures p <= q && q - at == |Take(done + IntText(num, spec, isSigned), len)|
    ensures buf[at..q] == Take(done + IntText(num, spec, isSigned), len)
    ensures forall k :: 0 <= k < buf.Length && !(p <= k < q) ==> buf[k] == old(buf[k])
  {
    var rbuf, rlen := CollectDigits(Magnitude(num, spec, isSigned), spec.base, spec.flags.lower);
    q := Emit(buf, at, len, p, done, spec, SignText(num, spec, isSigned), Reversed(rbuf[..rlen]));
    IntTextParts(num, spec, isSigned);
  }

  /**
   * The second half of `do_print_int`: `pad_len` and the zero count, then the sign (which takes
   * one column of the padding), the left padding, the zeros, the figures (rewound from `rbuf`)
   * and the right padding, each loop stopping when the room runs out.
   */
  method Emit(buf: array<char>, at: nat, len: nat, p: nat, ghost done: seq<char>, spec: Spec,
              sign: seq<char>, digits: seq<char>)
    returns (q: nat)
    requires at <= p && at + len <= buf.Length
    requires p - at == |Take(done, len)| && buf[at..p] == Take(done, len)
    modifies buf
    ensures var text := Arrange(sign, PadLength(spec, |sign|, |digits|), ZeroCount(spec, spec.width - |sign|, |digits|), digits, spec.flags.left);
      p <= q && q - at == |Take(done + text, len)| && buf[at..q] == Take(done + text, len)
    ensures forall k :: 0 <= k < buf.Length && !(p <= k < q) ==> buf[k] == old(buf[k])
  {
    var pad := spec.width - Max(spec.precision, |digits|);
    var precision := spec.precision;
    if spec.flags.zero {
      pad := 0;
      precision := Store(PrecisionField, Max(spec.width - |sign|, spec.precision));
    }
    pad := pad - |sign|;
    var left := spec.flags.left;
    assert pad == PadLength(spec, |sign|, |digits|) && precision - |digits| == ZeroCount(spec, spec.width - |sign|, |digits|);
    ghost var before, after := if left then [] else Spaces(pad), if left then Spaces(pad) else [];
    var zeros := ZeroFill(precision - |digits|);
    ghost var whole := done + sign + before + zeros + digits + after;
    assert whole == done + Arrange(sign, pad, precision - |digits|, digits, left) by {
      ArrangeSpelled(sign, pad, precision - |digits|, digits, left);
      SixPieces(done, sign, before, zeros, digits, after);
    }
    q := Append(buf, at, len, p, done, sign);
    if !left {
      q := Append(buf, at, len, q, done + sign, Spaces(pad));
    }
    assert done + sign + before == done + sign + Spaces(pad) || left;
    q := Append(buf, at, len, q, done + sign + before, zeros);
    q := Append(buf, at, len, q, done + sign + before + zeros, digits);
    if left {
      q := Append(buf, at, len, q, done + sign + before + zeros + digits, Spaces(pad));
    } else {
      SixPieces(done, sign, before, zeros, digits, after);
    }
    assert buf[at..q] == Take(whole, len);
  }

  /** Regrouping six pieces. */
  lemma SixPieces(a: seq<char>, b: seq<char>, c: seq<char>, d: seq<char>, e: seq<char>, f: seq<char>)
    ensures a + (b + c + d + e + f) == a + b + c + d + e + f
    ensures f == [] ==> a + b + c + d + e + f == a + b + c + d + e
  {
  }

  /**
   * The first half of `do_print_int`: the figures of n, least significant first, in a fresh
   * 22-character `rbuf` (a single '0' for zero).
   */
  method CollectDigits(n: nat, b: nat, lower: bool) returns (rbuf: array<char>, rlen: nat)
    requires n < TWO64 && Radix(b)
    ensures fresh(rbuf) && rbuf.Length == 22 && 1 <= rlen <= 22
    ensures Reversed(rbuf[..rlen]) == Figures(n, b, lower)
  {
    rbuf := new char[22];
    rlen := 0;
    var m: nat := n;
    FitsRbuf(n, b, lower);
    ghost var figures := Msd(n, b, lower);
    while m != 0
      invariant rlen + |Msd(m, b, lower)| == |figures| <= 22
      invariant figures == Msd(m, b, lower) + Reversed(rbuf[..rlen])
      modifies rbuf
    {
      ghost var collected := rbuf[..rlen];
      DivMod(m, b);
      rbuf[rlen] := Hex(m % b, lower);
      assert rbuf[..rlen + 1] == collected + [Hex(Rem(m, b), lower)];
      CollectStep(figures, m, b, lower, collected);
      m := m / b;
      rlen := rlen + 1;
    }
    if rlen == 0 {
      rbuf[0] := '0';
      rlen := 1;
      assert rbuf[..rlen] == "0";
    }
  }

  // ---------------------------------------------------------------------------------------
  // Arguments
  // ---------------------------------------------------------------------------------------

  /** A variable argument: a number (integer, character or pointer) or a string pointer (None: NULL). */
  datatype Arg = Num(n: int) | Text(s: Option<seq<char>>)

  /** `va_arg` of a number: the argument at k. */
  function NumAt(args: seq<Arg>, k: nat): int
  {
    if k < |args| && args[k].Num? then args[k].n else 0
  }

  /** `va_arg` of a string pointer: the argument at k. */
  function TextAt(args: seq<Arg>, k: nat): Option<seq<char>>
  {
    if k < |args| && args[k].Text? then args[k].s else None
  }

  /** How many arguments the `*` width and precision of the spec take. */
  function Stars(spec: Spec): nat
  {
    (if spec.width == FROM_ARG then 1 else 0) + (if spec.precision == FROM_ARG then 1 else 0)
  }

  /** The spec with a `*` width and a `*` precision read from the arguments at k, width first. */
  function Resolve(spec: Spec, args: seq<Arg>, k: nat): (r: Spec)
    ensures r.width == (if spec.width == FROM_ARG then Store(WidthField, NumAt(args, k)) else spec.width)
    ensures r.precision == (if spec.precision == FROM_ARG
      then Store(PrecisionField, NumAt(args, k + (if spec.width == FROM_ARG then 1 else 0)))
      else spec.precision)
    ensures r.kind == spec.kind && r.flags == spec.flags && r.base == spec.base
  {
    var w := if spec.width == FROM_ARG then Store(WidthField, NumAt(args, k)) else spec.width;
    var j := k + (if spec.width == FROM_ARG then 1 else 0);
    spec.(width := w,
          precision := if spec.precision == FROM_ARG then Store(PrecisionField, NumAt(args, j)) else spec.precision)
  }

  /** The `va_arg` calls for a `*` width and precision, in that order. */
  method FetchStars(spec: Spec, args: seq<Arg>, k: nat) returns (s: Spec, next: nat)
    ensures s == Resolve(spec, args, k) && next == k + Stars(spec)
  {
    s := spec;
    next := k;
    if s.width == FROM_ARG {
      s := s.(width := Store(WidthField, NumAt(args, next)));
      next := next + 1;
    }
    if s.precision == FROM_ARG {
      s := s.(precision := Store(PrecisionField, NumAt(args, next)));
      next := next + 1;
    }
  }

  /** The range of the C type an integer conversion reads. */
  function Modulus(k: Kind): (m: nat)
    requires IsInteger(k)
    ensures m == 0x100 || m == 0x1_0000 || m == 0x1_0000_0000 || m == TWO64
  {
    if k.ULongLong? || k.LongLong? || k.UIntMax? || k.IntMax? then TWO64
    else if k.UByte? || k.SByte? then 0x100
    else if k.UShort? || k.Short? then 0x1_0000
    else 0x1_0000_0000
  }

  /** The `unsigned long long` value `print_int` gets from v by its cast: narrowed, then sign-extended when signed. */
  function Narrow(k: Kind, v: int): (r: nat)
    requires IsInteger(k)
    ensures r < TWO64
    ensures !IsSigned(k) && 0 <= v < Modulus(k) ==> r == v
    ensures IsSigned(k) && 0 <= v < Modulus(k) / 2 ==> r == v
    ensures IsSigned(k) && -(Modulus(k) as int) / 2 <= v < 0 ==> r == TWO64 + v
  {
    var m := Modulus(k);
    LowRange(v, m);
    Extend(Low(v, m), m, IsSigned(k))
  }

  /**
   * `v % m` for one of the four moduli, spelled with the modulus as a literal so that the
   * remainder stays linear arithmetic.
   */
  function Low(v: int, m: nat): (w: nat)
    requires m == 0x100 || m == 0x1_0000 || m == 0x1_0000_0000 || m == TWO64
    ensures w < m
  {
    if m == 0x100 then v % 0x100
    else if m == 0x1_0000 then v % 0x1_0000
    else if m == 0x1_0000_0000 then v % 0x1_0000_0000
    else v % TWO64
  }

  /** The low part of v is v itself when v is in [0, m), and v + m when v is in [-m, 0). */
  lemma LowRange(v: int, m: nat)
    requires m == 0x100 || m == 0x1_0000 || m == 0x1_0000_0000 || m == TWO64
    ensures 0 <= v < m ==> Low(v, m) == v
    ensures -(m as int) <= v < 0 ==> Low(v, m) == v + m
  {
  }

  /** A w below m widened to 64 bits: sign-extended when signed and the top bit of m is set. */
  function Extend(w: nat, m: nat, signed: bool): (r: nat)
    requires w < m <= TWO64
    ensures r < TWO64
  {
    if signed && w >= m / 2 then w - m + TWO64 else w
  }

  /** What `print_int` works with: the spec with its `*`s filled in, the number, and the next argument. */
  datatype Operands = Operands(spec: Spec, value: nat, next: nat)

  /**
   * As written, `print_int` reads the number before the `*` width and precision: the number is
   * the first argument it takes, then the width, then the precision, the last one before `next`.
   */
  function IntOperandsAsWritten(spec: Spec, args: seq<Arg>, k: nat): (r: Operands)
    requires IsInteger(spec.kind)
    ensures r.next == k + 1 + Stars(spec)
    ensures r.value == Narrow(spec.kind, NumAt(args, k))
    ensures spec.width == FROM_ARG ==> r.spec.width == Store(WidthField, NumAt(args, k + 1))
    ensures spec.precision == FROM_ARG ==> r.spec.precision == Store(PrecisionField, NumAt(args, r.next - 1))
    ensures spec.width != FROM_ARG ==> r.spec.width == spec.width
    ensures spec.precision != FROM_ARG ==> r.spec.precision == spec.precision
    ensures r.spec.(width := spec.width, precision := spec.precision) == spec
  {
    Operands(Resolve(spec, args, k + 1), Narrow(spec.kind, NumAt(args, k)), k + 1 + Stars(spec))
  }

  /**
   * The order C requires and the other printers keep: the `*` width is the first argument taken,
   * the `*` precision follows it, and the number is the last one, just before `next`.
   */
  function IntOperands(spec: Spec, args: seq<Arg>, k: nat): (r: Operands)
    requires IsInteger(spec.kind)
    ensures r.next == k + Stars(spec) + 1
    ensures r.value == Narrow(spec.kind, NumAt(args, r.next - 1))
    ensures spec.width == FROM_ARG ==> r.spec.width == Store(WidthField, NumAt(args, k))
    ensures spec.precision == FROM_ARG ==> r.spec.precision == Store(PrecisionField, NumAt(args, r.next - 2))
    ensures spec.width != FROM_ARG ==> r.spec.width == spec.width
    ensures spec.precision != FROM_ARG ==> r.spec.precision == spec.precision
    ensures r.spec.(width := spec.width, precision := spec.precision) == spec
  {
    Operands(Resolve(spec, args, k), Narrow(spec.kind, NumAt(args, k + Stars(spec))), k + Stars(spec) + 1)
  }

  /** `%*d` with the arguments 5 and 42: as written the width is 42 and the number 5. */
  lemma StarWidthSwapped(spec: Spec, args: seq<Arg>)
    requires spec == Spec(Int, FROM_ARG, NO_FLAGS, 10, 0, 0) && args == [Num(5), Num(42)]
    ensures IntOperandsAsWritten(spec, args, 0).value == 5
    ensures IntOperandsAsWritten(spec, args, 0).spec.width == 42
    ensures IntOperands(spec, args, 0).value == 42
    ensures IntOperands(spec, args, 0).spec.width == 5
  {
  }

  // ---------------------------------------------------------------------------------------
  // print_int
  // ---------------------------------------------------------------------------------------

  /**
   * `if (spec.width > len) spec.width = len`: the comparison is unsigned, so a negative width is
   * replaced too, and the length is stored back into the 24-bit field.
   */
  function ClampWidth(width: int, len: nat): (w: int)
    ensures 0 <= width <= len ==> w == width
    ensures len < 0x80_0000 ==> w <= len
  {
    if width < 0 || width > len then Store(WidthField, len) else width
  }

  /** The "0" or "0x"/"0X" the `#` flag asks for in octal and hexadecimal. */
  function Prefix(spec: Spec): (r: seq<char>)
    ensures r == [] <==> !spec.flags.prefix || spec.base == 10
    ensures spec.flags.prefix && spec.base == 16 ==> r == (if spec.flags.lower then "0x" else "0X")
    ensures spec.flags.prefix && spec.base != 10 && spec.base != 16 ==> r == "0"
  {
    if !spec.flags.prefix || spec.base == 10 then []
    else if spec.base == 16 then (if spec.flags.lower then "0x" else "0X")
    else "0"
  }

  /** As written, each prefix character is printed only while the clamped width is positive. */
  function PrefixAsWritten(spec: Spec, width: int): (r: seq<char>)
    ensures |r| <= Max(width, 0)
    ensures width >= 2 ==> r == Prefix(spec)
  {
    if !spec.flags.prefix || spec.base == 10 || width <= 0 then []
    else if spec.base == 16 && width > 1 then Prefix(spec)
    else "0"
  }

  /** `%#x` with no width: as written no "0x" is printed at all. */
  lemma PrefixNeedsWidth(spec: Spec)
    requires spec == Spec(UInt, 0, NO_FLAGS.(prefix := true, lower := true), 16, 0, 0)
    ensures PrefixAsWritten(spec, ClampWidth(spec.width, 100)) == []
    ensures Prefix(spec) == "0x"
  {
  }

  /** The text of an integer conversion in a room of len: the prefix, then the number in what remains of the width. */
  function IntField(spec: Spec, value: nat, isSigned: bool, len: nat): seq<char>
    requires value < TWO64 && Radix(spec.base)
  {
    var width := ClampWidth(spec.width, len);
    Concat([Prefix(spec), IntText(value, spec.(width := width - |Prefix(spec)|), isSigned)])
  }

  /** The field is the prefix followed by the number laid out in what remains of the clamped width. */
  lemma IntFieldParts(spec: Spec, value: nat, isSigned: bool, len: nat)
    requires value < TWO64 && Radix(spec.base)
    ensures var rest := spec.(width := ClampWidth(spec.width, len) - |Prefix(spec)|);
      IntField(spec, value, isSigned, len) == Prefix(spec) + IntText(value, rest, isSigned)
  {
    var rest := spec.(width := ClampWidth(spec.width, len) - |Prefix(spec)|);
    var p := [Prefix(spec), IntText(value, rest, isSigned)];
    assert p[1..] == [p[1]] && p[1..][1..] == [];
    assert Concat(p[1..]) == p[1];
  }

  /** What `print_int` writes in a room of len: what fits of the field, with the operands in C's order. */
  function IntOutput(spec: Spec, args: seq<Arg>, k: nat, len: nat): (r: seq<char>)
    requires IsInteger(spec.kind) && Radix(spec.base)
    ensures |r| <= len
  {
    var o := IntOperands(spec, args, k);
    Take(IntField(o.spec, o.value, IsSigned(spec.kind), len), len)
  }

  /**
   * `print_int` with the corrected argument order and prefix: writes what fits of `IntField`
   * and returns how much that is, with the next unread argument.
   */
  method PrintInt(buf: array<char>, at: nat, len: nat, spec: Spec, args: seq<Arg>, k: nat)
    returns (count: nat, next: nat)
    requires IsInteger(spec.kind) && Radix(spec.base) && at + len <= buf.Length
    modifies buf
    ensures count <= len && buf[at..at + count] == IntOutput(spec, args, k, len) && next == k + Stars(spec) + 1
    ensures forall i :: 0 <= i < buf.Length && !(at <= i < at + count) ==> buf[i] == old(buf[i])
  {
    var s;
    s, next := FetchStars(spec, args, k);
    var num := Narrow(spec.kind, NumAt(args, next));
    next := next + 1;
    count := WriteIntField(buf, at, len, s, num, IsSigned(spec.kind));
    assert IntOperands(spec, args, k) == Operands(s, num, next);
  }

  /** The writing half of `print_int`: the prefix, then `do_print_int` in what remains of the clamped width. */
  method WriteIntField(buf: array<char>, at: nat, len: nat, spec: Spec, num: nat, isSigned: bool) returns (count: nat)
    requires num < TWO64 && Radix(spec.base) && at + len <= buf.Length
    modifies buf
    ensures count <= len && buf[at..at + count] == Take(IntField(spec, num, isSigned, len), len)
    ensures forall i :: 0 <= i < buf.Length && !(at <= i < at + count) ==> buf[i] == old(buf[i])
  {
    var prefix := Prefix(spec);
    var p := Append(buf, at, len, at, [], prefix);
    assert [] + prefix == prefix;
    var q := DoPrintInt(buf, at, len, p, prefix, num, spec.(width := ClampWidth(spec.width, len) - |prefix|), isSigned);
    count := q - at;
    IntFieldParts(spec, num, isSigned, len);
  }

  // ---------------------------------------------------------------------------------------
  // print_char and print_str
  // ---------------------------------------------------------------------------------------

  /** The character `ch = va_arg(*args, int)` keeps: the low byte. */
  function CharOf(v: int): char
  {
    (v % 256) as char
  }

  /** The room `print_char` pads into: len, cut to the width when that is smaller (unsigned comparison). */
  function CharRoom(width: int, len: nat): (r: nat)
    ensures r <= len
    ensures 0 <= width < len ==> r == width
  {
    if 0 <= width < len then width else len
  }

  /** The character padded with spaces to fill the room, on the right when left-justified. */
  function CharText(ch: char, room: nat, left: bool): (r: seq<char>)
    ensures |r| == room
    ensures room > 0 ==> ch == (if left then r[0] else r[room - 1])
    ensures forall j :: 0 <= j < room && j != (if left then 0 else room - 1) ==> r[j] == ' '
  {
    if room == 0 then [] else if left then [ch] + Spaces(room - 1) else Spaces(room - 1) + [ch]
  }

  /**
   * How many characters `print_char` as written writes in a room: with a room of 0 and no '-'
   * flag its loop `while (len - 1)` starts from the unsigned 0xFFFFFFFF and writes 2^32 - 1
   * spaces and the character.
   */
  function CharCountAsWritten(room: nat, left: bool): nat
  {
    if room == 0 && !left then 0x1_0000_0000 else room
  }

  /** `%*c` with a width argument of 0: as written 2^32 characters go into a room of none. */
  lemma ZeroWidthCharOverruns(spec: Spec, args: seq<Arg>, len: nat)
    requires spec == Spec(Char, FROM_ARG, NO_FLAGS, 0, 0, 0) && args == [Num(0), Num(65)]
    ensures var room := CharRoom(Resolve(spec, args, 0).width, len);
      room == 0 && CharCountAsWritten(room, false) > room
    ensures |CharText(CharOf(65), CharRoom(Resolve(spec, args, 0).width, len), false)| == 0
  {
  }

  /** What `print_char` writes in a room of len: the character padded to its width, or to the room. */
  function CharOutput(spec: Spec, args: seq<Arg>, k: nat, len: nat): (r: seq<char>)
    ensures |r| <= len
  {
    var s := Resolve(spec.(width := if spec.width == 0 then 1 else spec.width), args, k);
    CharText(CharOf(NumAt(args, k + Stars(spec))), CharRoom(s.width, len), spec.flags.left)
  }

  /**
   * `print_char`, with a room of 0 printing nothing: the width (1 when automatic, else `*`), the
   * character argument, and the character padded to the room.
   */
  method PrintChar(buf: array<char>, at: nat, len: nat, spec: Spec, args: seq<Arg>, k: nat)
    returns (count: nat, next: nat)
    requires at + len <= buf.Length
    modifies buf
    ensures count <= len && buf[at..at + count] == CharOutput(spec, args, k, len) && next == k + Stars(spec) + 1
    ensures forall i :: 0 <= i < buf.Length && !(at <= i < at + count) ==> buf[i] == old(buf[i])
  {
    var s := spec;
    if s.width == 0 {
      s := s.(width := 1);
    }
    s, next := FetchStars(s, args, k);
    var ch := CharOf(NumAt(args, next));
    next := next + 1;
    count := PadChar(buf, at, CharRoom(s.width, len), ch, spec.flags.left);
  }

  /** The padding loops of `print_char`: the character and room - 1 spaces, in the order the flag asks. */
  method PadChar(buf: array<char>, at: nat, room: nat, ch: char, left: bool) returns (count: nat)
    requires at + room <= buf.Length
    modifies buf
    ensures count == room && buf[at..at + count] == CharText(ch, room, left)
    ensures forall i :: 0 <= i < buf.Length && !(at <= i < at + count) ==> buf[i] == old(buf[i])
  {
    if room == 0 {
      count := 0;
      return;
    }
    var p := at;
    ghost var done: seq<char> := [];
    if left {
      p := Append(buf, at, room, p, done, [ch]);
      done := [ch];
    }
    p := Append(buf, at, room, p, done, Spaces(room - 1));
    done := done + Spaces(room - 1);
    if !left {
      p := Append(buf, at, room, p, done, [ch]);
      done := done + [ch];
    }
    assert done == CharText(ch, room, left);
    count := p - at;
    assert buf[at..at + count] == buf[at..p];
  }

  /** The characters of a C string: those before its first NUL. */
  function CString(s: seq<char>): (r: seq<char>)
    ensures |r| <= |s| && r == s[..|r|]
    ensures forall j :: 0 <= j < |r| ==> r[j] != '\0'
    ensures |r| < |s| ==> s[|r|] == '\0'
  {
    if s == [] || s[0] == '\0' then [] else [s[0]] + CString(s[1..])
  }

  /**
   * What `print_str` prints of str: `slen` is the width when positive, else the string's length
   * within the room; the padding `width - slen` is then never positive.
   */
  function StrText(str: seq<char>, width: int, len: nat, left: bool): seq<char>
  {
    var slen := if width > 0 then width else Min(|str|, len);
    var pad := width - slen;
    (if left then [] else Spaces(pad)) + str[..Min(slen, |str|)] + (if left then Spaces(pad) else [])
  }

  /** `print_str` never pads: a positive width only cuts the string short. */
  lemma StringWidthTruncates(str: seq<char>, width: int, len: nat, left: bool)
    ensures Take(StrText(str, width, len, left), len) == str[..Min(len, Min(|str|, if width > 0 then width else |str|))]
  {
  }

  /** What `print_str` writes in a room of len: the string (NULL prints "(null)") as the width cuts it. */
  function StrOutput(spec: Spec, args: seq<Arg>, k: nat, len: nat): (r: seq<char>)
    ensures |r| <= len
  {
    var s := Resolve(spec, args, k);
    var arg := TextAt(args, k + Stars(spec));
    var str := if arg.None? then "(null)" else CString(arg.value);
    Take(StrText(str, s.width, len, spec.flags.left), len)
  }

  /** `print_str`: the `*` width and precision, the string (NULL prints "(null)"), and what fits of it. */
  method PrintStr(buf: array<char>, at: nat, len: nat, spec: Spec, args: seq<Arg>, k: nat)
    returns (count: nat, next: nat)
    requires at + len <= buf.Length
    modifies buf
    ensures count <= len && buf[at..at + count] == StrOutput(spec, args, k, len) && next == k + Stars(spec) + 1
    ensures forall i :: 0 <= i < buf.Length && !(at <= i < at + count) ==> buf[i] == old(buf[i])
  {
    var s;
    s, next := FetchStars(spec, args, k);
    var arg := TextAt(args, next);
    next := next + 1;
    var str := if arg.None? then "(null)" else CString(arg.value);
    count := PadStr(buf, at, len, str, s.width, spec.flags.left);
  }

  /** The copying loops of `print_str`: the padding and what the width keeps of the string, within len. */
  method PadStr(buf: array<char>, at: nat, len: nat, str: seq<char>, width: int, left: bool) returns (count: nat)
    requires at + len <= buf.Length
    modifies buf
    ensures count <= len && buf[at..at + count] == Take(StrText(str, width, len, left), len)
    ensures forall i :: 0 <= i < buf.Length && !(at <= i < at + count) ==> buf[i] == old(buf[i])
  {
    var slen := if width > 0 then width else Min(|str|, len);
    var pad := width - slen;
    var p := at;
    ghost var done: seq<char> := [];
    if !left {
      p := Append(buf, at, len, p, done, Spaces(pad));
      done := Spaces(pad);
    }
    p := Append(buf, at, len, p, done, str[..Min(slen, |str|)]);
    done := done + str[..Min(slen, |str|)];
    if left {
      p := Append(buf, at, len, p, done, Spaces(pad));
      done := done + Spaces(pad);
    }
    assert done == StrText(str, width, len, left);
    count := p - at;
    assert buf[at..at + count] == buf[at..p];
  }

  // ---------------------------------------------------------------------------------------
  // vsnprintf
  // ---------------------------------------------------------------------------------------

  /** The printers the conversion switch chooses between. */
  datatype Printer = PercentSign | CharPrinter | StrPrinter | IntPrinter | Skipped | Nothing

  /** The switch of `vsnprintf` on the conversion type, as written. */
  function PrinterOf(k: Kind): (r: Printer)
    ensures r == IntPrinter <==> IsInteger(k)
    ensures r == Skipped <==> (k.WideChar? || k.WideStr? || k.Double? || k.LongDouble?)
    ensures r == Nothing <==> k.Invalid?
  {
    if k.Percent? then PercentSign
    else if k.Char? then CharPrinter
    else if k.Str? then StrPrinter
    else if IsInteger(k) then IntPrinter
    else if k.Invalid? then Nothing
    else Skipped
  }

  /**
   * `%n`, an unknown conversion character or a '%' at the very end leave the type `int` and the
   * base 0: as written `print_int` is called and `do_print_int` computes `num % 0`.
   */
  lemma BaseZeroReachesPrinter(fmt: seq<char>)
    requires fmt == "n" || fmt == "q" || fmt == ""
    ensures SpecOf(fmt, 0).kind == Int && SpecOf(fmt, 0).base == 0
    ensures PrinterOf(SpecOf(fmt, 0).kind) == IntPrinter
  {
    assert FlagRun(fmt, 0, NO_FLAGS) == (0, NO_FLAGS);
    assert Length(fmt, 0) == (0, Int);
  }

  /** The corrected switch: an integer type without a base prints nothing. */
  function PrinterFor(spec: Spec): (r: Printer)
    ensures r == IntPrinter ==> IsInteger(spec.kind) && Radix(spec.base)
    ensures r != PrinterOf(spec.kind) ==> r == Nothing && IsInteger(spec.kind) && !Radix(spec.base)
  {
    if IsInteger(spec.kind) && !Radix(spec.base) then Nothing else PrinterOf(spec.kind)
  }

  /**
   * What one conversion writes into a room of the given size, with the index of the next unread
   * argument.  `%%` writes '%'; the floating-point and wide conversions consume their arguments
   * and write nothing; an invalid conversion writes nothing.
   */
  function Piece(spec: Spec, args: seq<Arg>, k: nat, room: nat): (r: (seq<char>, nat))
    ensures |r.0| <= room && k <= r.1
    ensures PrinterFor(spec) == PercentSign ==> r == (Take("%", room), k)
    ensures PrinterFor(spec) == Skipped ==> r == ([], k + 1 + Stars(spec))
    ensures PrinterFor(spec) == Nothing ==> r == ([], k)
  {
    match PrinterFor(spec)
    case PercentSign => (Take("%", room), k)
    case CharPrinter => (CharOutput(spec, args, k, room), k + Stars(spec) + 1)
    case StrPrinter => (StrOutput(spec, args, k, room), k + Stars(spec) + 1)
    case IntPrinter => (IntOutput(spec, args, k, room), k + Stars(spec) + 1)
    case Skipped => ([], k + 1 + Stars(spec))
    case Nothing => ([], k)
  }

  /**
   * The text `vsnprintf` writes from position i of the format on, with k the next unread
   * argument and room the space left: literal characters are copied, each conversion writes
   * its piece into what room remains, and the output stops at the end of the format (its
   * first NUL) or when the room is used up.
   */
  function Output(fmt: seq<char>, i: nat, args: seq<Arg>, k: nat, room: nat): (r: seq<char>)
    requires i <= |fmt|
    ensures |r| <= room
    decreases |fmt| - i, 2
  {
    if Ch(fmt, i) == '\0' || room == 0 then [] else OutputAt(fmt, i, args, k, room)
  }

  /**
   * The output at a character of the format other than its end, with room left.  (`Output`,
   * `OutputAt` and `OutputStep` are one definition split in three, so that the verifier unfolds
   * it only as far as a proof asks.)
   */
  function OutputAt(fmt: seq<char>, i: nat, args: seq<Arg>, k: nat, room: nat): (r: seq<char>)
    requires i < |fmt| && room > 0
    ensures |r| <= room
    decreases |fmt| - i, 1
  {
    OutputStep(fmt, i, args, k, room)
  }

  /** A literal character is copied; a conversion writes its piece, and the rest follows. */
  function OutputStep(fmt: seq<char>, i: nat, args: seq<Arg>, k: nat, room: nat): (r: seq<char>)
    requires i < |fmt| && room > 0
    ensures |r| <= room
    decreases |fmt| - i, 0
  {
    if fmt[i] != '%' then [fmt[i]] + Output(fmt, i + 1, args, k, room - 1)
    else
      var spec := SpecOf(fmt, i + 1);
      var (piece, next) := Piece(spec, args, k, room);
      piece + Output(fmt, spec.next, args, next, room - |piece|)
  }

  /** A format without conversions is copied up to its first NUL, as far as the room allows. */
  lemma {:induction false} PlainOutput(fmt: seq<char>, i: nat, args: seq<Arg>, k: nat, room: nat)
    requires i <= |fmt| && '%' !in fmt[i..]
    ensures Output(fmt, i, args, k, room) == Take(CString(fmt[i..]), room)
    decreases |fmt| - i
  {
    if Ch(fmt, i) != '\0' && room > 0 {
      assert fmt[i..] == [fmt[i]] + fmt[i + 1..];
      assert fmt[i + 1..] == fmt[i..][1..];
      assert fmt[i] == fmt[i..][0];
      OutputLiteral(fmt, i, args, k, room);
      PlainOutput(fmt, i + 1, args, k, room - 1);
    }
  }

  // ---------------------------------------------------------------------------------------
  // vsnprintf as written
  // ---------------------------------------------------------------------------------------

  /**
   * `print_int` as written in a room of len: the number read before the `*` width and precision,
   * the prefix only while the clamped width allows, and the zeros of the zero flag filling the
   * width on top of the sign. Without a base (`%n`, an unknown conversion, a '%' at the end)
   * `do_print_int` divides by 0 as soon as the number is not 0: no defined result (None).
   */
  function IntOutputAsWritten(spec: Spec, args: seq<Arg>, k: nat, len: nat): (r: Option<seq<char>>)
    requires IsInteger(spec.kind)
    ensures r.Some? ==> |r.value| <= len
    ensures r.None? <==> !Radix(spec.base) && Narrow(spec.kind, NumAt(args, k)) != 0
  {
    var o := IntOperandsAsWritten(spec, args, k);
    if Radix(spec.base) then Some(Take(IntFieldAsWritten(o.spec, o.value, IsSigned(spec.kind), len), len))
    else if o.value == 0 then
      // no figure is computed: the loop is skipped and "0" printed as in any base
      var width := ClampWidth(o.spec.width, len);
      var prefix := PrefixAsWritten(o.spec, width);
      Some(Take(prefix + IntTextAsWritten(0, o.spec.(width := width - |prefix|, base := 10), IsSigned(spec.kind)), len))
    else None
  }

  /** The field `print_int` as written prints: the prefix while the width allows, then the number in what remains. */
  function IntFieldAsWritten(spec: Spec, value: nat, isSigned: bool, len: nat): seq<char>
    requires value < TWO64 && Radix(spec.base)
  {
    var width := ClampWidth(spec.width, len);
    var prefix := PrefixAsWritten(spec, width);
    prefix + IntTextAsWritten(value, spec.(width := width - |prefix|), isSigned)
  }

  /**
   * The field as written is the intended one when the width has room for the prefix and the
   * zero flag has no sign to put on top of the width.
   */
  lemma FieldAgrees(spec: Spec, value: nat, isSigned: bool, len: nat)
    requires value < TWO64 && Radix(spec.base)
    requires Prefix(spec) == [] || ClampWidth(spec.width, len) >= 2
    requires !spec.flags.zero || SignText(value, spec, isSigned) == []
    ensures IntFieldAsWritten(spec, value, isSigned, len) == IntField(spec, value, isSigned, len)
  {
    var width := ClampWidth(spec.width, len);
    assert PrefixAsWritten(spec, width) == Prefix(spec);
    var rest := spec.(width := width - |Prefix(spec)|);
    LayoutAgrees(value, rest, isSigned);
    IntFieldParts(spec, value, isSigned, len);
  }

  /** Where the zero flag has no sign to count, counting the sign in the width or not makes no difference. */
  lemma LayoutAgrees(num: nat, spec: Spec, isSigned: bool)
    requires num < TWO64 && Radix(spec.base)
    requires !spec.flags.zero || SignText(num, spec, isSigned) == []
    ensures IntTextAsWritten(num, spec, isSigned) == IntText(num, spec, isSigned)
  {
  }

  /**
   * `print_char` as written in a room of len: with a room of 0 and no '-' flag `while (len - 1)`
   * runs 2^32 - 1 times past the buffer (None).
   */
  function CharOutputAsWritten(spec: Spec, args: seq<Arg>, k: nat, len: nat): (r: Option<seq<char>>)
    ensures r.Some? ==> |r.value| <= len
    ensures r.None? <==>
      CharRoom(Resolve(spec.(width := if spec.width == 0 then 1 else spec.width), args, k).width, len) == 0 && !spec.flags.left
  {
    var s := Resolve(spec.(width := if spec.width == 0 then 1 else spec.width), args, k);
    var room := CharRoom(s.width, len);
    if room == 0 && !spec.flags.left then None
    else Some(CharText(CharOf(NumAt(args, k + Stars(spec))), room, spec.flags.left))
  }

  /** One conversion as written, dispatched on the switch as written. */
  function PieceAsWritten(spec: Spec, args: seq<Arg>, k: nat, room: nat): (r: Option<(seq<char>, nat)>)
    ensures r.Some? ==> |r.value.0| <= room && k <= r.value.1
    ensures r.None? <==>
      ((PrinterOf(spec.kind) == IntPrinter && IntOutputAsWritten(spec, args, k, room).None?) ||
       (PrinterOf(spec.kind) == CharPrinter && CharOutputAsWritten(spec, args, k, room).None?))
  {
    match PrinterOf(spec.kind)
    case PercentSign => Some((Take("%", room), k))
    case CharPrinter =>
      (match CharOutputAsWritten(spec, args, k, room)
       case None => None
       case Some(t) => Some((t, k + Stars(spec) + 1)))
    case StrPrinter => Some((StrOutput(spec, args, k, room), k + Stars(spec) + 1))
    case IntPrinter =>
      (match IntOutputAsWritten(spec, args, k, room)
       case None => None
       case Some(t) => Some((t, k + 1 + Stars(spec))))
    case Skipped => Some(([], k + 1 + Stars(spec)))
    case Nothing => Some(([], k))
  }

  /** `vsnprintf` as written: the loop of Output over the pieces as written; None once one is undefined. */
  function OutputAsWritten(fmt: seq<char>, i: nat, args: seq<Arg>, k: nat, room: nat): (r: Option<seq<char>>)
    requires i <= |fmt|
    ensures r.Some? ==> |r.value| <= room
    decreases |fmt| - i, 2
  {
    if Ch(fmt, i) == '\0' || room == 0 then Some([]) else StepAsWritten(fmt, i, args, k, room)
  }

  /**
   * A literal character is copied; a conversion writes its piece as written, and the rest follows.
   * (`OutputAsWritten`, `StepAsWritten` and `AfterPiece` are one definition split in
   * three, as `Output` is.)
   */
  function StepAsWritten(fmt: seq<char>, i: nat, args: seq<Arg>, k: nat, room: nat): (r: Option<seq<char>>)
    requires i < |fmt| && room > 0
    ensures r.Some? ==> |r.value| <= room
    decreases |fmt| - i, 1
  {
    if fmt[i] != '%' then
      match OutputAsWritten(fmt, i + 1, args, k, room - 1)
      case None => None
      case Some(rest) => Some([fmt[i]] + rest)
    else
      var spec := SpecOf(fmt, i + 1);
      AfterPiece(fmt, spec.next, PieceAsWritten(spec, args, k, room), args, room)
  }

  /**
   * A conversion's piece as written (None when it is undefined) followed by the output as written
   * from position j of the format, with the argument the piece stopped at and the room it left.
   */
  function AfterPiece(fmt: seq<char>, j: nat, piece: Option<(seq<char>, nat)>, args: seq<Arg>, room: nat): (r: Option<seq<char>>)
    requires j <= |fmt| && (piece.Some? ==> |piece.value.0| <= room)
    ensures r.Some? ==> |r.value| <= room
    decreases |fmt| - j + 1, 0
  {
    if piece.None? then None
    else
      var rest := OutputAsWritten(fmt, j, args, piece.value.1, room - |piece.value.0|);
      if rest.None? then None else Some(piece.value.0 + rest.value)
  }

  /**
   * A conversion none of the defects touches: an integer with a base, no `*`, a prefix the width
   * has room for, and no sign under the zero flag; a character with room or left-justified.
   */
  predicate Untouched(spec: Spec, args: seq<Arg>, k: nat, room: nat)
  {
    match PrinterOf(spec.kind)
    case IntPrinter =>
      var value := Narrow(spec.kind, NumAt(args, k));
      Radix(spec.base) && Stars(spec) == 0 &&
      (Prefix(spec) == [] || ClampWidth(spec.width, room) >= 2) &&
      (!spec.flags.zero || SignText(value, spec, IsSigned(spec.kind)) == [])
    case CharPrinter =>
      spec.flags.left || CharRoom(Resolve(spec.(width := if spec.width == 0 then 1 else spec.width), args, k).width, room) > 0
    case _ => true
  }

  /** Every conversion the output reaches is untouched by the defects. */
  predicate AllUntouched(fmt: seq<char>, i: nat, args: seq<Arg>, k: nat, room: nat)
    requires i <= |fmt|
    decreases |fmt| - i, 2
  {
    Ch(fmt, i) == '\0' || room == 0 || UntouchedFrom(fmt, i, args, k, room)
  }

  /** The conversion at i, if any, is untouched, and so is every one after it. */
  predicate UntouchedFrom(fmt: seq<char>, i: nat, args: seq<Arg>, k: nat, room: nat)
    requires i < |fmt| && room > 0
    decreases |fmt| - i, 1
  {
    if fmt[i] != '%' then AllUntouched(fmt, i + 1, args, k, room - 1) else ConversionUntouched(fmt, i, args, k, room)
  }

  /** The conversion at i is untouched, and so is every one after it. */
  predicate ConversionUntouched(fmt: seq<char>, i: nat, args: seq<Arg>, k: nat, room: nat)
    requires i < |fmt| && room > 0
    decreases |fmt| - i, 0
  {
    var spec := SpecOf(fmt, i + 1);
    var (piece, next) := Piece(spec, args, k, room);
    Untouched(spec, args, k, room) && AllUntouched(fmt, spec.next, args, next, room - |piece|)
  }

  /** An untouched conversion writes as written what it writes as intended. */
  lemma PieceAgrees(spec: Spec, args: seq<Arg>, k: nat, room: nat)
    requires Untouched(spec, args, k, room)
    ensures PieceAsWritten(spec, args, k, room) == Some(Piece(spec, args, k, room))
  {
    if PrinterOf(spec.kind) == IntPrinter {
      IntAgrees(spec, args, k, room);
    }
  }

  /** IntOutputAsWritten on an untouched integer conversion. */
  lemma IntAgrees(spec: Spec, args: seq<Arg>, k: nat, room: nat)
    requires IsInteger(spec.kind) && Untouched(spec, args, k, room)
    ensures IntOutputAsWritten(spec, args, k, room) == Some(IntOutput(spec, args, k, room))
  {
    var o := IntOperandsAsWritten(spec, args, k);
    assert o == IntOperands(spec, args, k) && o.spec == spec;
    FieldAgrees(spec, o.value, IsSigned(spec.kind), room);
  }

  /**
   * Away from the defects `vsnprintf` as written is the intended one: whenever every conversion
   * reached is untouched, the two write the same text.
   */
  lemma {:induction false} OutputAgrees(fmt: seq<char>, i: nat, args: seq<Arg>, k: nat, room: nat)
    requires i <= |fmt| && AllUntouched(fmt, i, args, k, room)
    ensures OutputAsWritten(fmt, i, args, k, room) == Some(Output(fmt, i, args, k, room))
    decreases |fmt| - i
  {
    if Ch(fmt, i) != '\0' && room > 0 {
      if fmt[i] != '%' {
        OutputAgrees(fmt, i + 1, args, k, room - 1);
        LiteralAgrees(fmt, i, args, k, room);
      } else {
        assert UntouchedFrom(fmt, i, args, k, room);
        var j, p, r := ConversionSplits(fmt, i, args, k, room);
        OutputAgrees(fmt, j, args, r.1, room - |r.0|);
        Glue(fmt, i, j, p, r, args, k, room);
      }
    }
  }

  /** A literal character: both outputs copy it and go on alike. */
  lemma LiteralAgrees(fmt: seq<char>, i: nat, args: seq<Arg>, k: nat, room: nat)
    requires i < |fmt| && fmt[i] != '\0' && fmt[i] != '%' && room > 0
    requires OutputAsWritten(fmt, i + 1, args, k, room - 1) == Some(Output(fmt, i + 1, args, k, room - 1))
    ensures OutputAsWritten(fmt, i, args, k, room) == Some(Output(fmt, i, args, k, room))
  {
    OutputLiteral(fmt, i, args, k, room);
    assert OutputAsWritten(fmt, i, args, k, room) == StepAsWritten(fmt, i, args, k, room);
  }

  /**
   * Both outputs at i are a piece followed by the output from j: p as written, r as intended,
   * each followed by its own output from j, r's next argument and the room r leaves.
   */
  predicate Splits(fmt: seq<char>, i: nat, j: nat, p: Option<(seq<char>, nat)>, r: (seq<char>, nat), args: seq<Arg>, k: nat, room: nat)
  {
    i < j <= |fmt| && |r.0| <= room && (p.Some? ==> |p.value.0| <= room) &&
    OutputAsWritten(fmt, i, args, k, room) == AfterPiece(fmt, j, p, args, room) &&
    Output(fmt, i, args, k, room) == r.0 + Output(fmt, j, args, r.1, room - |r.0|)
  }

  /**
   * A conversion splits both outputs after its specification; when it is untouched its piece as
   * written is the intended one and the conversions after it are untouched.
   */
  lemma ConversionSplits(fmt: seq<char>, i: nat, args: seq<Arg>, k: nat, room: nat)
    returns (j: nat, p: Option<(seq<char>, nat)>, r: (seq<char>, nat))
    requires i < |fmt| && fmt[i] == '%' && room > 0
    ensures Splits(fmt, i, j, p, r, args, k, room)
    ensures ConversionUntouched(fmt, i, args, k, room) ==> p == Some(r) && AllUntouched(fmt, j, args, r.1, room - |r.0|)
  {
    SplitExists(fmt, i, args, k, room);
    j, p, r :| Splits(fmt, i, j, p, r, args, k, room) &&
      (ConversionUntouched(fmt, i, args, k, room) ==> p == Some(r) && AllUntouched(fmt, j, args, r.1, room - |r.0|));
  }

  /** The split of ConversionSplits exists; its witness is the conversion's own piece and end. */
  lemma SplitExists(fmt: seq<char>, i: nat, args: seq<Arg>, k: nat, room: nat)
    requires i < |fmt| && fmt[i] == '%' && room > 0
    ensures exists j: nat, p: Option<(seq<char>, nat)>, r: (seq<char>, nat) ::
      Splits(fmt, i, j, p, r, args, k, room) &&
      (ConversionUntouched(fmt, i, args, k, room) ==> p == Some(r) && AllUntouched(fmt, j, args, r.1, room - |r.0|))
  {
    SplitsAtConversion(fmt, i, args, k, room);
    UntouchedConversion(fmt, i, args, k, room);
  }

  /** Both outputs split after the conversion's specification. */
  lemma SplitsAtConversion(fmt: seq<char>, i: nat, args: seq<Arg>, k: nat, room: nat)
    requires i < |fmt| && fmt[i] == '%' && room > 0
    ensures var spec := SpecOf(fmt, i + 1);
      Splits(fmt, i, spec.next, PieceAsWritten(spec, args, k, room), Piece(spec, args, k, room), args, k, room)
  {
    AsWrittenConversion(fmt, i, args, k, room);
    OutputConversion(fmt, i, args, k, room);
  }

  /**
   * An untouched conversion writes its intended piece as written, and the conversions that
   * follow it are untouched.
   */
  lemma UntouchedConversion(fmt: seq<char>, i: nat, args: seq<Arg>, k: nat, room: nat)
    requires i < |fmt| && room > 0
    ensures var spec := SpecOf(fmt, i + 1);
      var r := Piece(spec, args, k, room);
      ConversionUntouched(fmt, i, args, k, room) ==>
        PieceAsWritten(spec, args, k, room) == Some(r) && AllUntouched(fmt, spec.next, args, r.1, room - |r.0|)
  {
    if ConversionUntouched(fmt, i, args, k, room) {
      PieceAgrees(SpecOf(fmt, i + 1), args, k, room);
    }
  }

  /** When the piece as written is the intended one and the outputs after it agree, the outputs agree. */
  lemma Glue(fmt: seq<char>, i: nat, j: nat, p: Option<(seq<char>, nat)>, r: (seq<char>, nat), args: seq<Arg>, k: nat, room: nat)
    requires Splits(fmt, i, j, p, r, args, k, room) && p == Some(r)
    requires OutputAsWritten(fmt, j, args, r.1, room - |r.0|) == Some(Output(fmt, j, args, r.1, room - |r.0|))
    ensures OutputAsWritten(fmt, i, args, k, room) == Some(Output(fmt, i, args, k, room))
  {
    AfterDefinedPiece(fmt, j, r, args, room);
  }

  /** At a '%' the output as written is the piece as written followed by the rest. */
  lemma AsWrittenConversion(fmt: seq<char>, i: nat, args: seq<Arg>, k: nat, room: nat)
    requires i < |fmt| && fmt[i] == '%' && room > 0
    ensures var spec := SpecOf(fmt, i + 1);
      OutputAsWritten(fmt, i, args, k, room) == AfterPiece(fmt, spec.next, PieceAsWritten(spec, args, k, room), args, room)
  {
    assert OutputAsWritten(fmt, i, args, k, room) == StepAsWritten(fmt, i, args, k, room);
  }

  /** A defined piece followed by the output as written after it. */
  lemma AfterDefinedPiece(fmt: seq<char>, j: nat, piece: (seq<char>, nat), args: seq<Arg>, room: nat)
    requires j <= |fmt| && |piece.0| <= room
    ensures var rest := OutputAsWritten(fmt, j, args, piece.1, room - |piece.0|);
      AfterPiece(fmt, j, Some(piece), args, room) == if rest.None? then None else Some(piece.0 + rest.value)
  {
  }

  /** `%n` of a non-zero argument: as written undefined (a division by 0); as intended nothing is printed. */
  lemma BaseZeroUndefined(spec: Spec, args: seq<Arg>, room: nat)
    requires spec.kind == Int && spec.base == 0 && args == [Num(1)]
    ensures PieceAsWritten(spec, args, 0, room).None?
    ensures Piece(spec, args, 0, room) == ([], 0)
  {
    assert Narrow(Int, 1) == 1;
  }

  /** `%*c` with a width argument of 0: as written undefined (a run past the buffer); as intended nothing. */
  lemma ZeroWidthCharUndefined(spec: Spec, args: seq<Arg>, room: nat)
    requires spec == Spec(Char, FROM_ARG, NO_FLAGS, 0, 0, 0) && args == [Num(0), Num(65)] && room > 0
    ensures PieceAsWritten(spec, args, 0, room).None?
    ensures Piece(spec, args, 0, room) == ([], 2)
  {
  }

  /** What is written so far, followed by the output from position i on, makes the whole output. */
  ghost predicate Continues(written: seq<char>, fmt: seq<char>, i: nat, args: seq<Arg>, k: nat, room: nat, out: seq<char>)
    requires i <= |fmt|
  {
    written + Output(fmt, i, args, k, room) == out
  }

  /** One conversion, dispatched on the corrected switch: writes its piece at p. */
  method Convert(buf: array<char>, p: nat, room: nat, spec: Spec, args: seq<Arg>, k: nat)
    returns (n: nat, next: nat)
    requires room > 0 && p + room <= buf.Length
    modifies buf
    ensures n <= room && (buf[p..p + n], next) == Piece(spec, args, k, room)
    ensures forall m :: 0 <= m < buf.Length && !(p <= m < p + n) ==> buf[m] == old(buf[m])
  {
    n, next := 0, k;
    var printer := PrinterFor(spec);
    PieceCases(spec, args, k, room);
    if printer == PercentSign {
      buf[p] := '%';
      n := 1;
      assert buf[p..p + n] == Take("%", room);
    } else if printer == CharPrinter {
      n, next := PrintChar(buf, p, room, spec, args, k);
    } else if printer == StrPrinter {
      n, next := PrintStr(buf, p, room, spec, args, k);
    } else if printer == IntPrinter {
      n, next := PrintInt(buf, p, room, spec, args, k);
    } else if printer == Skipped {
      next := k + 1 + Stars(spec);
      assert buf[p..p + n] == [];
    } else {
      assert printer == Nothing;
      assert buf[p..p + n] == [];
    }
  }

  /** The piece of each printer, unfolded once (stated apart so that `Convert` need not unfold it). */
  lemma PieceCases(spec: Spec, args: seq<Arg>, k: nat, room: nat)
    ensures PrinterFor(spec) == CharPrinter ==> Piece(spec, args, k, room) == (CharOutput(spec, args, k, room), k + Stars(spec) + 1)
    ensures PrinterFor(spec) == StrPrinter ==> Piece(spec, args, k, room) == (StrOutput(spec, args, k, room), k + Stars(spec) + 1)
    ensures PrinterFor(spec) == IntPrinter ==> Piece(spec, args, k, room) == (IntOutput(spec, args, k, room), k + Stars(spec) + 1)
  {
  }

  /**
   * One pass of the loop of `vsnprintf` at a '%': decodes the specification after it and prints
   * the conversion at p, in what room remains before len.  Returns where the output and the
   * format go on and the next unread argument; the output so far is still a prefix of out.
   */
  method ConversionPass(buf: array<char>, p: nat, len: nat, fmt: seq<char>, i: nat, args: seq<Arg>, k: nat,
                         ghost out: seq<char>)
    returns (q: nat, j: nat, next: nat)
    requires i < |fmt| && fmt[i] == '%' && p < len <= buf.Length
    requires Continues(buf[..p], fmt, i, args, k, len - p, out)
    modifies buf
    ensures i < j <= |fmt| && p <= q <= len
    ensures Continues(buf[..q], fmt, j, args, next, len - q, out)
    ensures forall m :: len <= m < buf.Length ==> buf[m] == old(buf[m])
  {
    var spec := DecodeSpec(fmt, i + 1);
    j := spec.next;
    q, next := PrintConversion(buf, p, len, fmt, i, spec, args, k, out);
  }

  /**
   * The body of that pass after `decode_spec`: the printer the conversion chooses, at p in the
   * room before len.  What lies before p is left alone.
   */
  method PrintConversion(buf: array<char>, p: nat, len: nat, fmt: seq<char>, i: nat, spec: Spec, args: seq<Arg>, k: nat,
                         ghost out: seq<char>)
    returns (q: nat, next: nat)
    requires i < |fmt| && fmt[i] == '%' && p < len <= buf.Length && spec == SpecOf(fmt, i + 1)
    requires Continues(buf[..p], fmt, i, args, k, len - p, out)
    modifies buf
    ensures p <= q <= len
    ensures Continues(buf[..q], fmt, spec.next, args, next, len - q, out)
    ensures forall m :: len <= m < buf.Length ==> buf[m] == old(buf[m])
  {
    ghost var before := buf[..p];
    q, next := PutPiece(buf, p, len, spec, args, k, before);
    ghost var written := buf[..q];
    ghost var left: nat := len - q;
    ConversionStep(fmt, i, spec, args, k, len - p, before, written, next, left, out);
    ContinuesWithin(written, fmt, spec.next, args, next, left, len, q, out);
  }

  /** The printer's piece is written at p, after what is already there. */
  method PutPiece(buf: array<char>, p: nat, len: nat, spec: Spec, args: seq<Arg>, k: nat, ghost before: seq<char>)
    returns (q: nat, next: nat)
    requires p < len <= buf.Length && buf[..p] == before
    modifies buf
    ensures q == p + |Piece(spec, args, k, len - p).0| && q <= len
    ensures next == Piece(spec, args, k, len - p).1
    ensures buf[..q] == before + Piece(spec, args, k, len - p).0
    ensures forall m :: len <= m < buf.Length ==> buf[m] == old(buf[m])
  {
    var n;
    n, next := Convert(buf, p, len - p, spec, args, k);
    q := p + n;
    Spliced(buf[..], before, p, q);
  }

  /**
   * `vsnprintf`: literal characters are copied and each conversion printed while room remains;
   * the NUL goes after them only when room is left.  A length above INT_MAX prints nothing.
   */
  method Vsnprintf(buf: array<char>, len: nat, fmt: seq<char>, args: seq<Arg>) returns (count: nat)
    requires len <= INT_MAX ==> len <= buf.Length
    modifies buf
    ensures len > INT_MAX ==> count == 0 && buf[..] == old(buf[..])
    ensures count <= len
    ensures len <= INT_MAX ==> buf[..count] == Output(fmt, 0, args, 0, len)
    ensures len <= INT_MAX && count < len ==> buf[count] == '\0'
    ensures len <= INT_MAX ==> buf[len..] == old(buf[len..])
  {
    if len > INT_MAX {
      return 0;
    }
    var i: nat := 0;
    var p: nat := 0;
    var k: nat := 0;
    ghost var out := Output(fmt, 0, args, 0, len);
    assert Continues([], fmt, 0, args, 0, len - 0, out);
    while Ch(fmt, i) != '\0' && p < len
      invariant i <= |fmt| && p <= len <= buf.Length
      invariant forall m :: len <= m < buf.Length ==> buf[m] == old(buf[m])
      invariant Continues(buf[..p], fmt, i, args, k, len - p, out)
      decreases |fmt| - i
    {
      ghost var before := buf[..p];
      if fmt[i] != '%' {
        LiteralStep(fmt, i, args, k, len - p, before, len - (p + 1), out);
        buf[p] := fmt[i];
        assert buf[..p + 1] == before + [fmt[i]];
        p := p + 1;
        i := i + 1;
        continue;
      }
      p, i, k := ConversionPass(buf, p, len, fmt, i, args, k, out);
    }
    if p < len {
      buf[p] := '\0';
    }
    assert buf[len..] == old(buf[len..]);
    count := p;
  }

  /** Concatenation is associative (stated apart so that callers need not prove it in a large context). */
  lemma Regroup(a: seq<char>, b: seq<char>, c: seq<char>)
    ensures a + (b + c) == (a + b) + c
  {
  }

  /** A sequence whose first p elements are before is before followed by what comes after them. */
  lemma Spliced(whole: seq<char>, before: seq<char>, p: nat, q: nat)
    requires p <= q <= |whole| && |before| == p
    requires forall m :: 0 <= m < p ==> whole[m] == before[m]
    ensures whole[..q] == before + whole[p..q]
  {
    assert forall m :: 0 <= m < p ==> whole[..q][m] == (before + whole[p..q])[m];
  }

  /** A literal character is copied and takes one place of the room. */
  lemma OutputLiteral(fmt: seq<char>, i: nat, args: seq<Arg>, k: nat, room: nat)
    requires i < |fmt| && fmt[i] != '\0' && fmt[i] != '%' && room > 0
    ensures Output(fmt, i, args, k, room) == [fmt[i]] + Output(fmt, i + 1, args, k, room - 1)
  {
    assert Output(fmt, i, args, k, room) == OutputAt(fmt, i, args, k, room) == OutputStep(fmt, i, args, k, room);
  }

  /** A conversion writes its piece and the output goes on after its specification. */
  lemma ConversionStep(fmt: seq<char>, i: nat, spec: Spec, args: seq<Arg>, k: nat, room: nat, before: seq<char>,
                       written: seq<char>, next: nat, left: nat, out: seq<char>)
    requires i < |fmt| && fmt[i] == '%' && room > 0 && spec == SpecOf(fmt, i + 1)
    requires Continues(before, fmt, i, args, k, room, out)
    requires written == before + Piece(spec, args, k, room).0 && next == Piece(spec, args, k, room).1
    requires left + |Piece(spec, args, k, room).0| == room
    ensures Continues(written, fmt, spec.next, args, next, left, out)
  {
    ConversionSplit(fmt, i, spec, args, k, room, Piece(spec, args, k, room).0, next, left);
    Reglue(before, Piece(spec, args, k, room).0, Output(fmt, spec.next, args, next, left),
           Output(fmt, i, args, k, room), out);
  }

  /** Continues with the room left written as the difference it is. */
  lemma ContinuesWithin(written: seq<char>, fmt: seq<char>, j: nat, args: seq<Arg>, next: nat, left: nat,
                        len: nat, q: nat, out: seq<char>)
    requires j <= |fmt| && left == len - q && Continues(written, fmt, j, args, next, left, out)
    ensures Continues(written, fmt, j, args, next, len - q, out)
  {
  }

  /** OutputConversion on the caller's own names for the specification, the piece and what follows. */
  lemma ConversionSplit(fmt: seq<char>, i: nat, spec: Spec, args: seq<Arg>, k: nat, room: nat,
                        piece: seq<char>, next: nat, left: nat)
    requires i < |fmt| && fmt[i] == '%' && room > 0 && spec == SpecOf(fmt, i + 1)
    requires (piece, next) == Piece(spec, args, k, room) && left + |piece| == room
    ensures Output(fmt, i, args, k, room) == piece + Output(fmt, spec.next, args, next, left)
  {
    OutputConversion(fmt, i, args, k, room);
  }

  /** Regroup applied to a whole that is a piece followed by the rest. */
  lemma Reglue(before: seq<char>, piece: seq<char>, rest: seq<char>, whole: seq<char>, out: seq<char>)
    requires before + whole == out && whole == piece + rest
    ensures (before + piece) + rest == out
  {
    Regroup(before, piece, rest);
  }

  /** A literal character is copied and the output goes on after it. */
  lemma LiteralStep(fmt: seq<char>, i: nat, args: seq<Arg>, k: nat, room: nat, before: seq<char>, left: nat, out: seq<char>)
    requires i < |fmt| && fmt[i] != '\0' && fmt[i] != '%' && room > 0 && left == room - 1
    requires Continues(before, fmt, i, args, k, room, out)
    ensures Continues(before + [fmt[i]], fmt, i + 1, args, k, left, out)
  {
    var rest := Output(fmt, i + 1, args, k, left);
    OutputLiteral(fmt, i, args, k, room);
    Regroup(before, [fmt[i]], rest);
  }

  /** One unfolding of `Output` at a conversion. */
  lemma OutputConversion(fmt: seq<char>, i: nat, args: seq<Arg>, k: nat, room: nat)
    requires i < |fmt| && fmt[i] == '%' && room > 0
    ensures var spec := SpecOf(fmt, i + 1);
      var r := Piece(spec, args, k, room);
      Output(fmt, i, args, k, room) == r.0 + Output(fmt, spec.next, args, r.1, room - |r.0|)
  {
    assert Output(fmt, i, args, k, room) == OutputAt(fmt, i, args, k, room) == OutputStep(fmt, i, args, k, room);
  }
}
