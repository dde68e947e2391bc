/**
 * The option decoders of the AFS formatter (bin/mkfs.afs/main.c): `decode_size`, `decode_uint`
 * and `decode_uuid`.
 *
 * The formatter runs on the host, so `uint64_t` arithmetic wraps modulo 2^64 and `isdigit` /
 * `isxdigit` are the C locale's.  A C string is modelled as the characters before its NUL.  The
 * `int` a decoder returns (0 or 1) and the value it stores through its pointer become one
 * `Option`: `Some(v)` when 0 is returned and `v` stored, `None` when 1 is returned.
 */
module MkfsDecode {
  import opened Common
  import opened Digits

  /** 2^64: `uint64_t` arithmetic is modulo this. */
  const U64_MODULUS: int := 0x1_0000_0000_0000_0000

  /** A value as a `uint64_t` holds it. */
  function Wrap64(x: nat): (r: nat)
    ensures r < U64_MODULUS
    ensures x < U64_MODULUS ==> r == x
  {
    x % U64_MODULUS
  }

  /** Reducing the register after each step gives the value reduced once at the end. */
  lemma WrapStep(x: nat, b: nat, d: nat)
    ensures Wrap64(Wrap64(x) * b + d) == Wrap64(x * b + d)
  {
    var m := U64_MODULUS;
    var q := x / m;
    assert x == q * m + x % m;
    assert x * b + d == (x % m * b + d) + (q * b) * m;
    AddMultiple(x % m * b + d, q * b);
  }

  lemma AddMultiple(a: nat, k: nat)
    ensures (a + k * U64_MODULUS) % U64_MODULUS == a % U64_MODULUS
  {
  }

  /** All the characters of s from `start` on are digits of the base. */
  predicate AllDigits(s: seq<char>, start: nat, base: nat)
    requires start <= |s|
  {
    forall j :: start <= j < |s| ==> IsDigitIn(s[j], base)
  }

  /**
   * One digit loop of the decoders: every character from `start` to the end must be a digit of
   * the base, and the register holds the digits' value modulo 2^64.
   */
  function DigitsFrom(s: seq<char>, start: nat, base: nat): (r: Option<nat>)
    requires start <= |s|
    ensures r.Some? <==> AllDigits(s, start, base)
    ensures r.Some? ==> r.value == Wrap64(Value(s, start, |s|, base))
  {
    if AllDigits(s, start, base) then Some(Wrap64(Value(s, start, |s|, base))) else None
  }

  /**
   * The digit loop as the source writes it, once per base: `result = result * base + digit`
   * (for bases 16, 8 and 2 spelled `result <<= k; result |= digit`, which is the same since the
   * shift leaves the low bits clear), returning 1 at the first character that is not a digit.
   */
  method Accumulate(s: seq<char>, start: nat, base: nat) returns (r: Option<nat>)
    requires start <= |s|
    ensures r == DigitsFrom(s, start, base)
  {
    var result := 0;
    var i := start;
    while i < |s|
      invariant start <= i <= |s|
      invariant forall j :: start <= j < i ==> IsDigitIn(s[j], base)
      invariant result == Wrap64(Value(s, start, i, base))
    {
      if !IsDigitIn(s[i], base) {
        return None;
      }
      WrapStep(Value(s, start, i, base), base, DigitValue(s[i], base));
      result := Wrap64(result * base + DigitValue(s[i], base));
      i := i + 1;
    }
    return Some(result);
  }

  // ---------------------------------------------------------------- decode_size

  /** The unit letters of `decode_size` and the power of 1024 each stands for. */
  function UnitPower(c: char): (p: Option<nat>)
    ensures p.Some? ==> 1 <= p.value <= 4
  {
    match c
    case 'k' => Some(1)
    case 'M' => Some(2)
    case 'G' => Some(3)
    case 'T' => Some(4)
    case _ => None
  }

  function Pow1024(p: nat): (r: nat)
    ensures r >= 1
  {
    if p == 0 then 1 else 1024 * Pow1024(p - 1)
  }

  /**
   * What `decode_size` makes of a string: decimal digits, optionally ended by one unit letter
   * k, M, G or T that multiplies the value by 1024, 1024^2, 1024^3 or 1024^4.  A character that
   * is not a digit and not the last one, or a last character that is neither a digit nor a unit,
   * is refused.
   */
  function SizeOf(s: seq<char>): (r: Option<nat>)
    ensures r.Some? ==> r.value < U64_MODULUS
  {
    var e := DigitsEnd(s, 0, 10);
    if e == |s| then Some(Wrap64(Value(s, 0, e, 10)))
    else if e + 1 < |s| then None
    else match UnitPower(s[e])
      case None => None
      case Some(p) => Some(Wrap64(Value(s, 0, e, 10) * Pow1024(p)))
  }

  /** One `result *= 1024` of the unit switch, on the wrapped register. */
  lemma ScaleStep(v: nat, p: nat)
    ensures Wrap64(Wrap64(v * Pow1024(p)) * 1024) == Wrap64(v * Pow1024(p + 1))
  {
    WrapStep(v * Pow1024(p), 1024, 0);
    assert v * Pow1024(p) * 1024 == v * Pow1024(p + 1);
  }

  /**
   * `decode_size`: the digit loop, and at the first other character either a refusal (another
   * character follows it, or it is not a unit) or the unit switch.
   */
  method DecodeSize(str: seq<char>) returns (r: Option<nat>)
    ensures r == SizeOf(str)
  {
    var result := 0;
    var i := 0;
    while i < |str|
      invariant i <= DigitsEnd(str, 0, 10)
      invariant result == Wrap64(Value(str, 0, i, 10))
    {
      if !IsDigitIn(str[i], 10) {
        if i + 1 < |str| {
          return None;
        }
        if UnitPower(str[i]).None? {
          return None;
        }
        result := Scale(result, str[i], Value(str, 0, i, 10));
        return Some(result);
      }
      WrapStep(Value(str, 0, i, 10), 10, DigitValue(str[i], 10));
      result := Wrap64(result * 10 + DigitValue(str[i], 10));
      i := i + 1;
    }
    return Some(result);
  }

  /** The unit switch of `decode_size`: its cases fall through from 'T' to 'k', each multiplying by 1024. */
  method Scale(result: nat, c: char, ghost v: nat) returns (scaled: nat)
    requires UnitPower(c).Some? && result == Wrap64(v)
    ensures scaled == Wrap64(v * Pow1024(UnitPower(c).value))
  {
    scaled := result;
    ghost var p := 0;
    if c == 'T' {
      ScaleStep(v, p);
      scaled, p := Wrap64(scaled * 1024), p + 1;
    }
    if c == 'T' || c == 'G' {
      ScaleStep(v, p);
      scaled, p := Wrap64(scaled * 1024), p + 1;
    }
    if c == 'T' || c == 'G' || c == 'M' {
      ScaleStep(v, p);
      scaled, p := Wrap64(scaled * 1024), p + 1;
    }
    ScaleStep(v, p);
    scaled, p := Wrap64(scaled * 1024), p + 1;
  }

  /** The decimal numeral of a 64-bit value reads back as the value. */
  lemma SizeRoundTrip(n: nat)
    requires n < U64_MODULUS
    ensures SizeOf(Numeral(n, 10)) == Some(n)
  {
    var s := Numeral(n, 10);
    DigitsEndAll(s, 0, 10);
    NumeralValue(n, 10);
  }

  /** A numeral followed by a unit letter reads back as the value times the unit, modulo 2^64. */
  lemma SizeWithUnit(n: nat, u: char)
    requires UnitPower(u).Some?
    ensures SizeOf(Numeral(n, 10) + [u]) == Some(Wrap64(n * Pow1024(UnitPower(u).value)))
  {
    var t := Numeral(n, 10);
    var s := t + [u];
    ValueLocal(t, s, 0, |t|, 10);
    DigitsEndStops(s, |t|, 10);
    NumeralValue(n, 10);
  }

  /** Anything after a unit letter, or after any other non-digit, is refused. */
  lemma SizeSuffixNotLast(t: seq<char>, c: char, rest: seq<char>)
    requires AllDigits(t, 0, 10) && !IsDigitIn(c, 10) && rest != []
    ensures SizeOf(t + [c] + rest) == None
  {
    var s := t + [c] + rest;
    assert forall j :: 0 <= j < |t| ==> s[j] == t[j];
    DigitsEndStops(s, |t|, 10);
  }

  /** A string made only of digits of the base has its digit run end at the end. */
  lemma {:induction false} DigitsEndAll(s: seq<char>, i: nat, base: nat)
    requires i <= |s| && AllDigits(s, i, base)
    ensures DigitsEnd(s, i, base) == |s|
    decreases |s| - i
  {
    if i < |s| {
      DigitsEndAll(s, i + 1, base);
    }
  }

  /** Digits up to e and a non-digit at e: the digit run ends at e. */
  lemma {:induction false} DigitsEndStops(s: seq<char>, e: nat, base: nat)
    requires e < |s| && !IsDigitIn(s[e], base)
    requires forall j :: 0 <= j < e ==> IsDigitIn(s[j], base)
    ensures DigitsEnd(s, 0, base) == e
  {
    DigitsEndFrom(s, 0, e, base);
  }

  lemma {:induction false} DigitsEndFrom(s: seq<char>, i: nat, e: nat, base: nat)
    requires i <= e < |s| && !IsDigitIn(s[e], base)
    requires forall j :: i <= j < e ==> IsDigitIn(s[j], base)
    ensures DigitsEnd(s, i, base) == e
    decreases e - i
  {
    if i < e {
      DigitsEndFrom(s, i + 1, e, base);
    }
  }

  // ---------------------------------------------------------------- decode_uint

  /**
   * What `decode_uint` makes of a string.  Without a leading '0' it is decimal.  After a '0':
   * "0x" is hexadecimal, "0o" or a '0' followed by a digit is octal (the digit included), "0b"
   * is binary; every character after the prefix must be a digit of the base.  Anything else
   * after the '0' (the string "0" itself, or an unknown prefix letter) gives 0.
   */
  function UintOf(s: seq<char>): (r: Option<nat>)
    ensures r.Some? ==> r.value < U64_MODULUS
  {
    if |s| == 0 || s[0] != '0' then DigitsFrom(s, 0, 10)
    else if |s| >= 2 && s[1] == 'x' then DigitsFrom(s, 2, 16)
    else if |s| >= 2 && (s[1] == 'o' || IsDigitIn(s[1], 10)) then DigitsFrom(s, if s[1] == 'o' then 2 else 1, 8)
    else if |s| >= 2 && s[1] == 'b' then DigitsFrom(s, 2, 2)
    else Some(0)
  }

  /** `decode_uint`: the prefix test, then the digit loop of the base it selects. */
  method DecodeUint(str: seq<char>) returns (r: Option<nat>)
    ensures r == UintOf(str)
  {
    if |str| == 0 || str[0] != '0' {
      r := Accumulate(str, 0, 10);
      return;
    }
    if |str| >= 2 && str[1] == 'x' {
      r := Accumulate(str, 2, 16);
      return;
    }
    if |str| >= 2 && (str[1] == 'o' || IsDigitIn(str[1], 10)) {
      r := Accumulate(str, if str[1] == 'o' then 2 else 1, 8);
      return;
    }
    if |str| >= 2 && str[1] == 'b' {
      r := Accumulate(str, 2, 2);
      return;
    }
    return Some(0);
  }

  /** A numeral after a prefix of `d` characters reads as the numeral. */
  lemma Prefixed(prefix: seq<char>, n: nat, base: nat)
    requires 2 <= base <= 36
    ensures var s := prefix + Numeral(n, base);
      AllDigits(s, |prefix|, base) && Value(s, |prefix|, |s|, base) == n
  {
    var t := Numeral(n, base);
    var s := prefix + t;
    assert s[..|prefix|] + t == s;
    ValueShift(t, s, |prefix|, |t|, base);
    NumeralValue(n, base);
  }

  /** The decimal numeral of a 64-bit value reads back as the value ("0" by the fall-through). */
  lemma UintDecimalRoundTrip(n: nat)
    requires n < U64_MODULUS
    ensures UintOf(Numeral(n, 10)) == Some(n)
  {
    var t := Numeral(n, 10);
    NumeralValue(n, 10);
    if n == 0 {
      assert t == ['0'];
    } else {
      assert t[0] != '0';
      assert DigitsFrom(t, 0, 10) == Some(n);
    }
  }

  /** "0x" and the hexadecimal numeral of a 64-bit value reads back as the value. */
  lemma UintHexRoundTrip(n: nat)
    requires n < U64_MODULUS
    ensures UintOf("0x" + Numeral(n, 16)) == Some(n)
  {
    var s := "0x" + Numeral(n, 16);
    Prefixed("0x", n, 16);
    assert s[0] == '0' && s[1] == 'x';
    assert UintOf(s) == DigitsFrom(s, 2, 16);
  }

  /** "0o" and the octal numeral of a 64-bit value reads back as the value. */
  lemma UintOctalRoundTrip(n: nat)
    requires n < U64_MODULUS
    ensures UintOf("0o" + Numeral(n, 8)) == Some(n)
  {
    var s := "0o" + Numeral(n, 8);
    Prefixed("0o", n, 8);
    assert s[0] == '0' && s[1] == 'o';
    assert UintOf(s) == DigitsFrom(s, 2, 8);
  }

  /** "0b" and the binary numeral of a 64-bit value reads back as the value. */
  lemma UintBinaryRoundTrip(n: nat)
    requires n < U64_MODULUS
    ensures UintOf("0b" + Numeral(n, 2)) == Some(n)
  {
    var s := "0b" + Numeral(n, 2);
    Prefixed("0b", n, 2);
    assert s[0] == '0' && s[1] == 'b';
    assert UintOf(s) == DigitsFrom(s, 2, 2);
  }

  /** A '0' followed by an octal numeral is read as octal. */
  lemma UintLeadingZeroOctal(n: nat)
    requires n < U64_MODULUS
    ensures UintOf("0" + Numeral(n, 8)) == Some(n)
  {
    var s := "0" + Numeral(n, 8);
    Prefixed("0", n, 8);
    assert IsDigitIn(s[1], 8) && s[1] != 'x';
    assert UintOf(s) == DigitsFrom(s, 1, 8);
  }

  /** A digit that does not belong to the base is refused. */
  lemma UintBadDigit()
    ensures UintOf("0x1g") == None
    ensures UintOf("08") == None
    ensures UintOf("0b102") == None
    ensures UintOf("12a") == None
  {
    assert !IsDigitIn("0x1g"[3], 16);
    assert !IsDigitIn("08"[1], 8);
    assert !IsDigitIn("0b102"[4], 2);
    assert !IsDigitIn("12a"[2], 10);
  }

  /** As written, an unknown letter after the leading '0' is accepted, with the value 0. */
  lemma UnknownPrefixAccepted()
    ensures UintOf("0z") == Some(0)
    ensures UintOf("0k12") == Some(0)
  {
  }

  /** A string `decode_uint` is meant to accept: a numeral in one of its four notations, or "0". */
  predicate Numeric(s: seq<char>)
  {
    if |s| == 0 || s[0] != '0' then AllDigits(s, 0, 10)
    else if |s| == 1 then true
    else if s[1] == 'x' then AllDigits(s, 2, 16)
    else if s[1] == 'o' then AllDigits(s, 2, 8)
    else if s[1] == 'b' then AllDigits(s, 2, 2)
    else AllDigits(s, 1, 8)
  }

  /** `decode_uint` refusing an unknown prefix letter after the leading '0'. */
  function UintOfChecked(s: seq<char>): (r: Option<nat>)
    ensures r.Some? <==> Numeric(s)
    ensures r.Some? ==> r.value < U64_MODULUS
  {
    if |s| >= 2 && s[0] == '0' && s[1] != 'x' && s[1] != 'o' && s[1] != 'b' && !IsDigitIn(s[1], 10) then None
    else UintOf(s)
  }

  /** The check changes nothing on the strings the decoder is meant to accept. */
  lemma CheckedAgrees(s: seq<char>)
    requires Numeric(s)
    ensures UintOfChecked(s) == UintOf(s)
  {
  }

  // ---------------------------------------------------------------- decode_uuid

  /** The positions where `decode_uuid` allows a '-'. */
  predicate DashAt(i: nat)
  {
    i == 8 || i == 13 || i == 18 || i == 23
  }

  /** Every character is a hexadecimal digit, or a '-' at one of the allowed positions. */
  predicate UuidChars(s: seq<char>)
  {
    forall i :: 0 <= i < |s| ==> IsDigitIn(s[i], 16) || (s[i] == '-' && DashAt(i))
  }

  /** The values of the hexadecimal digits of s, in order, the dashes skipped. */
  function Nibbles(s: seq<char>): (r: seq<nat>)
    ensures |r| <= |s|
    ensures forall j :: 0 <= j < |r| ==> r[j] < 16
  {
    if s == [] then []
    else
      var c := s[|s| - 1];
      Nibbles(s[..|s| - 1]) + (if IsDigitIn(c, 16) then [DigitValue(c, 16)] else [])
  }

  /** One byte of the packed identifier: byte k holds nibbles 2k and 2k+1, the first one high. */
  function PackedByte(ds: seq<nat>, k: nat): (b: Byte)
    requires forall j :: 0 <= j < |ds| ==> ds[j] < 16
  {
    if 2 * k + 1 < |ds| then ds[2 * k] * 16 + ds[2 * k + 1]
    else if 2 * k < |ds| then ds[2 * k]
    else 0
  }

  /**
   * The 16 bytes the nibbles are packed into: each nibble is shifted into the low end of its
   * byte, so a byte with two nibbles holds the first one high, a byte with one holds it low, and
   * the bytes past the last nibble stay zero.
   */
  function Pack(ds: seq<nat>): (r: seq<Byte>)
    requires forall j :: 0 <= j < |ds| ==> ds[j] < 16
    ensures |r| == 16
  {
    seq(16, k requires 0 <= k < 16 => PackedByte(ds, k))
  }

  /**
   * What `decode_uuid` makes of a string: refused if a character is neither a hexadecimal digit
   * nor a dash at an allowed position, or if there are more than 32 digits; otherwise the
   * digits packed two to a byte.
   */
  function UuidOf(s: seq<char>): (r: Option<seq<Byte>>)
    ensures r.Some? <==> UuidChars(s) && |Nibbles(s)| <= 32
    ensures r.Some? ==> |r.value| == 16
  {
    if UuidChars(s) && |Nibbles(s)| <= 32 then Some(Pack(Nibbles(s))) else None
  }

  /** One more nibble: `bytes[idx >> 1] <<= 4; bytes[idx >> 1] |= d` in 8 bits. */
  lemma PackStep(ds: seq<nat>, d: nat)
    requires forall j :: 0 <= j < |ds| ==> ds[j] < 16
    requires |ds| < 32 && d < 16
    ensures var k := |ds| / 2;
      Pack(ds + [d]) == Pack(ds)[k := (Pack(ds)[k] * 16) % 256 + d]
  {
    var k := |ds| / 2;
    var e := ds + [d];
    forall m | 0 <= m < 16
      ensures Pack(e)[m] == Pack(ds)[k := (Pack(ds)[k] * 16) % 256 + d][m]
    {
      if m == k && |ds| % 2 == 1 {
        assert PackedByte(ds, m) == ds[2 * k];
        assert (ds[2 * k] * 16) % 256 == ds[2 * k] * 16;
      }
    }
  }

  /** The digits of a prefix one character longer. */
  lemma NibblesStep(s: seq<char>, i: nat)
    requires i < |s|
    ensures Nibbles(s[..i + 1]) == Nibbles(s[..i]) + (if IsDigitIn(s[i], 16) then [DigitValue(s[i], 16)] else [])
  {
    assert s[..i + 1][..i] == s[..i];
  }

  /**
   * `decode_uuid`: zero the 16 bytes, then go through the string, refusing a bad character, a
   * dash elsewhere than at 8, 13, 18 or 23, or a 33rd digit, and shifting each digit into the
   * byte `digit_idx / 2`.  On a refusal the bytes written so far stay in `value`.
   */
  method DecodeUuid(str: seq<char>, value: array<Byte>) returns (r: int)
    requires value.Length == 16
    modifies value
    ensures r == 0 || r == 1
    ensures r == 0 <==> UuidOf(str).Some?
    ensures r == 0 ==> value[..] == UuidOf(str).value
  {
    Clear(value);
    var digitIdx := 0;
    var i := 0;
    ghost var ds: seq<nat> := [];
    assert str[..0] == [];
    while i < |str|
      invariant i <= |str|
      invariant forall j :: 0 <= j < i ==> IsDigitIn(str[j], 16) || (str[j] == '-' && DashAt(j))
      invariant ds == Nibbles(str[..i])
      invariant digitIdx == |ds| <= 32
      invariant value[..] == Pack(ds)
    {
      NibblesStep(str, i);
      var c := str[i];
      if !IsDigitIn(c, 16) && c != '-' {
        NotUuid(str, i);
        return 1;
      }
      if c == '-' {
        if !DashAt(i) {
          NotUuid(str, i);
          return 1;
        }
        i := i + 1;
        continue;
      }
      if digitIdx >= 32 {
        TooManyDigits(str, i);
        return 1;
      }
      var d := DigitValue(c, 16);
      ShiftIn(value, digitIdx, d, ds);
      digitIdx, ds := digitIdx + 1, ds + [d];
      i := i + 1;
    }
    assert str[..i] == str;
    return 0;
  }

  /** The `memset` that starts `decode_uuid`. */
  method Clear(value: array<Byte>)
    requires value.Length == 16
    modifies value
    ensures value[..] == Pack([])
  {
    var k := 0;
    while k < 16
      invariant k <= 16
      invariant forall m :: 0 <= m < k ==> value[m] == 0
    {
      value[k] := 0;
      k := k + 1;
    }
  }

  /** `bytes[digit_idx >> 1] <<= 4; bytes[digit_idx >> 1] |= d` on the 8-bit bytes. */
  method ShiftIn(value: array<Byte>, digitIdx: nat, d: nat, ghost ds: seq<nat>)
    requires value.Length == 16 && d < 16
    requires forall j :: 0 <= j < |ds| ==> ds[j] < 16
    requires digitIdx == |ds| < 32 && value[..] == Pack(ds)
    modifies value
    ensures value[..] == Pack(ds + [d])
  {
    PackStep(ds, d);
    value[digitIdx / 2] := (value[digitIdx / 2] * 16) % 256 + d;
  }

  /** A bad character anywhere makes the whole string bad. */
  lemma NotUuid(s: seq<char>, i: nat)
    requires i < |s| && !(IsDigitIn(s[i], 16) || (s[i] == '-' && DashAt(i)))
    ensures UuidOf(s).None?
  {
  }

  /** A 33rd digit makes the whole string bad. */
  lemma TooManyDigits(s: seq<char>, i: nat)
    requires i < |s| && IsDigitIn(s[i], 16) && |Nibbles(s[..i])| >= 32
    ensures UuidOf(s).None?
  {
    NibblesStep(s, i);
    NibblesGrow(s, i + 1, |s|);
    assert s[..|s|] == s;
  }

  /** The digits of a longer prefix are at least as many. */
  lemma {:induction false} NibblesGrow(s: seq<char>, i: nat, j: nat)
    requires i <= j <= |s|
    ensures |Nibbles(s[..i])| <= |Nibbles(s[..j])|
    decreases j - i
  {
    if i < j {
      NibblesStep(s, i);
      NibblesGrow(s, i + 1, j);
    }
  }

  // ---------------------------------------------------------------- the identifier's text

  /** The two lower-case hexadecimal digits of a byte, high first. */
  function HexByte(b: Byte): (r: seq<char>)
    ensures |r| == 2 && IsDigitIn(r[0], 16) && IsDigitIn(r[1], 16)
    ensures DigitValue(r[0], 16) == b / 16 && DigitValue(r[1], 16) == b % 16
  {
    [DigitChar(b / 16), DigitChar(b % 16)]
  }

  /** The 32 hexadecimal digits of the bytes, two per byte, without dashes. */
  function HexOf(bytes: seq<Byte>): (r: seq<char>)
    ensures |r| == 2 * |bytes|
    ensures forall j :: 0 <= j < |r| ==> IsDigitIn(r[j], 16)
  {
    if bytes == [] then [] else HexOf(bytes[..|bytes| - 1]) + HexByte(bytes[|bytes| - 1])
  }

  /** The nibbles of the bytes, high then low for each. */
  function Split(bytes: seq<Byte>): (r: seq<nat>)
    ensures |r| == 2 * |bytes|
    ensures forall j :: 0 <= j < |r| ==> r[j] < 16
    ensures forall k :: 0 <= k < |bytes| ==> r[2 * k] == bytes[k] / 16 && r[2 * k + 1] == bytes[k] % 16
  {
    if bytes == [] then []
    else
      var r := Split(bytes[..|bytes| - 1]) + [bytes[|bytes| - 1] / 16, bytes[|bytes| - 1] % 16];
      assert forall k :: 0 <= k < |bytes| - 1 ==> bytes[..|bytes| - 1][k] == bytes[k];
      r
  }

  /** The digits of the undashed text are the nibbles of the bytes. */
  lemma {:induction false} NibblesOfHex(bytes: seq<Byte>)
    ensures Nibbles(HexOf(bytes)) == Split(bytes)
    decreases |bytes|
  {
    if bytes != [] {
      var front := bytes[..|bytes| - 1];
      var h := HexOf(bytes);
      var pair := HexByte(bytes[|bytes| - 1]);
      NibblesOfHex(front);
      assert h[..|h| - 1] == HexOf(front) + [pair[0]];
      assert h[..|h| - 1][..|h| - 2] == HexOf(front);
    }
  }

  /** Packing the nibbles of 16 bytes gives back the bytes. */
  lemma PackSplit(bytes: seq<Byte>)
    requires |bytes| == 16
    ensures Pack(Split(bytes)) == bytes
  {
    var ds := Split(bytes);
    forall k | 0 <= k < 16
      ensures Pack(ds)[k] == bytes[k]
    {
      assert PackedByte(ds, k) == ds[2 * k] * 16 + ds[2 * k + 1];
    }
  }

  /** The 32 hexadecimal digits of a 16-byte identifier decode to the identifier. */
  lemma UuidRoundTrip(bytes: seq<Byte>)
    requires |bytes| == 16
    ensures UuidOf(HexOf(bytes)) == Some(bytes)
  {
    NibblesOfHex(bytes);
    PackSplit(bytes);
  }

  /** A dash may stand at positions 8, 13, 18 and 23 only: one at 7 is refused. */
  lemma MisplacedDash(bytes: seq<Byte>)
    requires |bytes| == 16
    ensures UuidOf(HexOf(bytes)[..7] + "-" + HexOf(bytes)[7..]).None?
  {
    var s := HexOf(bytes)[..7] + "-" + HexOf(bytes)[7..];
    assert s[7] == '-';
  }
}
