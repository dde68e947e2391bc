/**
 * The kernel-side ANSI terminal device (boot/device/char/ansiterm.c): the UTF-8 decoding of its
 * `write`, which keeps an incomplete trailing sequence for the next call, the bounded parameter
 * collection of its CSI parser, the backspace that skips back over the blank cells a tab left,
 * and the erase a tab performs.
 */
module AnsiTermDevice {
  import opened Common
  import FatBoot

  /** U+FFFD, delivered for every malformed sequence. */
  const REPLACEMENT: nat := 0xFFFD

  /** The size of `utf8_fragment_buf`. */
  const FRAGMENT_SIZE: nat := 6

  /** The number of CSI parameters `escape_seq_args` holds. */
  const MAX_ARGS: nat := 8

  /** The length a lead byte announces: 1 below 0x80, 2 below 0xE0, 3 below 0xF0, 4 below 0xF8, else -1. */
  function LeadLen(b: Byte): (n: int)
    ensures n == -1 || 1 <= n <= 4
    ensures n == 1 <==> b < 0x80
    ensures n == -1 <==> b >= 0xF8
  {
    if b < 0x80 then 1 else if b < 0xE0 then 2 else if b < 0xF0 then 3 else if b < 0xF8 then 4 else -1
  }

  /** The payload bits of a lead byte: all 7, or the low 5, 4 or 3. */
  function LeadBits(b: Byte): (r: nat)
    ensures b < 0x80 ==> r == b
    ensures 0x80 <= b < 0xF8 ==> r < 32
  {
    if b < 0x80 then b else if b < 0xE0 then b % 0x20 else if b < 0xF0 then b % 0x10 else b % 8
  }

  /** 64 to the power k: the place of a six-bit group. */
  function Pow64(k: nat): (r: nat)
    ensures r >= 1
  {
    if k == 0 then 1 else 64 * Pow64(k - 1)
  }

  /** The lead's payload followed by the six low bits of each of s[1..i]. */
  function Payload(s: seq<Byte>, i: nat): nat
    requires 1 <= i <= |s|
  {
    if i == 1 then LeadBits(s[0]) else Payload(s, i - 1) * 64 + s[i - 1] % 64
  }

  /** One decoded character and the number of bytes it used. */
  datatype Unit = Unit(point: nat, size: nat)

  /**
   * The character at the start of `s`, whose lead announces no more bytes than `s` holds. A lead
   * from 0xF8 is one malformed byte; a byte that is not `10xxxxxx` where a continuation is due
   * ends the malformed sequence before it.
   */
  function DecodeOne(s: seq<Byte>): (u: Unit)
    requires |s| >= 1 && LeadLen(s[0]) <= |s|
    ensures 1 <= u.size <= |s| && u.size <= 4
    ensures s[0] < 0x80 ==> u == Unit(s[0], 1)
    ensures LeadLen(s[0]) == -1 ==> u == Unit(REPLACEMENT, 1)
    ensures LeadLen(s[0]) >= 1 ==> forall j :: 1 <= j < u.size ==> FatBoot.IsCont(s[j])
    ensures LeadLen(s[0]) >= 1 && u.size < LeadLen(s[0]) ==> u.point == REPLACEMENT && !FatBoot.IsCont(s[u.size])
    ensures LeadLen(s[0]) >= 1 && u.size == LeadLen(s[0]) ==> u.point == Payload(s, u.size)
  {
    var n := LeadLen(s[0]);
    if n < 1 then Unit(REPLACEMENT, 1)
    else
      var k := FirstBad(s, n, 1);
      if k < n then Unit(REPLACEMENT, k) else Unit(Payload(s, n), n)
  }

  /** The first index from i below n whose byte is not a continuation byte, or n. */
  function FirstBad(s: seq<Byte>, n: nat, i: nat): (k: nat)
    requires 1 <= i <= n <= |s|
    ensures i <= k <= n
    ensures forall j :: i <= j < k ==> FatBoot.IsCont(s[j])
    ensures k < n ==> !FatBoot.IsCont(s[k])
    decreases n - i
  {
    if i == n then n else if !FatBoot.IsCont(s[i]) then i else FirstBad(s, n, i + 1)
  }

  /** The characters a byte stream decodes to, and the incomplete sequence left at its end. */
  datatype Decoded = Decoded(points: seq<nat>, tail: seq<Byte>)

  /** Is `f` empty, or a lead byte with fewer bytes than it announces? */
  predicate Incomplete(f: seq<Byte>)
  {
    |f| == 0 || LeadLen(f[0]) > |f|
  }

  /** Decoding a whole stream: character by character until what is left is incomplete. */
  function Decode(s: seq<Byte>): (d: Decoded)
    ensures Incomplete(d.tail) && |d.tail| < 4
    decreases |s|
  {
    if |s| == 0 then Decoded([], [])
    else if LeadLen(s[0]) > |s| then Decoded([], s)
    else
      var u := DecodeOne(s);
      var rest := Decode(s[u.size..]);
      Decoded([u.point] + rest.points, rest.tail)
  }

  /** What is left undecoded is the end of the stream, and an incomplete stream is all left over. */
  lemma {:induction false} DecodeTail(s: seq<Byte>)
    ensures |Decode(s).tail| <= |s| && Decode(s).tail == s[|s| - |Decode(s).tail|..]
    ensures Incomplete(s) ==> Decode(s) == Decoded([], s)
    decreases |s|
  {
    if |s| > 0 && LeadLen(s[0]) <= |s| {
      var u := DecodeOne(s);
      var r := s[u.size..];
      DecodeTail(r);
      DecodeUnfold(s);
      var k := |Decode(r).tail|;
      assert Decode(s).tail == Decode(r).tail;
      assert r[|r| - k..] == s[|s| - k..];
    }
  }

  /** ASCII passes through unchanged, one character per byte. */
  lemma {:induction false} DecodeAscii(s: seq<Byte>)
    requires forall i :: 0 <= i < |s| ==> s[i] < 0x80
    ensures |Decode(s).points| == |s| && Decode(s).tail == []
    ensures forall i :: 0 <= i < |s| ==> Decode(s).points[i] == s[i]
    decreases |s|
  {
    if |s| > 0 {
      DecodeAscii(s[1..]);
    }
  }

  /**
   * Decoding does not depend on how the stream is cut into writes: decoding `s` and then the
   * left-over tail followed by `t` delivers what decoding `s + t` at once delivers.
   */
  lemma {:induction false} DecodeChunks(s: seq<Byte>, t: seq<Byte>)
    ensures var d := Decode(s); var e := Decode(d.tail + t);
      Decode(s + t) == Decoded(d.points + e.points, e.tail)
    decreases |s|
  {
    if |s| == 0 {
      assert s + t == t;
    } else if LeadLen(s[0]) > |s| {
    } else {
      var st := s + t;
      var u := DecodeOne(s);
      assert st[0] == s[0];
      DecodeOneLocal(s, t);
      assert st[u.size..] == s[u.size..] + t;
      DecodeChunks(s[u.size..], t);
      DecodeUnfold(s);
      DecodeUnfold(st);
    }
  }

  /** Decoding a stream whose first sequence is complete: its character, then the rest. */
  lemma DecodeUnfold(c: seq<Byte>)
    requires |c| >= 1 && LeadLen(c[0]) <= |c|
    ensures var u := DecodeOne(c);
      Decode(c) == Decoded([u.point] + Decode(c[u.size..]).points, Decode(c[u.size..]).tail)
  {
  }

  /** A complete character decodes the same whatever follows it. */
  lemma DecodeOneLocal(s: seq<Byte>, t: seq<Byte>)
    requires |s| >= 1 && LeadLen(s[0]) <= |s|
    ensures DecodeOne(s + t) == DecodeOne(s)
  {
    var n := LeadLen(s[0]);
    if n >= 1 {
      FirstBadLocal(s, t, n, 1);
      PayloadLocal(s, t, n);
    }
  }

  lemma {:induction false} FirstBadLocal(s: seq<Byte>, t: seq<Byte>, n: nat, i: nat)
    requires 1 <= i <= n <= |s|
    ensures FirstBad(s + t, n, i) == FirstBad(s, n, i)
    decreases n - i
  {
    if i < n && FatBoot.IsCont(s[i]) {
      FirstBadLocal(s, t, n, i + 1);
    }
  }

  lemma {:induction false} PayloadLocal(s: seq<Byte>, t: seq<Byte>, i: nat)
    requires 1 <= i <= |s|
    ensures Payload(s + t, i) == Payload(s, i)
  {
    if i > 1 {
      PayloadLocal(s, t, i - 1);
    }
  }

  /** What the FAT driver's `ucs2_to_utf8` encodes, this terminal decodes back to the same character. */
  lemma DecodesFatUtf8(ch: nat)
    requires ch < 0x1_0000
    ensures Decode(FatBoot.Utf8(ch)) == Decoded([ch], [])
  {
    var s := FatBoot.Utf8(ch);
    if ch < 0x80 {
      assert s[1..] == [];
    } else if ch < 0x800 {
      DecodesTwoBytes(ch);
    } else {
      DecodesThreeBytes(ch);
    }
  }

  lemma DecodesTwoBytes(ch: nat)
    requires 0x80 <= ch < 0x800
    ensures Decode(FatBoot.Utf8(ch)) == Decoded([ch], [])
  {
    var s := FatBoot.Utf8(ch);
    var a, b := ch / 64, ch % 64;
    assert s == [0xC0 + a, 0x80 + b];
    assert LeadBits(s[0]) == a;
    assert FirstBad(s, 2, 1) == 2;
    assert Payload(s, 2) == a * 64 + b;
    assert DecodeOne(s) == Unit(ch, 2);
    assert s[2..] == [];
    DecodeUnfold(s);
  }

  lemma DecodesThreeBytes(ch: nat)
    requires 0x800 <= ch < 0x1_0000
    ensures Decode(FatBoot.Utf8(ch)) == Decoded([ch], [])
  {
    var s := FatBoot.Utf8(ch);
    var a, b, c := ch / 4096, (ch / 64) % 64, ch % 64;
    assert s == [0xE0 + a, 0x80 + b, 0x80 + c];
    assert LeadBits(s[0]) == a;
    assert FirstBad(s, 3, 1) == 3;
    assert Payload(s, 2) == a * 64 + b;
    assert Payload(s, 3) == (a * 64 + b) * 64 + c;
    assert ch == (a * 64 + b) * 64 + c;
    assert DecodeOne(s) == Unit(ch, 3);
    assert s[3..] == [];
    DecodeUnfold(s);
  }

  /**
   * `write` as written, from the fragment `frag` kept by the previous call: each pass moves `buf`
   * on by the length used less the fragment's length. When a malformed sequence uses fewer bytes
   * than the fragment held, `buf` moves before the start of the input and the next pass reads
   * there: no defined result (None).
   */
  function WriteAsWritten(frag: seq<Byte>, buf: seq<Byte>): (r: Option<Decoded>)
    decreases |frag| + |buf|
  {
    if buf == [] then Some(Decoded([], frag))
    else
      var c := frag + buf;
      if LeadLen(c[0]) > |c| then Some(Decoded([], c))
      else
        var u := DecodeOne(c);
        if u.size < |frag| then None
        else
          match WriteAsWritten([], buf[u.size - |frag|..])
          case None => None
          case Some(rest) => Some(Decoded([u.point] + rest.points, rest.tail))
  }

  /** With no fragment kept, the written loop decodes exactly as Decode does. */
  lemma {:induction false} WriteFresh(buf: seq<Byte>)
    ensures WriteAsWritten([], buf) == Some(Decode(buf))
    decreases |buf|
  {
    assert [] + buf == buf;
    if buf != [] && LeadLen(buf[0]) <= |buf| {
      var u := DecodeOne(buf);
      WriteFresh(buf[u.size..]);
      DecodeUnfold(buf);
    } else if buf != [] {
      DecodeTail(buf);
    }
  }

  /**
   * The written loop agrees with decoding the fragment followed by `buf`, except exactly when the
   * first sequence is complete but uses fewer bytes than the fragment held.
   */
  lemma WriteAgrees(frag: seq<Byte>, buf: seq<Byte>)
    requires Incomplete(frag)
    ensures WriteAsWritten(frag, buf).None? <==>
      (buf != [] && LeadLen((frag + buf)[0]) <= |frag + buf| && DecodeOne(frag + buf).size < |frag|)
    ensures WriteAsWritten(frag, buf).Some? ==> WriteAsWritten(frag, buf).value == Decode(frag + buf)
  {
    var c := frag + buf;
    if buf == [] {
      assert c == frag;
      DecodeTail(frag);
      assert WriteAsWritten(frag, buf) == Some(Decoded([], frag));
    } else if LeadLen(c[0]) > |c| {
      DecodeTail(c);
      assert WriteAsWritten(frag, buf) == Some(Decoded([], c));
    } else if DecodeOne(c).size >= |frag| {
      WriteAgreesPass(frag, buf);
    } else {
      assert WriteAsWritten(frag, buf) == None;
    }
  }

  /** WriteAgrees for a pass that decodes a character and does not rewind. */
  lemma WriteAgreesPass(frag: seq<Byte>, buf: seq<Byte>)
    requires buf != [] && LeadLen((frag + buf)[0]) <= |frag + buf| && DecodeOne(frag + buf).size >= |frag|
    ensures WriteAsWritten(frag, buf) == Some(Decode(frag + buf))
  {
    var c := frag + buf;
    var u := DecodeOne(c);
    var rest := buf[u.size - |frag|..];
    assert c[u.size..] == rest;
    WriteFresh(rest);
    DecodeUnfold(c);
    assert WriteAsWritten(frag, buf) == Some(Decoded([u.point] + Decode(rest).points, Decode(rest).tail));
  }

  /**
   * As written, the writes E2, then 41, then 42 leave E2 41 in the fragment, after which the
   * malformed sequence uses one byte and `buf` moves back by one, before the input. Decoded as a
   * stream the three bytes are U+FFFD, 'A', 'B'.
   */
  lemma FragmentRewinds()
    ensures WriteAsWritten([], [0xE2]) == Some(Decoded([], [0xE2]))
    ensures WriteAsWritten([0xE2], [0x41]) == Some(Decoded([], [0xE2, 0x41]))
    ensures WriteAsWritten([0xE2, 0x41], [0x42]) == None
    ensures Decode([0xE2, 0x41, 0x42]) == Decoded([REPLACEMENT, 0x41, 0x42], [])
  {
    assert [0xE2, 0x41] + [0x42] == [0xE2, 0x41, 0x42];
    ShortMalformed();
    assert [] + [0xE2] == [0xE2] && [0xE2] + [0x41] == [0xE2, 0x41];
    ShortMalformedStream();
  }

  /** E2 41 42 read as one stream: U+FFFD, then 'A' and 'B'. */
  lemma ShortMalformedStream()
    ensures Decode([0xE2, 0x41, 0x42]) == Decoded([REPLACEMENT, 0x41, 0x42], [])
  {
    var s: seq<Byte> := [0xE2, 0x41, 0x42];
    ShortMalformed();
    var r: seq<Byte> := [0x41, 0x42];
    assert s[1..] == r;
    DecodeAscii(r);
    assert Decode(r) == Decoded([0x41, 0x42], []);
    DecodeUnfold(s);
  }

  /** E2 41 42: the lead announces three bytes, the second is not a continuation, so one byte is used. */
  lemma ShortMalformed()
    ensures DecodeOne([0xE2, 0x41, 0x42]) == Unit(REPLACEMENT, 1)
  {
    assert FirstBad([0xE2, 0x41, 0x42], 3, 1) == 1;
  }

  /** The CSI parameters collected so far. */
  datatype Params = Params(args: seq<int>, count: nat, numberInput: bool)

  /** At most eight parameters in eight slots, and a number read only inside one. */
  predicate ParamsOk(p: Params)
  {
    |p.args| == MAX_ARGS && p.count <= MAX_ARGS && (p.numberInput ==> p.count >= 1)
  }

  predicate IsParamByte(ch: Byte)
  {
    '0' as int <= ch <= '9' as int || ch == '?' as int || ch == ';' as int || ch == ':' as int
  }

  /**
   * The parameter bytes of `handle_csi` as written: '?' adds a parameter -'?', a digit extends
   * the current parameter or opens a new one, ';' and ':' close the current one. Both '?' and
   * digits are dropped once eight parameters exist, including digits of the eighth.
   */
  function ParamAsWritten(p: Params, ch: Byte): (r: Params)
    requires ParamsOk(p) && IsParamByte(ch)
    ensures ParamsOk(r)
  {
    if ch == ';' as int || ch == ':' as int then p.(numberInput := false)
    else if p.count >= MAX_ARGS then p
    else if ch == '?' as int then p.(args := p.args[p.count := -('?' as int)], count := p.count + 1)
    else
      var count := if p.numberInput then p.count else p.count + 1;
      p.(count := count, numberInput := true, args := p.args[count - 1 := p.args[count - 1] * 10 + (ch - '0' as int)])
  }

  /** The parameter bytes with the bound applied only to opening a ninth parameter. */
  function Param(p: Params, ch: Byte): (r: Params)
    requires ParamsOk(p) && IsParamByte(ch)
    ensures ParamsOk(r)
    ensures '0' as int <= ch <= '9' as int && p.numberInput ==>
      r == p.(args := p.args[p.count - 1 := p.args[p.count - 1] * 10 + (ch - '0' as int)])
  {
    if ch == ';' as int || ch == ':' as int then p.(numberInput := false)
    else if ch == '?' as int then
      if p.count >= MAX_ARGS then p else p.(args := p.args[p.count := -('?' as int)], count := p.count + 1)
    else if !p.numberInput && p.count >= MAX_ARGS then p
    else
      var count := if p.numberInput then p.count else p.count + 1;
      p.(count := count, numberInput := true, args := p.args[count - 1 := p.args[count - 1] * 10 + (ch - '0' as int)])
  }

  /** Below eight parameters the bound is not reached and the two agree. */
  lemma ParamAgrees(p: Params, ch: Byte)
    requires ParamsOk(p) && IsParamByte(ch) && p.count < MAX_ARGS
    ensures Param(p, ch) == ParamAsWritten(p, ch)
  {
  }

  /** As written, the eighth parameter of `1;2;3;4;5;6;7;89` keeps only its first digit. */
  lemma EighthParamTruncated(p: Params)
    requires p == Params([1, 2, 3, 4, 5, 6, 7, 0], 7, false)
    ensures ParamAsWritten(ParamAsWritten(p, '8' as int), '9' as int).args[7] == 8
    ensures Param(Param(p, '8' as int), '9' as int).args[7] == 89
  {
  }

  /** `(v) & ~7` for v >= 0: the tab stop at or before column v. */
  function TabStart(v: nat): (r: nat)
    ensures r <= v < r + 8 && r % 8 == 0
  {
    v / 8 * 8
  }

  /** `((x / 8) + 1) * 8`: the next tab stop after column x. */
  function NextTab(x: nat): (r: nat)
    ensures x < r <= x + 8 && r % 8 == 0
  {
    (x / 8 + 1) * 8
  }

  /** The columns a tab erases on the cursor's row, as written: up to and including the next tab stop. */
  function TabEraseAsWritten(x: nat): (r: (nat, nat))
    ensures r.0 == x && x < r.1 <= x + 8 && r.1 % 8 == 0
  {
    (x, NextTab(x))
  }

  /** As written, a tab at column 75 of an 80-column row erases column 80, one past the row's end. */
  lemma TabErasePastRow()
    ensures TabEraseAsWritten(75).1 == 80
  {
  }

  /** The columns a tab erases: from the cursor up to, not including, the next tab stop, within the row. */
  function TabErase(x: nat, width: nat): (r: (nat, int))
    requires x < width
    ensures r.0 == x && x <= r.1 < width
    ensures r.1 == NextTab(x) - 1 || r.1 == width - 1
    ensures r.1 < NextTab(x)
  {
    (x, Min(NextTab(x), width) - 1)
  }

  function Min(a: int, b: int): int { if a < b then a else b }

  /**
   * Against the intended erase, the written one starts at the same column and ends one column
   * further when the tab stop lies inside the row, and at or past the row's end otherwise.
   */
  lemma TabEraseOverreach(x: nat, width: nat)
    requires x < width
    ensures TabEraseAsWritten(x).0 == TabErase(x, width).0
    ensures NextTab(x) <= width ==> TabEraseAsWritten(x).1 == TabErase(x, width).1 + 1
    ensures NextTab(x) > width ==> TabEraseAsWritten(x).1 > width && TabErase(x, width).1 == width - 1
  {
  }

  /**
   * `console_backspace` on the cursor's row of cell code points (0 is an empty cell): at column 0
   * it fails; otherwise the cursor goes to the previous cell when that holds a character, else
   * back over the empty cells, stopping after the nearest character or at the tab stop.
   */
  method Backspace(row: seq<nat>, x: int) returns (status: int, newX: int)
    requires x <= |row|
    ensures x < 1 ==> status == 1 && newX == x
    ensures x >= 1 ==> status == 0 && TabStart(x - 1) <= newX <= x - 1
    ensures x >= 1 && row[x - 1] != 0 ==> newX == x - 1
    ensures x >= 1 && row[x - 1] == 0 ==>
      (forall k :: newX <= k < x ==> row[k] == 0) && (newX == TabStart(x - 1) || row[newX - 1] != 0)
  {
    if x < 1 {
      return 1, x;
    }
    if row[x - 1] != 0 {
      return 0, x - 1;
    }
    var stop := TabStart(x - 1);
    var j := x - 2;
    while j >= stop
      invariant stop - 1 <= j <= x - 2
      invariant forall k :: j < k < x ==> row[k] == 0
    {
      if row[j] != 0 {
        return 0, j + 1;
      }
      j := j - 1;
    }
    return 0, stop;
  }

  /** The parts of `struct ansiterm_data` that `write` and the CSI parameter bytes update. */
  class Console {
    const fragment: array<Byte>
    var fragmentLen: int
    const args: array<int>
    var argCount: nat
    var numberInput: bool
    /** The characters handed to `put_char`, in order. */
    var delivered: seq<nat>

    function Pending(): seq<Byte>
      reads this, fragment
      requires 0 <= fragmentLen <= fragment.Length
    {
      fragment[..fragmentLen]
    }

    function CsiParams(): Params
      reads this, args
    {
      Params(args[..], argCount, numberInput)
    }

    predicate Valid()
      reads this, fragment, args
    {
      fragment.Length == FRAGMENT_SIZE && 0 <= fragmentLen < 4 && Incomplete(Pending()) &&
      ParamsOk(CsiParams()) && fragment as object != args
    }

    /** The state `probe` sets up: no fragment, no parameters, nothing delivered. */
    constructor ()
      ensures Valid() && Pending() == [] && CsiParams() == Params([0, 0, 0, 0, 0, 0, 0, 0], 0, false)
      ensures delivered == [] && fresh(fragment) && fresh(args)
    {
      fragment := new Byte[FRAGMENT_SIZE](_ => 0);
      fragmentLen := 0;
      args := new int[MAX_ARGS](_ => 0);
      argCount := 0;
      numberInput := false;
      delivered := [];
      new;
      assert args[..] == [0, 0, 0, 0, 0, 0, 0, 0];
    }

    /** `get_seq_char`: byte `idx` of the fragment followed by the unread part of `buf`. */
    method SeqChar(buf: seq<Byte>, p: nat, idx: nat) returns (b: Byte)
      requires 0 <= fragmentLen <= fragment.Length && p <= |buf| && idx < fragmentLen + |buf| - p
      ensures b == (Pending() + buf[p..])[idx]
    {
      if idx < fragmentLen {
        b := fragment[idx];
      } else {
        b := buf[p + idx - fragmentLen];
      }
    }

    /** The inner loop of `write`: the lead byte, then its continuation bytes until one is malformed. */
    method NextUnit(buf: seq<Byte>, p: nat) returns (u: Unit)
      requires 0 <= fragmentLen <= fragment.Length && p <= |buf|
      requires fragmentLen + |buf| - p >= 1
      requires LeadLen((Pending() + buf[p..])[0]) <= fragmentLen + |buf| - p
      ensures u == DecodeOne(Pending() + buf[p..])
    {
      ghost var c := Pending() + buf[p..];
      var lead := SeqChar(buf, p, 0);
      var n := LeadLen(lead);
      if n < 1 {
        return Unit(REPLACEMENT, 1);
      }
      var wch := LeadBits(lead) * Pow64(n - 1);
      var i := 1;
      while i < n
        invariant 1 <= i <= n
        invariant FirstBad(c, n, 1) == FirstBad(c, n, i)
        invariant wch == Payload(c, i) * Pow64(n - i)
      {
        var b := SeqChar(buf, p, i);
        if !FatBoot.IsCont(b) {
          return Unit(REPLACEMENT, i);
        }
        PlaceGroup(c, n, i);
        // The group's bits are disjoint from those already set, so `|=` adds them.
        wch := wch + (b % 64) * Pow64(n - i - 1);
        i := i + 1;
      }
      return Unit(wch, n);
    }

    /** `write`: decode the fragment followed by `buf`, keep an incomplete end, and return the length. */
    method Write(buf: seq<Byte>) returns (written: int)
      requires Valid()
      modifies this`fragmentLen, this`delivered, fragment
      ensures Valid() && written == |buf|
      ensures delivered == old(delivered) + Decode(old(Pending()) + buf).points
      ensures Pending() == Decode(old(Pending()) + buf).tail
      ensures CsiParams() == old(CsiParams())
    {
      assert buf[0..] == buf;
      ghost var all := Decode(old(Pending()) + buf);
      assert Stream(buf, 0) == old(Pending()) + buf;
      written := Drain(buf, delivered, all);
      assert Stream(buf, written) == Pending();
      Settle(old(delivered), all, delivered, Pending());
    }

    /** The loop of `write`, pass after pass until `buf` is used up. */
    method Drain(buf: seq<Byte>, ghost before: seq<nat>, ghost all: Decoded) returns (p: nat)
      requires Decoding(buf, 0, before, all)
      modifies this`fragmentLen, this`delivered, fragment
      ensures Decoding(buf, p, before, all) && p == |buf|
    {
      p := 0;
      while p < |buf|
        invariant Decoding(buf, p, before, all)
        decreases |buf| - p + fragmentLen
      {
        var stashed;
        p, stashed := Pass(buf, p, before, all);
        if stashed {
          break;
        }
      }
    }

    /**
     * The loop invariant of `write`: what has been delivered, followed by what the rest of the
     * stream decodes to, is what the whole stream decodes to.
     */
    ghost predicate Decoding(buf: seq<Byte>, p: nat, before: seq<nat>, all: Decoded)
      reads this, fragment
    {
      p <= |buf| && 0 <= fragmentLen < 4 && fragment.Length == FRAGMENT_SIZE &&
      before + all.points == delivered + Decode(Stream(buf, p)).points &&
      all.tail == Decode(Stream(buf, p)).tail &&
      (p == |buf| ==> Incomplete(Pending()))
    }

    /**
     * One pass of `write`'s loop: keep the rest in the fragment when the lead's sequence is not
     * all there, else decode one character.
     */
    method Pass(buf: seq<Byte>, p: nat, ghost before: seq<nat>, ghost all: Decoded) returns (np: nat, stashed: bool)
      requires Decoding(buf, p, before, all) && p < |buf|
      modifies this`fragmentLen, this`delivered, fragment
      ensures Decoding(buf, np, before, all)
      ensures p < np <= |buf| || np == p
      ensures stashed ==> np == |buf|
      ensures !stashed ==> |buf| - np + fragmentLen < |buf| - p + old(fragmentLen)
    {
      ghost var c := Stream(buf, p);
      var lead := SeqChar(buf, p, 0);
      if fragmentLen + (|buf| - p) < LeadLen(lead) {
        Stash(buf, p);
        assert Stream(buf, |buf|) == Pending() == c;
        return |buf|, true;
      }
      ghost var u := DecodeOne(c);
      Advance(before, all, delivered, c);
      np := Consume(buf, p);
      stashed := false;
      assert Stream(buf, np) == c[u.size..];
    }

    /** The bytes still to decode: the fragment followed by the unread part of `buf`. */
    ghost function Stream(buf: seq<Byte>, p: nat): seq<Byte>
      reads this, fragment
      requires 0 <= fragmentLen <= fragment.Length && p <= |buf|
    {
      Pending() + buf[p..]
    }

    /**
     * One pass of `write`'s loop once the lead's sequence is complete: decode a character, hand it
     * to `put_char`, and drop its bytes from the fragment and then from `buf`.
     */
    method Consume(buf: seq<Byte>, p: nat) returns (np: nat)
      requires fragment.Length == FRAGMENT_SIZE && 0 <= fragmentLen < 4 && p < |buf|
      requires LeadLen(Stream(buf, p)[0]) <= |Stream(buf, p)|
      modifies this`fragmentLen, this`delivered, fragment
      ensures p <= np <= |buf| && 0 <= fragmentLen < 4
      ensures delivered == old(delivered) + [DecodeOne(old(Stream(buf, p))).point]
      ensures Stream(buf, np) == old(Stream(buf, p))[DecodeOne(old(Stream(buf, p))).size..]
      ensures np == |buf| ==> fragmentLen == 0
    {
      ghost var c := Stream(buf, p);
      ghost var f := Pending();
      var u := NextUnit(buf, p);
      delivered := delivered + [u.point];
      if u.size < fragmentLen {
        DropInFragment(f, buf[p..], u.size);
        Shift(u.size);
        np := p;
      } else {
        np := p + u.size - fragmentLen;
        DropPastFragment(f, buf, p, u.size);
        fragmentLen := 0;
      }
    }

    /** The `memcpy` that appends the rest of `buf` to the fragment. */
    method Stash(buf: seq<Byte>, p: nat)
      requires 0 <= fragmentLen < 4 && fragment.Length == FRAGMENT_SIZE && p < |buf|
      requires fragmentLen + |buf| - p < LeadLen(Stream(buf, p)[0])
      modifies this`fragmentLen, fragment
      ensures fragmentLen == old(fragmentLen) + |buf| - p < 4
      ensures Pending() == old(Stream(buf, p)) && Incomplete(Pending())
    {
      var j := 0;
      while j < |buf| - p
        modifies fragment
        invariant 0 <= j <= |buf| - p
        invariant fragment[..fragmentLen] == old(Pending())
        invariant forall k :: fragmentLen <= k < fragmentLen + j ==> fragment[k] == buf[p + (k - fragmentLen)]
      {
        fragment[fragmentLen + j] := buf[p + j];
        j := j + 1;
      }
      fragmentLen := fragmentLen + |buf| - p;
      assert Pending() == old(Stream(buf, p));
    }

    /** Drop the first `k` bytes of the fragment, keeping the rest for the next pass. */
    method Shift(k: nat)
      requires 0 < k < fragmentLen <= fragment.Length
      modifies this`fragmentLen, fragment
      ensures fragmentLen == old(fragmentLen) - k
      ensures Pending() == old(Pending())[k..]
    {
      var j := 0;
      while j < fragmentLen - k
        modifies fragment
        invariant 0 <= j <= fragmentLen - k
        invariant forall i :: 0 <= i < j ==> fragment[i] == old(fragment[i + k])
        invariant forall i :: j <= i < fragment.Length ==> fragment[i] == old(fragment[i])
      {
        fragment[j] := fragment[j + k];
        j := j + 1;
      }
      fragmentLen := fragmentLen - k;
    }

    /** The parameter bytes of `handle_csi` as written: the eighth parameter stops at its first digit. */
    method ParameterAsWritten(ch: Byte)
      requires Valid() && IsParamByte(ch)
      modifies this`argCount, this`numberInput, args
      ensures Valid() && CsiParams() == ParamAsWritten(old(CsiParams()), ch)
    {
      if ch == ';' as int || ch == ':' as int {
        numberInput := false;
      } else if argCount >= MAX_ARGS {
      } else if ch == '?' as int {
        args[argCount] := -('?' as int);
        argCount := argCount + 1;
      } else {
        if !numberInput {
          argCount := argCount + 1;
        }
        numberInput := true;
        args[argCount - 1] := args[argCount - 1] * 10 + (ch - '0' as int);
      }
    }

    /** The parameter bytes of `handle_csi`, with the bound applied only to opening a ninth parameter. */
    method Parameter(ch: Byte)
      requires Valid() && IsParamByte(ch)
      modifies this`argCount, this`numberInput, args
      ensures Valid() && CsiParams() == Param(old(CsiParams()), ch)
    {
      if ch == ';' as int || ch == ':' as int {
        numberInput := false;
      } else if ch == '?' as int {
        if argCount < MAX_ARGS {
          args[argCount] := -('?' as int);
          argCount := argCount + 1;
        }
      } else if numberInput || argCount < MAX_ARGS {
        if !numberInput {
          argCount := argCount + 1;
        }
        numberInput := true;
        args[argCount - 1] := args[argCount - 1] * 10 + (ch - '0' as int);
      }
    }
  }

  /** Once what is left is incomplete, it decodes to nothing and is the whole tail. */
  lemma Settle(before: seq<nat>, all: Decoded, delivered: seq<nat>, pending: seq<Byte>)
    requires before + all.points == delivered + Decode(pending).points && all.tail == Decode(pending).tail
    requires Incomplete(pending)
    ensures delivered == before + all.points && pending == all.tail
  {
    DecodeTail(pending);
  }

  /** Decoding one more character moves it from what is left to what is delivered. */
  lemma Advance(before: seq<nat>, all: Decoded, delivered: seq<nat>, c: seq<Byte>)
    requires before + all.points == delivered + Decode(c).points && all.tail == Decode(c).tail
    requires |c| >= 1 && LeadLen(c[0]) <= |c|
    ensures var u := DecodeOne(c);
      before + all.points == (delivered + [u.point]) + Decode(c[u.size..]).points && all.tail == Decode(c[u.size..]).tail
  {
    var u := DecodeOne(c);
    var r := Decode(c[u.size..]);
    DecodeUnfold(c);
    assert Decode(c).points == [u.point] + r.points;
    Assoc(delivered, [u.point], r.points);
  }

  lemma Assoc(a: seq<nat>, b: seq<nat>, c: seq<nat>)
    ensures a + (b + c) == (a + b) + c
  {
  }

  /** Dropping fewer bytes than a fragment holds from the fragment followed by a buffer. */
  lemma DropInFragment(f: seq<Byte>, b: seq<Byte>, k: nat)
    requires k < |f|
    ensures (f + b)[k..] == f[k..] + b
  {
  }

  /** Dropping at least the fragment from the fragment followed by the unread part of a buffer. */
  lemma DropPastFragment(f: seq<Byte>, buf: seq<Byte>, p: nat, k: nat)
    requires p <= |buf| && |f| <= k <= |f| + |buf| - p
    ensures (f + buf[p..])[k..] == [] + buf[p + k - |f|..]
  {
    assert (f + buf[p..])[k..] == buf[p + k - |f|..];
  }

  lemma MulDistributes(x: int, y: int, q: int)
    ensures (x + y) * q == x * q + y * q
  {
  }

  /** The next group's place value: adding it at its place extends the payload by one group. */
  lemma PlaceGroup(c: seq<Byte>, n: nat, i: nat)
    requires 1 <= i < n <= |c|
    ensures Payload(c, i + 1) * Pow64(n - i - 1) == Payload(c, i) * Pow64(n - i) + (c[i] % 64) * Pow64(n - i - 1)
  {
    var q := Pow64(n - i - 1);
    var a, b := Payload(c, i), c[i] % 64;
    assert Pow64(n - i) == 64 * q;
    assert Payload(c, i + 1) == a * 64 + b;
    MulDistributes(a * 64, b, q);
    assert a * 64 * q == a * (64 * q);
  }
}
