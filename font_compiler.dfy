/**
 * The hex-to-bfnt font compiler (tools/hex2bfn/hex2bfn.py).
 *
 * A `.hex` font is a list of `codepoint:hexbytes` lines.  The compiler makes two passes over
 * the lines: the first finds the largest codepoint, the second writes the 16-byte header, then
 * for every line whose glyph text is not empty appends a glyph record (a 4-byte little-endian
 * "full width" flag followed by the glyph bytes) and back-patches the record's offset into the
 * offset table slot 16 + 4 * codepoint.
 */
module FontCompiler {
  import opened Common

  /**
   * One input line after Python has split it at ':' and decoded both halves:
   * `glyph` is None when the text after ':' is empty (the line is skipped) and otherwise the
   * bytes that `bytes.fromhex` produced from it.
   */
  datatype HexLine = HexLine(codepoint: nat, glyph: Option<seq<Byte>>)

  const HEADER_SIZE: nat := 16
  /** "bfnt" in ASCII. */
  const SIGNATURE: seq<Byte> := [0x62, 0x66, 0x6E, 0x74]

  function Max(a: nat, b: nat): nat { if a < b then b else a }

  /** The first pass: the largest codepoint of every line, skipped lines included (0 if none). */
  function MaxCodepoint(lines: seq<HexLine>): (m: nat)
    ensures forall i :: 0 <= i < |lines| ==> lines[i].codepoint <= m
    ensures m == 0 || exists i :: 0 <= i < |lines| && lines[i].codepoint == m
  {
    if lines == [] then 0
    else
      var init := lines[..|lines| - 1];
      assert forall i :: 0 <= i < |init| ==> init[i] == lines[i];
      Max(MaxCodepoint(init), lines[|lines| - 1].codepoint)
  }

  /** The file header: signature, largest codepoint, offset of the offset table (16), 4 zero bytes. */
  function Header(maxCodepoint: nat): (h: seq<Byte>)
    requires maxCodepoint < U32_LIMIT
    ensures |h| == HEADER_SIZE
  {
    SIGNATURE + LE32(maxCodepoint) + LE32(HEADER_SIZE) + [0, 0, 0, 0]
  }

  /** Where the first glyph record goes: just past the offset table of maxCodepoint + 1 slots. */
  function RecordsStart(maxCodepoint: nat): nat
  {
    HEADER_SIZE + 4 * (maxCodepoint + 1)
  }

  /** Position of the offset table slot of a codepoint. */
  function SlotPos(codepoint: nat): nat
  {
    HEADER_SIZE + 4 * codepoint
  }

  /** A glyph record: flag word 1 iff the glyph is exactly 32 bytes (full width), then the glyph. */
  function Record(glyph: seq<Byte>): (r: seq<Byte>)
    ensures |r| == 4 + |glyph|
  {
    LE32(if |glyph| == 32 then 1 else 0) + glyph
  }

  /** Bytes a line appends to the record area (nothing for a skipped line). */
  function RecordSize(line: HexLine): nat
  {
    if line.glyph.Some? then 4 + |line.glyph.value| else 0
  }

  /** The record cursor (`glyph_header_offset`) before line k is processed. */
  function Offset(lines: seq<HexLine>, k: nat): (off: nat)
    requires k <= |lines|
    ensures off >= RecordsStart(MaxCodepoint(lines))
  {
    if k == 0 then RecordsStart(MaxCodepoint(lines))
    else Offset(lines, k - 1) + RecordSize(lines[k - 1])
  }

  /** Whether one of the first k lines produced a record. */
  predicate HasRecordBefore(lines: seq<HexLine>, k: nat)
    requires k <= |lines|
  {
    k > 0 && (lines[k - 1].glyph.Some? || HasRecordBefore(lines, k - 1))
  }

  /** Every record among the first k lines starts at an offset that fits the 4-byte slot. */
  predicate OffsetsFit(lines: seq<HexLine>, k: nat)
    requires k <= |lines|
  {
    k == 0 || (OffsetsFit(lines, k - 1) && (lines[k - 1].glyph.Some? ==> Offset(lines, k - 1) < U32_LIMIT))
  }

  lemma {:induction false} OffsetsFitAll(lines: seq<HexLine>, k: nat)
    requires k <= |lines|
    ensures OffsetsFit(lines, k) <==>
      forall j :: 0 <= j < k && lines[j].glyph.Some? ==> Offset(lines, j) < U32_LIMIT
  {
    if k > 0 {
      OffsetsFitAll(lines, k - 1);
    }
  }

  /**
   * The first k lines can be written: the largest codepoint fits the header field and every
   * record offset so far fits its slot (`int.to_bytes(4, ...)` raises OverflowError otherwise).
   */
  predicate WritableUpTo(lines: seq<HexLine>, k: nat)
  {
    k <= |lines| && MaxCodepoint(lines) < U32_LIMIT && OffsetsFit(lines, k)
  }

  /** The inputs the script encodes in full. */
  predicate Fits(lines: seq<HexLine>)
  {
    WritableUpTo(lines, |lines|)
  }

  lemma {:induction false} OffsetMonotone(lines: seq<HexLine>, j: nat, k: nat)
    requires j <= k <= |lines|
    ensures Offset(lines, j) <= Offset(lines, k)
    decreases k
  {
    if j < k {
      OffsetMonotone(lines, j, k - 1);
    }
  }

  lemma OffsetNext(lines: seq<HexLine>, j: nat)
    requires j < |lines|
    ensures Offset(lines, j + 1) == Offset(lines, j) + RecordSize(lines[j])
  {
  }

  /**
   * The file after writing b at pos: a seek past the end zero-fills the gap, and bytes after the
   * written range are kept.
   */
  function WriteAt(f: seq<Byte>, pos: nat, b: seq<Byte>): (r: seq<Byte>)
    requires |b| > 0
    ensures |r| == Max(|f|, pos + |b|)
  {
    seq(Max(|f|, pos + |b|), i requires 0 <= i =>
      if pos <= i < pos + |b| then b[i - pos] else if i < |f| then f[i] else 0)
  }

  /** Every byte of a write: the new bytes inside the range, the old or zero-filled ones outside. */
  lemma WriteAtBytes(f: seq<Byte>, pos: nat, b: seq<Byte>)
    requires |b| > 0
    ensures forall i :: 0 <= i < |WriteAt(f, pos, b)| ==>
      WriteAt(f, pos, b)[i] == (if pos <= i < pos + |b| then b[i - pos] else if i < |f| then f[i] else 0)
  {
  }

  /** One iteration of the second pass, with the record cursor at `cursor`. */
  function Step(f: seq<Byte>, line: HexLine, cursor: nat): seq<Byte>
    requires line.glyph.Some? ==> cursor < U32_LIMIT
  {
    match line.glyph
    case None => f
    case Some(g) => WriteAt(WriteAt(f, cursor, Record(g)), SlotPos(line.codepoint), LE32(cursor))
  }

  /** A record-producing step extends the file to the end of the new record. */
  lemma StepLength(f: seq<Byte>, line: HexLine, cursor: nat, m: nat)
    requires line.glyph.Some? && line.codepoint <= m
    requires RecordsStart(m) <= cursor < U32_LIMIT && |f| <= cursor
    ensures |Step(f, line, cursor)| == cursor + 4 + |line.glyph.value|
  {
  }

  /**
   * Each byte after a record-producing step: the record at the cursor, the new offset in the
   * codepoint's slot (which lies before the record area), and otherwise the old or zero-filled byte.
   */
  lemma StepByte(f: seq<Byte>, line: HexLine, cursor: nat, m: nat, i: nat)
    requires line.glyph.Some? && line.codepoint <= m
    requires RecordsStart(m) <= cursor < U32_LIMIT && |f| <= cursor
    requires i < cursor + 4 + |line.glyph.value|
    ensures |Step(f, line, cursor)| == cursor + 4 + |line.glyph.value|
    ensures Step(f, line, cursor)[i] ==
        if cursor <= i then Record(line.glyph.value)[i - cursor]
        else if SlotPos(line.codepoint) <= i < SlotPos(line.codepoint) + 4 then LE32(cursor)[i - SlotPos(line.codepoint)]
        else if i < |f| then f[i] else 0
  {
    var g := line.glyph.value;
    var f1 := WriteAt(f, cursor, Record(g));
    WriteAtBytes(f, cursor, Record(g));
    WriteAtBytes(f1, SlotPos(line.codepoint), LE32(cursor));
    assert Step(f, line, cursor) == WriteAt(f1, SlotPos(line.codepoint), LE32(cursor));
  }

  /** The output file after the header and the first k lines of the second pass. */
  function FileAfter(lines: seq<HexLine>, k: nat): seq<Byte>
    requires WritableUpTo(lines, k)
  {
    if k == 0 then Header(MaxCodepoint(lines))
    else Step(FileAfter(lines, k - 1), lines[k - 1], Offset(lines, k - 1))
  }

  /** The complete compiled font. */
  function Image(lines: seq<HexLine>): seq<Byte>
    requires Fits(lines)
  {
    FileAfter(lines, |lines|)
  }

  /** The offset the slot of `codepoint` holds after k lines: the last record for it, or 0. */
  function LastOffset(lines: seq<HexLine>, k: nat, codepoint: nat): nat
    requires k <= |lines|
  {
    if k == 0 then 0
    else if lines[k - 1].glyph.Some? && lines[k - 1].codepoint == codepoint then Offset(lines, k - 1)
    else LastOffset(lines, k - 1, codepoint)
  }

  /** The output file of the script: `data` with a write position. */
  class OutFile {
    var data: seq<Byte>
    var position: nat

    constructor ()
      ensures data == [] && position == 0
    {
      data := [];
      position := 0;
    }

    method Seek(pos: nat)
      modifies this
      ensures data == old(data) && position == pos
    {
      position := pos;
    }

    method Write(b: seq<Byte>)
      requires |b| > 0
      modifies this
      ensures data == WriteAt(old(data), old(position), b)
      ensures position == old(position) + |b|
    {
      data := WriteAt(data, position, b);
      position := position + |b|;
    }
  }

  // ---------------------------------------------------------------------------------------
  // Reading the text: `line.split(":")`, `int(text, 16)` and `bytes.fromhex`

  /** How a run of the script ends: the font is written, or Python raises. */
  datatype Outcome = Written | ValueError | OverflowError

  /** The whitespace `int` and `bytes.fromhex` skip: space, tab, LF, VT, FF, CR. */
  predicate IsSpace(c: char)
  {
    c == ' ' || '\t' <= c <= '\r'
  }

  predicate IsHexDigit(c: char)
  {
    '0' <= c <= '9' || 'a' <= c <= 'f' || 'A' <= c <= 'F'
  }

  predicate AllHex(s: string)
  {
    forall i :: 0 <= i < |s| ==> IsHexDigit(s[i])
  }

  /** Hex digits and underscores, the characters of the number part of `int(s, 16)`. */
  predicate HexOrSeparator(s: string)
  {
    forall i :: 0 <= i < |s| ==> IsHexDigit(s[i]) || s[i] == '_'
  }

  function DigitValue(c: char): (v: nat)
    requires IsHexDigit(c)
    ensures v < 16
  {
    if c <= '9' then c as int - '0' as int
    else if c <= 'F' then c as int - 'A' as int + 10
    else c as int - 'a' as int + 10
  }

  /** The value of a run of hex digits, most significant first; underscores are skipped. */
  function HexValue(s: string): nat
    requires HexOrSeparator(s)
  {
    if s == [] then 0
    else if s[|s| - 1] == '_' then HexValue(s[..|s| - 1])
    else 16 * HexValue(s[..|s| - 1]) + DigitValue(s[|s| - 1])
  }

  /** `int` skipping leading ASCII whitespace (IsSpace); see TrimStartStrips. */
  function TrimStart(s: string): string
  {
    if s != [] && IsSpace(s[0]) then TrimStart(s[1..]) else s
  }

  /** `int` skipping trailing ASCII whitespace (IsSpace); see TrimEndStrips. */
  function TrimEnd(s: string): string
  {
    if s != [] && IsSpace(s[|s| - 1]) then TrimEnd(s[..|s| - 1]) else s
  }

  /**
   * TrimStart leaves the longest suffix of s that does not start with whitespace: everything
   * dropped is IsSpace, and on an ASCII string nothing else is (U+001C..U+001F stay).
   */
  lemma {:induction false} TrimStartStrips(s: string)
    ensures var r := TrimStart(s);
      |r| <= |s| && r == s[|s| - |r|..] && (r == [] || !IsSpace(r[0])) &&
      forall i :: 0 <= i < |s| - |r| ==> IsSpace(s[i])
  {
    if s != [] && IsSpace(s[0]) {
      TrimStartStrips(s[1..]);
      var r := TrimStart(s[1..]);
      assert s[1..][|s| - 1 - |r|..] == s[|s| - |r|..];
      forall i | 0 <= i < |s| - |r| ensures IsSpace(s[i]) {
        if i > 0 { assert s[i] == s[1..][i - 1]; }
      }
    }
  }

  /** TrimEnd leaves the longest prefix of s that does not end with whitespace. */
  lemma {:induction false} TrimEndStrips(s: string)
    ensures var r := TrimEnd(s);
      |r| <= |s| && r == s[..|r|] && (r == [] || !IsSpace(r[|r| - 1])) &&
      forall i :: |r| <= i < |s| ==> IsSpace(s[i])
  {
    if s != [] && IsSpace(s[|s| - 1]) {
      var p := s[..|s| - 1];
      TrimEndStrips(p);
      var r := TrimEnd(p);
      assert p[..|r|] == s[..|r|];
      forall i | |r| <= i < |s| ensures IsSpace(s[i]) {
        if i < |s| - 1 { assert s[i] == p[i]; }
      }
    }
  }

  /** Hex digits with single underscores between them, starting and ending with a digit. */
  predicate Grouped(s: string)
  {
    |s| > 0 && IsHexDigit(s[0]) && IsHexDigit(s[|s| - 1]) && HexOrSeparator(s) &&
    forall i :: 0 < i < |s| && s[i] == '_' ==> IsHexDigit(s[i - 1])
  }

  /** A leading '+' or '-' taken off, with whether it was '-'. */
  function SignSplit(t: string): (bool, string)
  {
    if |t| > 0 && (t[0] == '+' || t[0] == '-') then (t[0] == '-', t[1..]) else (false, t)
  }

  /** A leading "0x" or "0X" taken off, with the one underscore that may follow it. */
  function AfterPrefix(u: string): string
  {
    if |u| >= 2 && u[0] == '0' && (u[1] == 'x' || u[1] == 'X') then
      if |u| >= 3 && u[2] == '_' then u[3..] else u[2..]
    else u
  }

  /**
   * `int(s, 16)`: surrounding ASCII whitespace (IsSpace), an optional '+' or '-', an optional "0x"/"0X" prefix
   * that one underscore may follow, then Grouped hex digits; anything else is a ValueError (None).
   */
  function HexInt(s: string): Option<int>
  {
    var (negative, unsigned) := SignSplit(TrimEnd(TrimStart(s)));
    var body := AfterPrefix(unsigned);
    if Grouped(body) then
      var value: int := HexValue(body);
      Some(if negative then -value else value)
    else None
  }

  /**
   * The codepoint of a line: the value `int(s, 16)` reads, when it is not negative.  A negative
   * codepoint is a ValueError (None) here; the script as written goes on with it (see
   * NegativeCodepointAsWritten).
   */
  function ParseHexInt(s: string): Option<nat>
  {
    match HexInt(s)
    case Some(v) => if v >= 0 then Some(v) else None
    case None => None
  }

  /**
   * `bytes.fromhex(s)`: pairs of hex digits, whitespace allowed between pairs but not inside
   * one; anything else is a ValueError (None).
   */
  function FromHex(s: string): Option<seq<Byte>>
  {
    if s == [] then Some([])
    else if IsSpace(s[0]) then FromHex(s[1..])
    else if |s| >= 2 && IsHexDigit(s[0]) && IsHexDigit(s[1]) then
      match FromHex(s[2..])
      case None => None
      case Some(rest) => Some([16 * DigitValue(s[0]) + DigitValue(s[1])] + rest)
    else None
  }

  /**
   * `codepoint, glyph = line.split(":")`: the text before and after the line's only ':', or
   * None (a ValueError when unpacking) when the line has no ':' or more than one.
   */
  function Halves(line: string): Option<(string, string)>
  {
    if line == [] then None
    else if line[0] == ':' then
      if ':' in line[1..] then None else Some(([], line[1..]))
    else
      match Halves(line[1..])
      case None => None
      case Some(h) => Some(([line[0]] + h.0, h.1))
  }

  /** The first pass over one line: its codepoint, or None when the line raises ValueError. */
  function Codepoint(line: string): Option<nat>
  {
    match Halves(line)
    case None => None
    case Some(h) => ParseHexInt(h.0)
  }

  /** The text after the ':' of a line the first pass accepted. */
  function GlyphText(line: string): string
    requires Codepoint(line).Some?
  {
    Halves(line).value.1
  }

  /** The second pass gets through a line: its glyph text is empty (skipped) or valid hex. */
  predicate GlyphOk(line: string)
    requires Codepoint(line).Some?
  {
    GlyphText(line) == [] || FromHex(GlyphText(line)).Some?
  }

  /**
   * The line as the second pass sees it: no glyph when the text after ':' is empty, otherwise
   * the decoded bytes (a line that does not decode never reaches the writes).
   */
  function DecodeLine(line: string): HexLine
    requires Codepoint(line).Some?
  {
    HexLine(Codepoint(line).value, if GlyphText(line) == [] then None else FromHex(GlyphText(line)))
  }

  /** One line read in full, or None when either pass raises ValueError on it. */
  function ParseLine(line: string): Option<HexLine>
  {
    if Codepoint(line).Some? && GlyphOk(line) then Some(DecodeLine(line)) else None
  }

  /** Every line gets through the first pass. */
  predicate Scannable(text: seq<string>)
  {
    forall i {:trigger Codepoint(text[i])} :: 0 <= i < |text| ==> Codepoint(text[i]).Some?
  }

  /** The lines of a text the first pass accepted, as the second pass decodes them. */
  function Decoded(text: seq<string>): (lines: seq<HexLine>)
    requires Scannable(text)
    ensures |lines| == |text|
  {
    seq(|text|, i requires 0 <= i < |text| => DecodeLine(text[i]))
  }

  /** Whether each line of a text the first pass accepted gets through the second pass. */
  function GlyphOks(text: seq<string>): (oks: seq<bool>)
    requires Scannable(text)
    ensures |oks| == |text|
  {
    seq(|text|, i requires 0 <= i < |text| => GlyphOk(text[i]))
  }

  /** Line `line` of the text reads as `h`, and `ok` says whether its glyph text decodes. */
  predicate LineReads(line: string, h: HexLine, ok: bool)
  {
    Codepoint(line).Some? && h == DecodeLine(line) && ok == GlyphOk(line)
  }

  /**
   * The outcome of the second pass from line k on, the record cursor being Offset(k):
   * ValueError at a line whose glyph does not decode, OverflowError at a record whose offset
   * no longer fits 32 bits, whichever comes first.
   */
  function SecondPass(lines: seq<HexLine>, oks: seq<bool>, k: nat): Outcome
    requires |oks| == |lines| && k <= |lines|
    decreases |lines| - k
  {
    if k == |lines| then Written
    else if !oks[k] then ValueError
    else if lines[k].glyph.Some? && Offset(lines, k) >= U32_LIMIT then OverflowError
    else SecondPass(lines, oks, k + 1)
  }

  /**
   * The script run on a text: ValueError from the first pass, OverflowError for a largest
   * codepoint beyond 32 bits, then whatever the second pass meets first.
   */
  function Run(text: seq<string>): Outcome
  {
    if !Scannable(text) then ValueError
    else if MaxCodepoint(Decoded(text)) >= U32_LIMIT then OverflowError
    else SecondPass(Decoded(text), GlyphOks(text), 0)
  }

  // ---------------------------------------------------------------------------------------
  // The script

  /**
   * The first pass: the largest codepoint of the lines, or None when a line raises ValueError
   * (the loop stops at the first such line).
   */
  method LargestCodepoint(text: seq<string>) returns (m: Option<nat>)
    ensures m.Some? <==> Scannable(text)
    ensures m.Some? ==> m.value == MaxCodepoint(Decoded(text))
  {
    var largest := 0;
    var i := 0;
    while i < |text|
      invariant 0 <= i <= |text|
      invariant Scannable(text[..i]) && largest == MaxCodepoint(Decoded(text[..i]))
    {
      var halves := Halves(text[i]);
      if halves.None? {
        assert Codepoint(text[i]).None?;
        return None;
      }
      var codepoint := ParseHexInt(halves.value.0);
      if codepoint.None? {
        assert Codepoint(text[i]).None?;
        return None;
      }
      MaxSnoc(text, i);
      largest := Max(largest, codepoint.value);
      i := i + 1;
    }
    assert text[..|text|] == text;
    m := Some(largest);
  }

  /**
   * The script: the first pass finds the largest codepoint, the header is built, and the
   * second pass appends each record and back-patches its offset; the outcome is the one Python
   * reaches, and a run that ends normally leaves Image of the decoded lines in the file.
   */
  method Compile(text: seq<string>) returns (outcome: Outcome, out: OutFile)
    ensures fresh(out)
    ensures outcome == Run(text)
    ensures outcome == Written ==> Scannable(text) && Fits(Decoded(text)) && out.data == Image(Decoded(text))
  {
    out := new OutFile();
    var largest := LargestCodepoint(text);
    if largest.None? {
      return ValueError, out;
    }
    var maxCodepoint := largest.value;
    if maxCodepoint >= U32_LIMIT {
      return OverflowError, out;
    }
    var header := Header(maxCodepoint);
    out.Write(header);
    WriteAtBytes([], 0, header);
    assert out.data == FileAfter(Decoded(text), 0);
    ReadsAll(text);
    outcome := WriteRecords(out, text, Decoded(text), GlyphOks(text), |header| + (maxCodepoint + 1) * 4, |header|);
  }

  /**
   * The state of the second pass before line i: the first i lines are written, the cursor
   * is the offset of line i's record, and the file holds the header and the first i steps.
   */
  predicate PassAt(lines: seq<HexLine>, oks: seq<bool>, i: nat, cursor: nat, data: seq<Byte>)
  {
    |oks| == |lines| && WritableUpTo(lines, i) && cursor == Offset(lines, i) && data == FileAfter(lines, i)
  }

  /** The second pass, from the first record position on, over a header already written. */
  method WriteRecords(out: OutFile, text: seq<string>, ghost lines: seq<HexLine>, ghost oks: seq<bool>,
                      start: nat, headerSize: nat)
    returns (outcome: Outcome)
    requires |lines| == |text| && headerSize == HEADER_SIZE && PassAt(lines, oks, 0, start, out.data)
    requires forall k {:trigger LineReads(text[k], lines[k], oks[k])} :: 0 <= k < |text| ==> LineReads(text[k], lines[k], oks[k])
    modifies out
    ensures outcome == SecondPass(lines, oks, 0)
    ensures outcome == Written ==> Fits(lines) && out.data == Image(lines)
  {
    var cursor := start;
    var i := 0;
    while i < |text|
      invariant i <= |text| && PassAt(lines, oks, i, cursor, out.data)
      invariant SecondPass(lines, oks, i) == SecondPass(lines, oks, 0)
    {
      var stop;
      cursor, stop := ReadAndEmit(out, text[i], lines, oks, i, cursor, headerSize);
      if stop.Some? {
        return stop.value;
      }
      i := i + 1;
    }
    outcome := Written;
  }

  /**
   * One turn of the second pass: split the line, skip it when the glyph text is empty,
   * otherwise decode the glyph (ValueError) and write its record, unless the cursor no longer
   * fits 32 bits (OverflowError).
   */
  method ReadAndEmit(out: OutFile, text: string, ghost lines: seq<HexLine>, ghost oks: seq<bool>,
                     i: nat, cursor: nat, headerSize: nat)
    returns (next: nat, stop: Option<Outcome>)
    requires i < |lines| && headerSize == HEADER_SIZE && PassAt(lines, oks, i, cursor, out.data)
    requires LineReads(text, lines[i], oks[i])
    modifies out
    ensures stop.Some? ==> stop.value == SecondPass(lines, oks, i) != Written
    ensures stop.None? ==> PassAt(lines, oks, i + 1, next, out.data) && SecondPass(lines, oks, i + 1) == SecondPass(lines, oks, i)
  {
    LineHalves(text);
    next, stop := cursor, None;
    var halves := Halves(text).value;
    if |halves.1| == 0 {
      FileAfterNext(lines, i);
      return;
    }
    var codepoint := ParseHexInt(halves.0).value;
    var glyph := FromHex(halves.1);
    if glyph.None? {
      return cursor, Some(ValueError);
    }
    if cursor >= U32_LIMIT {
      return cursor, Some(OverflowError);
    }
    next := EmitLine(out, lines, i, HexLine(codepoint, glyph), cursor, headerSize);
  }

  /**
   * One record of the second pass: the record goes at the cursor and the cursor is
   * back-patched into the codepoint's slot; the cursor moves past the record.
   */
  method EmitLine(out: OutFile, ghost lines: seq<HexLine>, i: nat, line: HexLine, cursor: nat, headerSize: nat)
    returns (next: nat)
    requires WritableUpTo(lines, i) && i < |lines| && line == lines[i] && line.glyph.Some?
    requires headerSize == HEADER_SIZE && cursor == Offset(lines, i) < U32_LIMIT
    requires out.data == FileAfter(lines, i)
    modifies out
    ensures WritableUpTo(lines, i + 1)
    ensures next == Offset(lines, i + 1)
    ensures out.data == FileAfter(lines, i + 1)
  {
    FileAfterNext(lines, i);
    var glyph := line.glyph.value;
    var record := LE32(if |glyph| == 32 then 1 else 0) + glyph;
    out.Seek(cursor);
    out.Write(record);
    out.Seek(headerSize + 4 * line.codepoint);
    out.Write(LE32(cursor));
    next := cursor + |record|;
  }

  lemma FileAfterNext(lines: seq<HexLine>, i: nat)
    requires WritableUpTo(lines, i) && i < |lines|
    requires lines[i].glyph.Some? ==> Offset(lines, i) < U32_LIMIT
    ensures WritableUpTo(lines, i + 1)
    ensures Offset(lines, i + 1) == Offset(lines, i) + RecordSize(lines[i])
    ensures FileAfter(lines, i + 1) == Step(FileAfter(lines, i), lines[i], Offset(lines, i))
  {
  }

  /** One more line of the first pass: it is accepted and the maximum takes in its codepoint. */
  lemma MaxSnoc(text: seq<string>, i: nat)
    requires i < |text| && Scannable(text[..i]) && Codepoint(text[i]).Some?
    ensures Scannable(text[..i + 1])
    ensures MaxCodepoint(Decoded(text[..i + 1])) == Max(MaxCodepoint(Decoded(text[..i])), Codepoint(text[i]).value)
  {
    var pre, next := text[..i], text[..i + 1];
    forall k | 0 <= k < |next|
      ensures Codepoint(next[k]).Some?
    {
      if k == i {
        assert next[k] == text[i];
      } else {
        assert next[k] == pre[k];
      }
    }
    var lines := Decoded(next);
    assert lines[..i] == Decoded(pre) by {
      forall k | 0 <= k < i
        ensures lines[k] == Decoded(pre)[k]
      {
        assert next[k] == pre[k];
      }
    }
    assert lines[i] == DecodeLine(text[i]);
  }

  /** A line the first pass accepted, in terms of its two halves. */
  lemma LineHalves(line: string)
    requires Codepoint(line).Some?
    ensures Halves(line).Some? && ParseHexInt(Halves(line).value.0) == Some(DecodeLine(line).codepoint)
    ensures DecodeLine(line).glyph == if Halves(line).value.1 == [] then None else FromHex(Halves(line).value.1)
    ensures GlyphOk(line) <==> Halves(line).value.1 == [] || FromHex(Halves(line).value.1).Some?
  {
  }

  /** Every line of a text the first pass accepted reads as its decoded form. */
  lemma ReadsAll(text: seq<string>)
    requires Scannable(text)
    ensures forall k :: 0 <= k < |text| ==> LineReads(text[k], Decoded(text)[k], GlyphOks(text)[k])
  {
  }

  // ---------------------------------------------------------------------------------------
  // What the parser accepts

  /** `split(":")` yields two parts exactly when the line holds one ':', and they rebuild it. */
  lemma {:induction false} HalvesSplit(line: string)
    ensures Halves(line).Some? <==> multiset(line)[':'] == 1
    ensures Halves(line).Some? ==>
      var h := Halves(line).value;
      line == h.0 + [':'] + h.1 && ':' !in h.0 && ':' !in h.1
  {
    if line != [] {
      var rest := line[1..];
      assert line == [line[0]] + rest;
      assert multiset(line)[':'] == multiset([line[0]])[':'] + multiset(rest)[':'];
      if line[0] == ':' {
        assert ':' in rest <==> multiset(rest)[':'] > 0;
      } else {
        HalvesSplit(rest);
        if Halves(rest).Some? {
          var h := Halves(rest).value;
          assert Halves(line).value == ([line[0]] + h.0, h.1);
          assert line == ([line[0]] + h.0) + [':'] + h.1;
        }
      }
    }
  }

  /** The line `a:b` with no other ':' splits into a and b. */
  lemma {:induction false} HalvesAt(a: string, b: string)
    requires ':' !in a && ':' !in b
    ensures Halves(a + [':'] + b) == Some((a, b))
  {
    var line := a + [':'] + b;
    if a == [] {
      assert line[1..] == b;
    } else {
      assert line[0] == a[0] && line[1..] == a[1..] + [':'] + b;
      HalvesAt(a[1..], b);
      assert [a[0]] + a[1..] == a;
    }
  }

  /** The lower-case hex digit of a value below 16. */
  function Digit(v: nat): (c: char)
    requires v < 16
    ensures IsHexDigit(c) && DigitValue(c) == v
  {
    if v < 10 then (48 + v) as char else (87 + v) as char
  }

  /** The hex digits of n without leading zeros ("0" for 0). */
  function HexText(n: nat): (s: string)
    ensures |s| > 0 && AllHex(s)
  {
    if n < 16 then [Digit(n)] else HexText(n / 16) + [Digit(n % 16)]
  }

  /** Two hex digits per byte. */
  function ByteText(b: seq<Byte>): (s: string)
    ensures |s| == 2 * |b| && AllHex(s)
  {
    if b == [] then [] else [Digit(b[0] / 16), Digit(b[0] % 16)] + ByteText(b[1..])
  }

  /** The `.hex` line of a glyph: "codepoint:bytes" and a newline, or "codepoint:" for a skip. */
  function FormatLine(h: HexLine): string
  {
    HexText(h.codepoint) + [':'] + match h.glyph case None => [] case Some(g) => ByteText(g) + ['\n']
  }

  lemma {:induction false} HexTextValue(n: nat)
    ensures HexValue(HexText(n)) == n
  {
    if n >= 16 {
      HexTextValue(n / 16);
      var s := HexText(n);
      assert s[..|s| - 1] == HexText(n / 16);
    }
  }

  lemma {:induction false} FromHexByteText(b: seq<Byte>)
    ensures FromHex(ByteText(b) + ['\n']) == Some(b)
  {
    var s := ByteText(b) + ['\n'];
    if b == [] {
      assert s == ['\n'] && s[1..] == [];
    } else {
      FromHexByteText(b[1..]);
      assert s[2..] == ByteText(b[1..]) + ['\n'];
      assert !IsSpace(s[0]) && IsHexDigit(s[0]) && IsHexDigit(s[1]);
      assert 16 * DigitValue(s[0]) + DigitValue(s[1]) == b[0];
      assert [b[0]] + b[1..] == b;
    }
  }

  lemma ParseHexText(n: nat)
    ensures ParseHexInt(HexText(n)) == Some(n)
  {
    HexTextGrouped(n);
    HexIntSigned(HexText(n));
  }

  /** HexInt from its three stages. */
  lemma HexIntOf(s: string, t: string, negative: bool, unsigned: string, body: string)
    requires TrimEnd(TrimStart(s)) == t && SignSplit(t) == (negative, unsigned)
    requires AfterPrefix(unsigned) == body && Grouped(body)
    ensures HexInt(s) == Some(if negative then -(HexValue(body) as int) else HexValue(body))
  {
  }

  /** Nothing is trimmed from a string that neither starts nor ends with whitespace. */
  lemma NoTrim(s: string)
    requires |s| > 0 && !IsSpace(s[0]) && !IsSpace(s[|s| - 1])
    ensures TrimEnd(TrimStart(s)) == s
  {
  }

  /**
   * A separator U+001C..U+001F before or after the digits is not whitespace to `int` on an
   * ASCII string, so the text is a ValueError.
   */
  lemma SeparatorNotStripped(body: string, c: char)
    requires Grouped(body) && 0x1C <= c as int <= 0x1F
    ensures HexInt([c] + body) == None
    ensures HexInt(body + [c]) == None
  {
    var front := [c] + body;
    assert front[|front| - 1] == body[|body| - 1];
    NoTrim(front);
    assert SignSplit(front) == (false, front) && AfterPrefix(front) == front;
    assert !IsHexDigit(front[0]);
    var back := body + [c];
    assert back[0] == body[0] && back[|back| - 1] == c;
    NoTrim(back);
    assert SignSplit(back) == (false, back);
    if |back| >= 2 {
      assert back[1] == (if |body| >= 2 then body[1] else c);
      assert |body| >= 2 ==> IsHexDigit(body[1]) || body[1] == '_';
    }
    assert AfterPrefix(back) == back;
    assert !IsHexDigit(back[|back| - 1]);
  }

  /** Grouped digits have no sign and no prefix to take off. */
  lemma GroupedBare(body: string)
    requires Grouped(body)
    ensures SignSplit(body) == (false, body) && AfterPrefix(body) == body
  {
    if |body| >= 2 {
      assert IsHexDigit(body[1]) || body[1] == '_';
    }
  }

  /** `int(s, 16)` reads Grouped digits as their value, and with a '-' in front as its negation. */
  lemma HexIntSigned(body: string)
    requires Grouped(body)
    ensures HexInt(body) == Some(HexValue(body))
    ensures HexInt("-" + body) == Some(-(HexValue(body) as int))
  {
    GroupedBare(body);
    NoTrim(body);
    HexIntOf(body, body, false, body, body);
    var neg := "-" + body;
    assert neg[|neg| - 1] == body[|body| - 1];
    NoTrim(neg);
    assert SignSplit(neg) == (true, body) by {
      assert neg[1..] == body;
    }
    HexIntOf(neg, neg, true, body, body);
  }

  /** A '+' and a "0x" prefix with its underscore change nothing. */
  lemma HexIntPrefixed(body: string)
    requires Grouped(body)
    ensures HexInt("+0x_" + body) == Some(HexValue(body))
  {
    GroupedBare(body);
    var t := "+0x_" + body;
    assert t[|t| - 1] == body[|body| - 1];
    NoTrim(t);
    var u := "0x_" + body;
    assert SignSplit(t) == (false, u) by {
      assert t[1..] == u;
    }
    assert AfterPrefix(u) == body by {
      assert u[3..] == body;
    }
    HexIntOf(t, t, false, u, body);
  }

  /** An underscore between two runs of digits does not change their value. */
  lemma {:induction false} HexValueSkipsUnderscore(a: string, b: string)
    requires HexOrSeparator(a) && HexOrSeparator(b)
    ensures HexOrSeparator(a + "_" + b) && HexOrSeparator(a + b)
    ensures HexValue(a + "_" + b) == HexValue(a + b)
    decreases |b|
  {
    var w, v := a + "_" + b, a + b;
    assert forall i :: 0 <= i < |w| ==> w[i] == (if i < |a| then a[i] else if i == |a| then '_' else b[i - |a| - 1]);
    assert forall i :: 0 <= i < |v| ==> v[i] == (if i < |a| then a[i] else b[i - |a|]);
    if b == [] {
      assert w[..|w| - 1] == a && v == a;
    } else {
      var b' := b[..|b| - 1];
      HexValueSkipsUnderscore(a, b');
      assert w[..|w| - 1] == a + "_" + b';
      assert v[..|v| - 1] == a + b';
    }
  }

  /** The digits of n are Grouped and worth n. */
  lemma HexTextGrouped(n: nat)
    ensures Grouped(HexText(n)) && HexValue(HexText(n)) == n
  {
    HexTextValue(n);
  }

  /** Reading back a formatted line gives the line: the parser and the `.hex` format agree. */
  lemma ParseFormatted(h: HexLine)
    ensures ParseLine(FormatLine(h)) == Some(h)
  {
    var c := HexText(h.codepoint);
    var g := match h.glyph case None => [] case Some(b) => ByteText(b) + ['\n'];
    assert ':' !in c && ':' !in g;
    HalvesAt(c, g);
    ParseHexText(h.codepoint);
    if h.glyph.Some? {
      FromHexByteText(h.glyph.value);
    }
  }

  /** "41:" at the end of a file is skipped; "41:\n" is not: it gets an empty record. */
  lemma NewlineIsNotEmpty()
    ensures ParseLine("41:") == Some(HexLine(0x41, None))
    ensures ParseLine("41:\n") == Some(HexLine(0x41, Some([])))
  {
    HalvesAt("41", "");
    HalvesAt("41", "\n");
    assert TrimStart("41") == "41" && TrimEnd("41") == "41";
    assert HexValue("41") == 0x41 by {
      assert "41"[..1] == "4";
    }
    assert FromHex("\n") == Some([]) by {
      assert "\n"[1..] == [];
    }
  }

  /** The second pass gets to the end exactly when no line stops it. */
  lemma {:induction false} SecondPassWritten(lines: seq<HexLine>, oks: seq<bool>, k: nat)
    requires |oks| == |lines| && k <= |lines|
    ensures SecondPass(lines, oks, k) == Written <==>
      forall j :: k <= j < |lines| ==> oks[j] && (lines[j].glyph.Some? ==> Offset(lines, j) < U32_LIMIT)
    decreases |lines| - k
  {
    if k < |lines| {
      SecondPassWritten(lines, oks, k + 1);
    }
  }

  /**
   * The script writes the font exactly when every line splits at one ':', has a hex codepoint
   * and a glyph text that is empty or valid hex, and the largest codepoint and every record
   * offset fit 32 bits; otherwise it raises.
   */
  lemma RunWritten(text: seq<string>)
    ensures Run(text) == Written <==>
      (forall i :: 0 <= i < |text| ==> ParseLine(text[i]).Some?) && Scannable(text) && Fits(Decoded(text))
  {
    if Scannable(text) {
      var lines, oks := Decoded(text), GlyphOks(text);
      if MaxCodepoint(lines) < U32_LIMIT {
        SecondPassWritten(lines, oks, 0);
        OffsetsFitAll(lines, |lines|);
        ParsedIffOk(text);
      }
    } else {
      var i :| 0 <= i < |text| && Codepoint(text[i]).None?;
      assert ParseLine(text[i]).None?;
    }
  }

  lemma ParsedIffOk(text: seq<string>)
    requires Scannable(text)
    ensures (forall i :: 0 <= i < |text| ==> ParseLine(text[i]).Some?) <==>
            (forall i :: 0 <= i < |text| ==> GlyphOks(text)[i])
  {
    forall i | 0 <= i < |text|
      ensures ParseLine(text[i]).Some? <==> GlyphOks(text)[i]
    {
    }
  }

  // ---------------------------------------------------------------------------------------
  // What the compiled file holds

  /** The file is the header alone until the first record, then it ends at the record cursor. */
  lemma {:induction false} FileLength(lines: seq<HexLine>, k: nat)
    requires WritableUpTo(lines, k)
    ensures |FileAfter(lines, k)| == if HasRecordBefore(lines, k) then Offset(lines, k) else HEADER_SIZE
  {
    if k > 0 {
      FileLength(lines, k - 1);
      var line := lines[k - 1];
      if line.glyph.Some? {
        StepLength(FileAfter(lines, k - 1), line, Offset(lines, k - 1), MaxCodepoint(lines));
      }
    }
  }

  /** The 16 header bytes are never overwritten. */
  lemma {:induction false} FileHeader(lines: seq<HexLine>, k: nat)
    requires WritableUpTo(lines, k)
    ensures |FileAfter(lines, k)| >= HEADER_SIZE
    ensures FileAfter(lines, k)[..HEADER_SIZE] == Header(MaxCodepoint(lines))
  {
    if k > 0 {
      FileHeader(lines, k - 1);
      FileLength(lines, k - 1);
      var prev := FileAfter(lines, k - 1);
      var line := lines[k - 1];
      var cursor := Offset(lines, k - 1);
      assert FileAfter(lines, k) == Step(prev, line, cursor);
      if line.glyph.Some? {
        StepKeepsHeader(prev, line, cursor, MaxCodepoint(lines));
      }
    }
  }

  /** Where the script seeks for the slot of a codepoint `int(s, 16)` returned, negative ones included. */
  function SlotPosAsWritten(codepoint: int): int
  {
    HEADER_SIZE + 4 * codepoint
  }

  /**
   * A record-producing step of the second pass as written, for any codepoint `int(s, 16)`
   * returns: the record goes at the cursor, then the cursor into the slot; None when the slot
   * position is negative (`seek` raises OSError, after the record was written).
   */
  function StepAsWritten(f: seq<Byte>, codepoint: int, glyph: seq<Byte>, cursor: nat): (r: Option<seq<Byte>>)
    requires cursor < U32_LIMIT
    ensures r.Some? <==> codepoint >= -4
    ensures codepoint >= 0 ==> r == Some(Step(f, HexLine(codepoint, Some(glyph)), cursor))
  {
    var pos := SlotPosAsWritten(codepoint);
    if pos < 0 then None else Some(WriteAt(WriteAt(f, cursor, Record(glyph)), pos, LE32(cursor)))
  }

  /**
   * A line whose codepoint is a '-' before Grouped digits worth more than 0: `int(s, 16)` reads
   * it as that negative value, so as written the line gets through the first pass (and
   * `max` keeps the largest codepoint at least 0); the corrected parse rejects the line.
   */
  lemma NegativeCodepointReads(body: string, glyph: string)
    requires Grouped(body) && HexValue(body) > 0 && ':' !in glyph
    ensures Halves("-" + body + ":" + glyph) == Some(("-" + body, glyph))
    ensures HexInt("-" + body) == Some(-(HexValue(body) as int))
    ensures ParseLine("-" + body + ":" + glyph) == None
  {
    var c := "-" + body;
    assert ':' !in c by {
      assert forall i :: 0 < i < |c| ==> c[i] == body[i - 1];
    }
    HalvesAt(c, glyph);
    HexIntSigned(body);
    assert ParseHexInt(c) == None;
  }

  /**
   * As written, the record of codepoint -1 in a font whose largest codepoint is 0 goes at 20,
   * and the slot the script seeks to, 12, is the header's reserved word, which ends up holding
   * 20 instead of 0.  Codepoint -5 seeks to -4 and raises.
   */
  lemma NegativeCodepointAsWritten()
    ensures var f := StepAsWritten(Header(0), -1, [0x41], RecordsStart(0));
      f.Some? && |f.value| >= HEADER_SIZE && f.value[12..16] == LE32(20) != Header(0)[12..16]
    ensures StepAsWritten(Header(0), -5, [0x41], RecordsStart(0)) == None
  {
    var h := Header(0);
    var g := WriteAt(h, 20, Record([0x41]));
    var f := WriteAt(g, 12, LE32(20));
    assert StepAsWritten(h, -1, [0x41], RecordsStart(0)) == Some(f);
    WriteAtBytes(g, 12, LE32(20));
    assert f[12..16] == LE32(20);
    assert h[12..16] == [0, 0, 0, 0];
  }

  /** A record-producing step leaves the 16 header bytes of a file that already has them. */
  lemma StepKeepsHeader(prev: seq<Byte>, line: HexLine, cursor: nat, m: nat)
    requires line.glyph.Some? && line.codepoint <= m
    requires RecordsStart(m) <= cursor < U32_LIMIT && HEADER_SIZE <= |prev| <= cursor
    ensures |Step(prev, line, cursor)| >= HEADER_SIZE
    ensures Step(prev, line, cursor)[..HEADER_SIZE] == prev[..HEADER_SIZE]
  {
    var f := Step(prev, line, cursor);
    StepLength(prev, line, cursor, m);
    forall i | 0 <= i < HEADER_SIZE
      ensures f[i] == prev[i]
    {
      StepByte(prev, line, cursor, m, i);
    }
  }

  lemma {:induction false} HasRecordMonotone(lines: seq<HexLine>, j: nat, k: nat)
    requires j <= k <= |lines|
    requires HasRecordBefore(lines, j)
    ensures HasRecordBefore(lines, k)
    decreases k
  {
    if j < k {
      HasRecordMonotone(lines, j, k - 1);
    }
  }

  /** Record j of the input sits at Offset(j) of the compiled file, flag word then glyph. */
  lemma RecordInImage(lines: seq<HexLine>, j: nat)
    requires Fits(lines) && j < |lines| && lines[j].glyph.Some?
    ensures Offset(lines, j) + RecordSize(lines[j]) <= |Image(lines)|
    ensures Image(lines)[Offset(lines, j)..Offset(lines, j) + RecordSize(lines[j])] == Record(lines[j].glyph.value)
  {
    RecordInFile(lines, |lines|, j, Record(lines[j].glyph.value), Offset(lines, j));
  }

  /** The record of line j, once written, lies whole in the file after every later step. */
  lemma RecordInFile(lines: seq<HexLine>, k: nat, j: nat, rec: seq<Byte>, lo: nat)
    requires WritableUpTo(lines, k) && j < k && lines[j].glyph.Some?
    requires rec == Record(lines[j].glyph.value) && lo == Offset(lines, j)
    ensures lo + |rec| <= |FileAfter(lines, k)|
    ensures FileAfter(lines, k)[lo..lo + |rec|] == rec
  {
    var f := FileAfter(lines, k);
    RecordByte(lines, k, j, |rec| - 1);
    forall t | 0 <= t < |rec|
      ensures f[lo + t] == rec[t]
    {
      RecordByte(lines, k, j, t);
    }
    assert f[lo..lo + |rec|] == rec;
  }

  lemma {:induction false} RecordByte(lines: seq<HexLine>, k: nat, j: nat, t: nat)
    requires WritableUpTo(lines, k)
    requires j < k && lines[j].glyph.Some? && t < 4 + |lines[j].glyph.value|
    ensures Offset(lines, j) + t < |FileAfter(lines, k)|
    ensures FileAfter(lines, k)[Offset(lines, j) + t] == Record(lines[j].glyph.value)[t]
  {
    if j == k - 1 {
      RecordWritten(lines, j, k, t);
    } else {
      var i := Offset(lines, j) + t;
      assert WritableUpTo(lines, k - 1);
      RecordByte(lines, k - 1, j, t);
      assert i < Offset(lines, k - 1) by {
        OffsetNext(lines, j);
        OffsetMonotone(lines, j + 1, k - 1);
      }
      assert RecordsStart(MaxCodepoint(lines)) <= i < |FileAfter(lines, k - 1)|;
      ByteKept(lines, k, i);
    }
  }

  /** Line j's step (the k-th) writes its record at Offset(j). */
  lemma RecordWritten(lines: seq<HexLine>, j: nat, k: nat, t: nat)
    requires k == j + 1 && WritableUpTo(lines, k)
    requires lines[j].glyph.Some? && t < 4 + |lines[j].glyph.value|
    ensures Offset(lines, j) + t < |FileAfter(lines, k)|
    ensures FileAfter(lines, k)[Offset(lines, j) + t] == Record(lines[j].glyph.value)[t]
  {
    FileLength(lines, j);
    var prev := FileAfter(lines, j);
    var cursor := Offset(lines, j);
    assert FileAfter(lines, k) == Step(prev, lines[j], cursor);
    StepAtRecord(prev, lines[j], cursor, MaxCodepoint(lines), t);
  }

  /** The k-th step keeps every byte of the record area before its cursor. */
  lemma ByteKept(lines: seq<HexLine>, k: nat, i: nat)
    requires 0 < k && WritableUpTo(lines, k)
    requires RecordsStart(MaxCodepoint(lines)) <= i < |FileAfter(lines, k - 1)| && i < Offset(lines, k - 1)
    ensures i < |FileAfter(lines, k)| && FileAfter(lines, k)[i] == FileAfter(lines, k - 1)[i]
  {
    FileLength(lines, k - 1);
    var prev := FileAfter(lines, k - 1);
    var cursor := Offset(lines, k - 1);
    assert FileAfter(lines, k) == Step(prev, lines[k - 1], cursor);
    StepKeepsBefore(prev, lines[k - 1], cursor, MaxCodepoint(lines), i);
  }

  /** A record-producing step puts byte t of the record at cursor + t. */
  lemma StepAtRecord(prev: seq<Byte>, line: HexLine, cursor: nat, m: nat, t: nat)
    requires line.glyph.Some? && line.codepoint <= m && t < 4 + |line.glyph.value|
    requires RecordsStart(m) <= cursor < U32_LIMIT && |prev| <= cursor
    ensures cursor + t < |Step(prev, line, cursor)|
    ensures Step(prev, line, cursor)[cursor + t] == Record(line.glyph.value)[t]
  {
    StepByte(prev, line, cursor, m, cursor + t);
  }

  /** A step leaves every byte of the record area before the cursor as it was. */
  lemma StepKeepsBefore(prev: seq<Byte>, line: HexLine, cursor: nat, m: nat, i: nat)
    requires line.codepoint <= m && (line.glyph.Some? ==> cursor < U32_LIMIT)
    requires RecordsStart(m) <= i < |prev| <= cursor
    ensures i < |Step(prev, line, cursor)| && Step(prev, line, cursor)[i] == prev[i]
  {
    if line.glyph.Some? {
      StepByte(prev, line, cursor, m, i);
    }
  }

  lemma {:induction false} NoRecordNoSlot(lines: seq<HexLine>, k: nat, c: nat)
    requires k <= |lines|
    requires !HasRecordBefore(lines, k)
    ensures LastOffset(lines, k, c) == 0
  {
    if k > 0 {
      NoRecordNoSlot(lines, k - 1, c);
    }
  }

  /** Once a record exists, every slot 0..max lies in the file and holds LastOffset (0 if none). */
  lemma {:induction false} FileSlots(lines: seq<HexLine>, k: nat)
    requires WritableUpTo(lines, k)
    ensures HasRecordBefore(lines, k) ==>
      forall c :: 0 <= c <= MaxCodepoint(lines) ==>
        SlotPos(c) + 4 <= |FileAfter(lines, k)| &&
        U32At(FileAfter(lines, k), SlotPos(c)) == LastOffset(lines, k, c)
  {
    if k > 0 && HasRecordBefore(lines, k) {
      FileSlots(lines, k - 1);
      forall c | 0 <= c <= MaxCodepoint(lines)
        ensures SlotPos(c) + 4 <= |FileAfter(lines, k)| &&
                U32At(FileAfter(lines, k), SlotPos(c)) == LastOffset(lines, k, c)
      {
        SlotAfterStep(lines, k, c);
      }
    }
  }

  /** The slot of c after the k-th step, given what it held before. */
  lemma SlotAfterStep(lines: seq<HexLine>, k: nat, c: nat)
    requires 0 < k && WritableUpTo(lines, k) && c <= MaxCodepoint(lines) && HasRecordBefore(lines, k)
    requires HasRecordBefore(lines, k - 1) ==>
      SlotPos(c) + 4 <= |FileAfter(lines, k - 1)| &&
      U32At(FileAfter(lines, k - 1), SlotPos(c)) == LastOffset(lines, k - 1, c)
    ensures SlotPos(c) + 4 <= |FileAfter(lines, k)|
    ensures U32At(FileAfter(lines, k), SlotPos(c)) == LastOffset(lines, k, c)
  {
    FileLength(lines, k - 1);
    var prev := FileAfter(lines, k - 1);
    var line := lines[k - 1];
    var cursor := Offset(lines, k - 1);
    assert FileAfter(lines, k) == Step(prev, line, cursor);
    if line.glyph.Some? {
      SlotUpdate(prev, line, cursor, MaxCodepoint(lines), c, HasRecordBefore(lines, k - 1));
      if !HasRecordBefore(lines, k - 1) {
        NoRecordNoSlot(lines, k - 1, c);
      }
    }
  }

  /** The slot of c after one step: the new cursor for the line's codepoint, else unchanged (or 0). */
  lemma SlotUpdate(prev: seq<Byte>, line: HexLine, cursor: nat, m: nat, c: nat, inFile: bool)
    requires line.glyph.Some? && line.codepoint <= m && c <= m
    requires RecordsStart(m) <= cursor < U32_LIMIT && |prev| <= cursor
    requires inFile ==> SlotPos(c) + 4 <= |prev|
    requires !inFile ==> |prev| <= SlotPos(c)
    ensures SlotPos(c) + 4 <= |Step(prev, line, cursor)|
    ensures U32At(Step(prev, line, cursor), SlotPos(c)) ==
      if c == line.codepoint then cursor else if inFile then U32At(prev, SlotPos(c)) else 0
  {
    var f := Step(prev, line, cursor);
    var p := SlotPos(c);
    StepByte(prev, line, cursor, m, p);
    StepByte(prev, line, cursor, m, p + 1);
    StepByte(prev, line, cursor, m, p + 2);
    StepByte(prev, line, cursor, m, p + 3);
    if c == line.codepoint {
      assert f[p..p + 4] == LE32(cursor);
      LE32RoundTrip(cursor, f, p);
    } else {
      assert p + 4 <= SlotPos(line.codepoint) || SlotPos(line.codepoint) + 4 <= p;
    }
  }

  /** A slot holds 0 exactly when no line produced a record for that codepoint. */
  lemma {:induction false} LastOffsetZero(lines: seq<HexLine>, k: nat, c: nat)
    requires k <= |lines|
    ensures LastOffset(lines, k, c) == 0 <==>
      forall j :: 0 <= j < k ==> !(lines[j].glyph.Some? && lines[j].codepoint == c)
  {
    if k > 0 {
      LastOffsetZero(lines, k - 1, c);
    }
  }

  /** A nonzero slot points at the record of the LAST line with that codepoint. */
  lemma {:induction false} LastOffsetIsLast(lines: seq<HexLine>, k: nat, c: nat)
    requires k <= |lines|
    requires LastOffset(lines, k, c) != 0
    ensures exists j :: (0 <= j < k && lines[j].glyph.Some? && lines[j].codepoint == c &&
      LastOffset(lines, k, c) == Offset(lines, j) &&
      forall j' :: j < j' < k ==> !(lines[j'].glyph.Some? && lines[j'].codepoint == c))
  {
    if lines[k - 1].glyph.Some? && lines[k - 1].codepoint == c {
      assert k > 0;
    } else {
      LastOffsetIsLast(lines, k - 1, c);
    }
  }
}
