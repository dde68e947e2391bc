/**
 * The compiler of tools/hex2bfn/hex2bfn.py and the reader of boot/font/font.c agree on the
 * `bfnt` layout: what the compiler writes for a glyph, the reader gives back.
 */
module FontRoundTrip {
  import opened Common
  import FC = FontCompiler
  import FR = FontReader

  /** The compiled header passes the signature check and reads back its two fields. */
  lemma HeaderReadsBack(lines: seq<FC.HexLine>)
    requires FC.Fits(lines)
    ensures |FC.Image(lines)| >= FR.HEADER_SIZE
    ensures FR.HasSignature(FC.Image(lines))
    ensures FR.MaxCodepoint(FC.Image(lines)) == FC.MaxCodepoint(lines)
    ensures FR.TableOffset(FC.Image(lines)) == FC.HEADER_SIZE
  {
    var img := FC.Image(lines);
    var m := FC.MaxCodepoint(lines);
    FC.FileHeader(lines, |lines|);
    var h := FC.Header(m);
    assert img[..16] == h;
    assert img[..4] == h[..4] == FR.SIGNATURE;
    assert img[4..8] == h[4..8] == LE32(m);
    LE32RoundTrip(m, img, 4);
    assert img[8..12] == h[8..12] == LE32(16);
    LE32RoundTrip(16, img, 8);
  }

  /** The slot of the last record's codepoint points at that record. */
  lemma {:induction false} LastOffsetOfLast(lines: seq<FC.HexLine>, k: nat, j: nat)
    requires j < k <= |lines| && lines[j].glyph.Some?
    requires forall j' :: j < j' < k ==> !(lines[j'].glyph.Some? && lines[j'].codepoint == lines[j].codepoint)
    ensures FC.LastOffset(lines, k, lines[j].codepoint) == FC.Offset(lines, j)
  {
    if j < k - 1 {
      LastOffsetOfLast(lines, k - 1, j);
    }
  }

  /**
   * The round trip: for the last line carrying a codepoint, with a 16- or 32-byte glyph, the reader
   * returns exactly that glyph (for a large enough buffer) and the width matching its size.
   */
  lemma GlyphRoundTrip(lines: seq<FC.HexLine>, j: nat, size: nat)
    requires FC.Fits(lines) && j < |lines| && lines[j].glyph.Some?
    requires |lines[j].glyph.value| in {16, 32}
    requires forall j' :: j < j' < |lines| ==>
      !(lines[j'].glyph.Some? && lines[j'].codepoint == lines[j].codepoint)
    ensures FR.DataReadable(FC.Image(lines), lines[j].codepoint)
    ensures FR.DimensionReadable(FC.Image(lines), lines[j].codepoint)
    ensures FR.GlyphData(FC.Image(lines), lines[j].codepoint, size) ==
      if size >= |lines[j].glyph.value| then Ok(lines[j].glyph.value) else Err(InvalidValue)
    ensures FR.GlyphDimension(FC.Image(lines), lines[j].codepoint) ==
      Ok((if |lines[j].glyph.value| == 32 then FR.FULL_WIDTH else FR.HALF_WIDTH, FR.GLYPH_HEIGHT))
  {
    var img := FC.Image(lines);
    var cp := lines[j].codepoint;
    var g := lines[j].glyph.value;
    var off := FC.Offset(lines, j);
    HeaderReadsBack(lines);
    SlotOfLast(lines, j, img, cp, off);
    FC.RecordInImage(lines, j);
    RecordReadsBack(img, off, g);
  }

  /** The slot of the last line carrying a codepoint holds that line's record offset. */
  lemma SlotOfLast(lines: seq<FC.HexLine>, j: nat, img: seq<Byte>, cp: nat, off: nat)
    requires FC.Fits(lines) && j < |lines| && lines[j].glyph.Some?
    requires forall j' :: j < j' < |lines| ==>
      !(lines[j'].glyph.Some? && lines[j'].codepoint == lines[j].codepoint)
    requires img == FC.Image(lines) && cp == lines[j].codepoint && off == FC.Offset(lines, j)
    requires |img| >= FR.HEADER_SIZE && FR.MaxCodepoint(img) == FC.MaxCodepoint(lines)
    requires FR.TableOffset(img) == FC.HEADER_SIZE
    ensures cp <= FR.MaxCodepoint(img) && FR.SlotReadable(img, cp)
    ensures FR.GlyphOffset(img, cp) == off && off > 0
  {
    assert FC.HasRecordBefore(lines, |lines|) by {
      assert FC.HasRecordBefore(lines, j + 1);
      FC.HasRecordMonotone(lines, j + 1, |lines|);
    }
    FC.FileSlots(lines, |lines|);
    LastOffsetOfLast(lines, |lines|, j);
    assert cp <= FC.MaxCodepoint(lines);
    assert FR.SlotPos(img, cp) == FC.SlotPos(cp);
  }

  /** A record the compiler wrote reads back as its glyph, with the width bit matching its size. */
  lemma RecordReadsBack(img: seq<Byte>, off: nat, g: seq<Byte>)
    requires |g| in {16, 32} && off + 4 + |g| <= |img|
    requires img[off..off + 4 + |g|] == FC.Record(g)
    ensures FR.IsFullWidth(img, off) <==> |g| == 32
    ensures FR.GlyphSize(FR.IsFullWidth(img, off)) == |g|
    ensures img[off + 4..off + 4 + |g|] == g
  {
    var rec := FC.Record(g);
    assert img[off] == rec[0] == LE32(if |g| == 32 then 1 else 0)[0];
    assert img[off + 4..off + 4 + |g|] == rec[4..] == g;
  }

  /** A codepoint no line gave a glyph for is rejected once the font holds any glyph. */
  lemma MissingGlyphRejected(lines: seq<FC.HexLine>, c: nat, size: nat)
    requires FC.Fits(lines) && FC.HasRecordBefore(lines, |lines|)
    requires forall j :: 0 <= j < |lines| ==> !(lines[j].glyph.Some? && lines[j].codepoint == c)
    ensures FR.DataReadable(FC.Image(lines), c) && FR.DimensionReadable(FC.Image(lines), c)
    ensures FR.GlyphData(FC.Image(lines), c, size) == Err(InvalidValue)
    ensures FR.GlyphDimension(FC.Image(lines), c) == Err(InvalidValue)
  {
    var img := FC.Image(lines);
    HeaderReadsBack(lines);
    if c <= FC.MaxCodepoint(lines) {
      FC.FileSlots(lines, |lines|);
      FC.LastOffsetZero(lines, |lines|, c);
      assert FR.GlyphOffset(img, c) == 0;
    }
  }

  /**
   * `font_get_glyph_data` as written loads the slot of the requested codepoint before comparing it
   * with the largest codepoint: for the font compiled from the single line "41:" followed by 16 zero
   * bytes (300 bytes long), codepoint U+0100 makes it load bytes 1040..1043, past the end of the
   * data, where the checked order answers InvalidValue without reading.
   */
  lemma SlotLoadedBeforeCheck()
    ensures FC.Fits([FC.HexLine(0x41, Some(Zeros(16)))])
    ensures !FR.DataReadableAsWritten(FC.Image([FC.HexLine(0x41, Some(Zeros(16)))]), 0x100)
    ensures FR.DataReadable(FC.Image([FC.HexLine(0x41, Some(Zeros(16)))]), 0x100)
    ensures FR.GlyphData(FC.Image([FC.HexLine(0x41, Some(Zeros(16)))]), 0x100, 16) == Err(InvalidValue)
  {
    var lines := [FC.HexLine(0x41, Some(Zeros(16)))];
    assert FC.MaxCodepoint(lines) == 0x41 by {
      assert lines[..0] == [];
    }
    assert FC.Offset(lines, 1) == 300;
    assert FC.HasRecordBefore(lines, 1);
    FC.FileLength(lines, 1);
    HeaderReadsBack(lines);
    assert |FC.Image(lines)| == 300;
    assert FR.SlotPos(FC.Image(lines), 0x100) == 1040;
  }
}
