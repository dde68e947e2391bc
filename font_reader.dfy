/**
 * The boot loader's font reader (boot/font/font.c).
 *
 * A loaded `bfnt` file is kept as raw bytes.  Glyph lookups read the header's largest codepoint
 * and the offset of the offset table, then the codepoint's 4-byte slot, then the glyph record the
 * slot points at: a flag word whose lowest bit says "full width" (16x16) and the glyph bitmap.
 * The C code reads the file without bounds checks; the `requires` clauses below state that every
 * byte it reads lies inside the loaded data.
 */
module FontReader {
  import opened Common

  /** "bfnt" in ASCII. */
  const SIGNATURE: seq<Byte> := [0x62, 0x66, 0x6E, 0x74]
  const HEADER_SIZE: nat := 16
  const GLYPH_HEADER_SIZE: nat := 4
  /** Glyph height and the two glyph widths, in pixels. */
  const GLYPH_HEIGHT: nat := 16
  const HALF_WIDTH: nat := 8
  const FULL_WIDTH: nat := 16

  /** The signature check of `font_use`: the first four bytes spell "bfnt". */
  predicate HasSignature(file: seq<Byte>)
  {
    |file| >= 4 && file[..4] == SIGNATURE
  }

  function MaxCodepoint(data: seq<Byte>): nat
    requires |data| >= HEADER_SIZE
  {
    U32At(data, 4)
  }

  function TableOffset(data: seq<Byte>): nat
    requires |data| >= HEADER_SIZE
  {
    U32At(data, 8)
  }

  function SlotPos(data: seq<Byte>, codepoint: nat): nat
    requires |data| >= HEADER_SIZE
  {
    TableOffset(data) + 4 * codepoint
  }

  /** The slot of the codepoint lies inside the data. */
  predicate SlotReadable(data: seq<Byte>, codepoint: nat)
  {
    |data| >= HEADER_SIZE && SlotPos(data, codepoint) + 4 <= |data|
  }

  function GlyphOffset(data: seq<Byte>, codepoint: nat): nat
    requires SlotReadable(data, codepoint)
  {
    U32At(data, SlotPos(data, codepoint))
  }

  /** The full-width bit: bit 0 of the glyph header's first byte. */
  predicate IsFullWidth(data: seq<Byte>, offset: nat)
    requires offset < |data|
  {
    data[offset] % 2 == 1
  }

  /** Bytes of bitmap a glyph of that width holds. */
  function GlyphSize(fullWidth: bool): nat
  {
    if fullWidth then 32 else 16
  }

  /** Every byte `font_get_glyph_dimension` reads lies inside the data. */
  predicate DimensionReadable(data: seq<Byte>, codepoint: nat)
  {
    |data| >= HEADER_SIZE &&
    (codepoint <= MaxCodepoint(data) ==>
      SlotReadable(data, codepoint) &&
      (GlyphOffset(data, codepoint) != 0 ==> GlyphOffset(data, codepoint) < |data|))
  }

  /** `font_get_glyph_dimension` with a font loaded: (width, height) of the glyph, or InvalidValue. */
  function GlyphDimension(data: seq<Byte>, codepoint: nat): (r: Result<(nat, nat)>)
    requires DimensionReadable(data, codepoint)
    ensures r.Ok? ==> r.value.1 == GLYPH_HEIGHT && r.value.0 in {HALF_WIDTH, FULL_WIDTH}
  {
    if codepoint > MaxCodepoint(data) || GlyphOffset(data, codepoint) == 0 then Err(InvalidValue)
    else
      var offset := GlyphOffset(data, codepoint);
      Ok((if IsFullWidth(data, offset) then FULL_WIDTH else HALF_WIDTH, GLYPH_HEIGHT))
  }

  /** Every byte `font_get_glyph_data` reads lies inside the data (bounds check first). */
  predicate DataReadable(data: seq<Byte>, codepoint: nat)
  {
    |data| >= HEADER_SIZE &&
    (codepoint <= MaxCodepoint(data) ==>
      SlotReadable(data, codepoint) &&
      var offset := GlyphOffset(data, codepoint);
      (offset != 0 ==> (offset < |data| &&
        offset + GLYPH_HEADER_SIZE + GlyphSize(IsFullWidth(data, offset)) <= |data|)))
  }

  /**
   * `font_get_glyph_data` with a font loaded, checking the codepoint against the table before
   * reading its slot: the glyph bitmap copied into a buffer of `size` bytes, or InvalidValue.
   */
  function GlyphData(data: seq<Byte>, codepoint: nat, size: nat): (r: Result<seq<Byte>>)
    requires DataReadable(data, codepoint)
    ensures r.Ok? ==> |r.value| <= size && |r.value| in {16, 32}
  {
    if codepoint > MaxCodepoint(data) then Err(InvalidValue)
    else
      var offset := GlyphOffset(data, codepoint);
      if offset == 0 then Err(InvalidValue)
      else
        var n := GlyphSize(IsFullWidth(data, offset));
        if size < n then Err(InvalidValue)
        else Ok(data[offset + GLYPH_HEADER_SIZE..offset + GLYPH_HEADER_SIZE + n])
  }

  /** The bytes `font_get_glyph_data` as written reads: the slot first, whatever the codepoint. */
  predicate DataReadableAsWritten(data: seq<Byte>, codepoint: nat)
  {
    SlotReadable(data, codepoint) &&
    var offset := GlyphOffset(data, codepoint);
    (codepoint <= MaxCodepoint(data) && offset != 0 ==> (offset < |data| &&
      offset + GLYPH_HEADER_SIZE + GlyphSize(IsFullWidth(data, offset)) <= |data|))
  }

  /**
   * `font_get_glyph_data` as written: the slot is loaded before the codepoint is compared with the
   * largest codepoint, so the load happens even for codepoints past the table.
   */
  function GlyphDataAsWritten(data: seq<Byte>, codepoint: nat, size: nat): (r: Result<seq<Byte>>)
    requires DataReadableAsWritten(data, codepoint)
    ensures r == GlyphData(data, codepoint, size)
  {
    var offset := GlyphOffset(data, codepoint);
    if codepoint > MaxCodepoint(data) || offset == 0 then Err(InvalidValue)
    else
      var n := GlyphSize(IsFullWidth(data, offset));
      if size < n then Err(InvalidValue)
      else Ok(data[offset + GLYPH_HEADER_SIZE..offset + GLYPH_HEADER_SIZE + n])
  }

  /** The font state of the boot loader: the loaded file, or none (the VGA BIOS font is used). */
  class FontState {
    var fontFileData: Option<seq<Byte>>

    constructor ()
      ensures fontFileData == None
    {
      fontFileData := None;
    }

    /**
     * `font_use`.  File access is given as parameters: `pathGiven` is false for a NULL path,
     * `file` is None when the file cannot be opened and otherwise its contents, `allocOk` says
     * whether the buffer could be allocated and `readOk` whether reading it succeeded.
     */
    method Use(pathGiven: bool, file: Option<seq<Byte>>, allocOk: bool, readOk: bool) returns (s: Status)
      modifies this
      ensures !pathGiven ==> s == Success && fontFileData == None
      ensures pathGiven && file.None? ==> s == UnknownError && fontFileData == old(fontFileData)
      ensures pathGiven && file.Some? && !HasSignature(file.value) ==>
        s == InvalidSignature && fontFileData == old(fontFileData)
      ensures pathGiven && file.Some? && HasSignature(file.value) ==>
        s == (if allocOk then Success else UnknownError) &&
        fontFileData == (if allocOk && readOk then file else None)
    {
      if !pathGiven {
        fontFileData := None;
        return Success;
      }
      if file.None? {
        return UnknownError;
      }
      if !HasSignature(file.value) {
        return InvalidSignature;
      }
      if !allocOk {
        fontFileData := None;
        return UnknownError;
      }
      fontFileData := if readOk then file else None;
      s := Success;
    }

    /** `font_get_glyph_dimension`: 8x16 with no font loaded, else the loaded glyph's size. */
    function Dimension(codepoint: nat): (r: Result<(nat, nat)>)
      reads this
      requires fontFileData.Some? ==> DimensionReadable(fontFileData.value, codepoint)
      ensures fontFileData.None? ==> r == Ok((HALF_WIDTH, GLYPH_HEIGHT))
      ensures r.Ok? ==> r.value.1 == GLYPH_HEIGHT
    {
      match fontFileData
      case None => Ok((HALF_WIDTH, GLYPH_HEIGHT))
      case Some(data) => GlyphDimension(data, codepoint)
    }

    /**
     * `font_get_glyph_data` into `buf` (its length is `size`).  With no font loaded the glyph
     * comes from the 256-glyph 8x16 BIOS font after the CP437 conversion, whose outcome is the
     * parameter `cp437`.
     */
    method Data(codepoint: nat, buf: array<Byte>, cp437: Result<Byte>, biosFont: seq<Byte>)
      returns (s: Status)
      requires |biosFont| == 256 * 16
      requires fontFileData.Some? ==> DataReadable(fontFileData.value, codepoint)
      modifies buf
      ensures fontFileData.Some? ==> match GlyphData(fontFileData.value, codepoint, buf.Length)
        case Ok(glyph) => s == Success && buf[..|glyph|] == glyph &&
          buf[|glyph|..] == old(buf[|glyph|..])
        case Err(e) => s == e && buf[..] == old(buf[..])
      ensures fontFileData.None? && buf.Length < 16 ==> s == InvalidValue && buf[..] == old(buf[..])
      ensures fontFileData.None? && buf.Length >= 16 && cp437.Err? ==>
        s == cp437.status && buf[..] == old(buf[..])
      ensures fontFileData.None? && buf.Length >= 16 && cp437.Ok? ==>
        s == Success && buf[..16] == biosFont[16 * cp437.value..16 * cp437.value + 16] &&
        buf[16..] == old(buf[16..])
    {
      var glyph: seq<Byte>;
      if fontFileData.None? {
        if buf.Length < 16 {
          return InvalidValue;
        }
        if cp437.Err? {
          return cp437.status;
        }
        glyph := biosFont[16 * cp437.value..16 * cp437.value + 16];
      } else {
        var r := GlyphData(fontFileData.value, codepoint, buf.Length);
        if r.Err? {
          return r.status;
        }
        glyph := r.value;
      }
      var i := 0;
      while i < |glyph|
        invariant 0 <= i <= |glyph| <= buf.Length
        invariant buf[..i] == glyph[..i]
        invariant buf[i..] == old(buf[i..])
      {
        buf[i] := glyph[i];
        i := i + 1;
      }
      s := Success;
    }
  }
}
