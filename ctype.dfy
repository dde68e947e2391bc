/**
 * The boot loader's table-driven character classes (boot/stdc/ctype/ctype.c).
 *
 * Every 7-bit character has a 16-bit flag word in a 128-entry table; each `is*` predicate tests
 * one flag and `toupper`/`tolower` shift a letter by the distance between the two cases.  The
 * table is written here as the source lays it out, sixteen rows of eight entries, so that entry c
 * is row c / 8, column c % 8.  Each predicate's contract states the set of characters it accepts.
 */
module Ctype {
  const CNTRL: bv16 := 0x0001
  const PRINT: bv16 := 0x0002
  const SPACE: bv16 := 0x0004
  const BLANK: bv16 := 0x0008
  const GRAPH: bv16 := 0x0010
  const PUNCT: bv16 := 0x0020
  const ALNUM: bv16 := 0x0040
  const ALPHA: bv16 := 0x0080
  const UPPER: bv16 := 0x0100
  const LOWER: bv16 := 0x0200
  const DIGIT: bv16 := 0x0400
  const XDIGI: bv16 := 0x0800

  const ROW_00: seq<bv16> := [0x0001, 0x0001, 0x0001, 0x0001, 0x0001, 0x0001, 0x0001, 0x0001]  // 00h-07h
  const ROW_08: seq<bv16> := [0x0001, 0x000D, 0x0005, 0x0005, 0x0005, 0x0005, 0x0001, 0x0001]  // 08h-0Fh
  const ROW_10: seq<bv16> := [0x0001, 0x0001, 0x0001, 0x0001, 0x0001, 0x0001, 0x0001, 0x0001]  // 10h-17h
  const ROW_18: seq<bv16> := [0x0001, 0x0001, 0x0001, 0x0001, 0x0001, 0x0001, 0x0001, 0x0001]  // 18h-1Fh
  const ROW_20: seq<bv16> := [0x000E, 0x0032, 0x0032, 0x0032, 0x0032, 0x0032, 0x0032, 0x0032]  // 20h-27h
  const ROW_28: seq<bv16> := [0x0032, 0x0032, 0x0032, 0x0032, 0x0032, 0x0032, 0x0032, 0x0032]  // 28h-2Fh
  const ROW_30: seq<bv16> := [0x0C52, 0x0C52, 0x0C52, 0x0C52, 0x0C52, 0x0C52, 0x0C52, 0x0C52]  // 30h-37h
  const ROW_38: seq<bv16> := [0x0C52, 0x0C52, 0x0032, 0x0032, 0x0032, 0x0032, 0x0032, 0x0032]  // 38h-3Fh
  const ROW_40: seq<bv16> := [0x0032, 0x09D2, 0x09D2, 0x09D2, 0x09D2, 0x09D2, 0x09D2, 0x01D2]  // 40h-47h
  const ROW_48: seq<bv16> := [0x01D2, 0x01D2, 0x01D2, 0x01D2, 0x01D2, 0x01D2, 0x01D2, 0x01D2]  // 48h-4Fh
  const ROW_50: seq<bv16> := [0x01D2, 0x01D2, 0x01D2, 0x01D2, 0x01D2, 0x01D2, 0x01D2, 0x01D2]  // 50h-57h
  const ROW_58: seq<bv16> := [0x01D2, 0x01D2, 0x01D2, 0x0032, 0x0032, 0x0032, 0x0032, 0x0032]  // 58h-5Fh
  const ROW_60: seq<bv16> := [0x0032, 0x0AD2, 0x0AD2, 0x0AD2, 0x0AD2, 0x0AD2, 0x0AD2, 0x02D2]  // 60h-67h
  const ROW_68: seq<bv16> := [0x02D2, 0x02D2, 0x02D2, 0x02D2, 0x02D2, 0x02D2, 0x02D2, 0x02D2]  // 68h-6Fh
  const ROW_70: seq<bv16> := [0x02D2, 0x02D2, 0x02D2, 0x02D2, 0x02D2, 0x02D2, 0x02D2, 0x02D2]  // 70h-77h
  const ROW_78: seq<bv16> := [0x02D2, 0x02D2, 0x02D2, 0x0032, 0x0032, 0x0032, 0x0032, 0x0001]  // 78h-7Fh

  const ROWS: seq<seq<bv16>> :=
    [ROW_00, ROW_08, ROW_10, ROW_18, ROW_20, ROW_28, ROW_30, ROW_38,
     ROW_40, ROW_48, ROW_50, ROW_58, ROW_60, ROW_68, ROW_70, ROW_78]

  /** `ctype_table[c]`; the functions are defined for 0 <= c < 128 only, the table size. */
  function Entry(c: nat): bv16
    requires c < 128
  {
    ROWS[c / 8][c % 8]
  }

  /** The table by character ranges. */
  function RangeEntry(c: nat): bv16
  {
    if c < 0x09 then 0x0001          // control characters
    else if c == 0x09 then 0x000D    // horizontal tab
    else if c < 0x0E then 0x0005     // line feed .. carriage return
    else if c < 0x20 then 0x0001     // control characters
    else if c == 0x20 then 0x000E    // space
    else if c < 0x30 then 0x0032     // punctuation
    else if c < 0x3A then 0x0C52     // digits
    else if c < 0x41 then 0x0032     // punctuation
    else if c < 0x47 then 0x09D2     // A-F
    else if c < 0x5B then 0x01D2     // G-Z
    else if c < 0x61 then 0x0032     // punctuation
    else if c < 0x67 then 0x0AD2     // a-f
    else if c < 0x7B then 0x02D2     // g-z
    else if c < 0x7F then 0x0032     // punctuation
    else 0x0001                      // delete
  }

  /** The sixteen rows of the table agree with the range description. */
  lemma EntryByRange(c: nat)
    requires c < 128
    ensures Entry(c) == RangeEntry(c)
  {
    if c < 64 {
      LowRows(c);
    } else {
      HighRows(c);
    }
  }

  lemma LowRows(c: nat)
    requires c < 64
    ensures Entry(c) == RangeEntry(c)
  {
    var r := c / 8;
    if r == 0 {} else if r == 1 {} else if r == 2 {} else if r == 3 {}
    else if r == 4 {} else if r == 5 {} else if r == 6 {} else {}
  }

  lemma HighRows(c: nat)
    requires 64 <= c < 128
    ensures Entry(c) == RangeEntry(c)
  {
    var r := c / 8;
    if r == 8 {} else if r == 9 {} else if r == 10 {} else if r == 11 {}
    else if r == 12 {} else if r == 13 {} else if r == 14 {} else {}
  }

  predicate IsUpper(c: nat)
    requires c < 128
    ensures IsUpper(c) <==> 'A' as nat <= c <= 'Z' as nat
  {
    EntryByRange(c);
    Entry(c) & UPPER != 0
  }

  predicate IsLower(c: nat)
    requires c < 128
    ensures IsLower(c) <==> 'a' as nat <= c <= 'z' as nat
  {
    EntryByRange(c);
    Entry(c) & LOWER != 0
  }

  predicate IsDigit(c: nat)
    requires c < 128
    ensures IsDigit(c) <==> '0' as nat <= c <= '9' as nat
  {
    EntryByRange(c);
    Entry(c) & DIGIT != 0
  }

  predicate IsXDigit(c: nat)
    requires c < 128
    ensures IsXDigit(c) <==>
      '0' as nat <= c <= '9' as nat || 'A' as nat <= c <= 'F' as nat || 'a' as nat <= c <= 'f' as nat
  {
    EntryByRange(c);
    Entry(c) & XDIGI != 0
  }

  predicate IsAlpha(c: nat)
    requires c < 128
    ensures IsAlpha(c) <==> IsUpper(c) || IsLower(c)
  {
    EntryByRange(c);
    Entry(c) & ALPHA != 0
  }

  predicate IsAlnum(c: nat)
    requires c < 128
    ensures IsAlnum(c) <==> IsAlpha(c) || IsDigit(c)
  {
    EntryByRange(c);
    Entry(c) & ALNUM != 0
  }

  /** Horizontal tab through carriage return, and space. */
  predicate IsSpace(c: nat)
    requires c < 128
    ensures IsSpace(c) <==> 0x09 <= c <= 0x0D || c == 0x20
  {
    EntryByRange(c);
    Entry(c) & SPACE != 0
  }

  predicate IsBlank(c: nat)
    requires c < 128
    ensures IsBlank(c) <==> c == 0x09 || c == 0x20
  {
    EntryByRange(c);
    Entry(c) & BLANK != 0
  }

  predicate IsCntrl(c: nat)
    requires c < 128
    ensures IsCntrl(c) <==> c < 0x20 || c == 0x7F
  {
    EntryByRange(c);
    Entry(c) & CNTRL != 0
  }

  predicate IsPrint(c: nat)
    requires c < 128
    ensures IsPrint(c) <==> 0x20 <= c <= 0x7E
  {
    EntryByRange(c);
    Entry(c) & PRINT != 0
  }

  predicate IsGraph(c: nat)
    requires c < 128
    ensures IsGraph(c) <==> IsPrint(c) && c != 0x20
  {
    EntryByRange(c);
    Entry(c) & GRAPH != 0
  }

  /** Punctuation: every graphic character that is not a letter or digit. */
  predicate IsPunct(c: nat)
    requires c < 128
    ensures IsPunct(c) <==> IsGraph(c) && !IsAlnum(c)
  {
    EntryByRange(c);
    Entry(c) & PUNCT != 0
  }

  function ToUpper(c: nat): (r: nat)
    requires c < 128
    ensures r < 128
    ensures IsLower(c) ==> IsUpper(r) && r + 0x20 == c
    ensures !IsLower(c) ==> r == c
  {
    EntryByRange(c);
    if Entry(c) & LOWER != 0 then c - 'a' as nat + 'A' as nat else c
  }

  function ToLower(c: nat): (r: nat)
    requires c < 128
    ensures r < 128
    ensures IsUpper(c) ==> IsLower(r) && r == c + 0x20
    ensures !IsUpper(c) ==> r == c
  {
    EntryByRange(c);
    if Entry(c) & UPPER != 0 then c - 'A' as nat + 'a' as nat else c
  }

  /** `tolower` undoes `toupper` on lower-case letters, and the other way round. */
  lemma CaseRoundTrip(c: nat)
    requires c < 128
    ensures IsLower(c) ==> ToLower(ToUpper(c)) == c
    ensures IsUpper(c) ==> ToUpper(ToLower(c)) == c
  {
  }
}
