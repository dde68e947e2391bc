# emos core, modelled in Dafny

This project models the self-contained algorithms of emos, an i686 boot loader and kernel,
together with two of its host tools, and proves properties about them. One Dafny module stands
for each core source file:

- **Font.** `FontCompiler` models the `hex2bfn` tool, which turns `codepoint:hexbytes` lines into a
  `bfnt` image: a 16-byte header, a 4-byte offset slot per codepoint, and glyph records patched
  into those slots. `FontReader` models the boot loader's glyph lookups. `FontRoundTrip` proves
  that what the tool writes is what the reader reads back.
- **C library readers.** `Ctype` is the table of character classes; `Digits` is the shared digit
  and accumulation arithmetic; `StrToL`, `StrToUL` and `AtoI` model the number parsers with their
  32-bit `long` behaviour; `Gmtime` models the days-to-civil-date conversion of `gmtime_r`.
- **Text.** `Path` models the path iterator, `path_join`, `path_normalize` and
  `path_is_absolute`. `ShellParse` models the shell tokenizer, and `Vsnprintf` the kernel's
  `vsnprintf` (specification decoding, the integer, character and string printers, and the
  bounded output loop).
- **Tables and colours.** `PciClass` models the PCI class-name table and its binary search;
  `Color` models the GUI shell's blending, gradients and brushes.
- **Memory.** `Pma` models the boot loader's physical frame bitmap (two bits per frame) as a
  class over its byte array; `PmaAsWritten` models the same operations as the code is written,
  with its out-of-bitmap and runaway cases. `Vma` models the kernel's bump allocator of virtual
  pages.
- **FAT.** `FatTable` models reading and writing FAT12/16/32 entries in sector buffers.
  `FatBoot` models the boot loader's FAT helpers: UCS-2 to UTF-8 conversion, 8.3 names and their
  checksum, the cluster and sector maps, the cluster chain, and the file cursor of `read` and
  `seek`.
- **mkfs.** `MkfsDecode` models the size, unsigned integer and UUID decoders of `mkfs.afs`.
- **Devices.** `Ps2Keyboard` models the scan-code set 1 and set 2 machines and the event ring
  buffer. `AnsiTerm` models the ECMA-48 terminal state machine of the boot console (escape,
  CSI parameters, cursor moves, erasing and SGR attributes). `AnsiTermDevice` models the
  character device in front of it: UTF-8 decoding across writes, backspace, tabs and its CSI
  parameter bound.

Where the code and the behaviour it evidently intends differ, the model keeps both: a member
that models the code as written, a lemma showing an input on which the two differ, and the
corrected definition the rest of the model uses. These are listed under Findings.

## Model

| member | source | states |
|---|---|---|
| `Common.LE32` | tools/hex2bfn/hex2bfn.py:15-16 | `to_bytes(4, "little")`: four bytes, least significant first; `LE32RoundTrip` shows `U32At` reads the value back |
| `Common.U32At` | boot/font/font.c:16-21 | a `uint32_t` field of the packed font header read on a little-endian machine, always below 2^32 |
| `Common.LE32RoundTrip` | boot/font/font.c:16-21 | a 32-bit value written little-endian and read back as a `uint32_t` is the value written |
| `Common.Put` | boot/core/path.c:60 | `*cur++ = c`: the character at the write position, the buffer before it and after it unchanged |
| `Ctype.IsUpper` | boot/stdc/ctype/ctype.c:136-145 | the UPPER flag of the table is set exactly for 'A'..'Z' |
| `Ctype.IsLower` | boot/stdc/ctype/ctype.c:92-101 | the LOWER flag is set exactly for 'a'..'z' |
| `Ctype.IsDigit` | boot/stdc/ctype/ctype.c:70-79 | the DIGIT flag is set exactly for '0'..'9' |
| `Ctype.IsXDigit` | boot/stdc/ctype/ctype.c:147-156 | the XDIGIT flag is set exactly for '0'..'9', 'A'..'F' and 'a'..'f' |
| `Ctype.IsAlpha` | boot/stdc/ctype/ctype.c:48-57 | ALPHA holds exactly for upper- or lower-case letters |
| `Ctype.IsAlnum` | boot/stdc/ctype/ctype.c:37-46 | ALNUM holds exactly for letters and digits |
| `Ctype.IsSpace` | boot/stdc/ctype/ctype.c:125-134 | SPACE holds exactly for 0x09..0x0D and 0x20 |
| `Ctype.IsBlank` | boot/stdc/ctype/ctype.c:158-167 | BLANK holds exactly for tab and space |
| `Ctype.IsCntrl` | boot/stdc/ctype/ctype.c:59-68 | CNTRL holds exactly below 0x20 and for 0x7F |
| `Ctype.IsPrint` | boot/stdc/ctype/ctype.c:103-112 | PRINT holds exactly for 0x20..0x7E |
| `Ctype.IsGraph` | boot/stdc/ctype/ctype.c:81-90 | GRAPH holds exactly for printable characters other than space |
| `Ctype.IsPunct` | boot/stdc/ctype/ctype.c:114-123 | PUNCT holds exactly for graphic characters that are not letters or digits |
| `Ctype.EntryByRange` | boot/stdc/ctype/ctype.c:18-35 | every entry of the 128-entry table equals the value given by character ranges |
| `Ctype.ToUpper` | boot/stdc/ctype/ctype.c:169-178 | a lower-case letter becomes the upper-case letter 0x20 below it; every other character is returned unchanged |
| `Ctype.ToLower` | boot/stdc/ctype/ctype.c:180-189 | an upper-case letter becomes the lower-case letter 0x20 above it; every other character is returned unchanged |
| `Ctype.CaseRoundTrip` | boot/stdc/ctype/ctype.c:169-189 | tolower undoes toupper on lower-case letters and toupper undoes tolower on upper-case letters |
| `Ctype.Entry` | boot/stdc/ctype/ctype.c:18-35 | `ctype_table[c]`, read from the table's sixteen rows of eight; `EntryByRange` gives every entry by character ranges |
| `Ctype.RangeEntry` | boot/stdc/ctype/ctype.c:18-35 | the table described by character ranges: controls, tab, the other spaces, space, punctuation, digits, hex and other letters of each case, delete |
| `Ctype.LowRows` | boot/stdc/ctype/ctype.c:19-26 | the entries of rows 00h-3Fh equal the range description |
| `Ctype.HighRows` | boot/stdc/ctype/ctype.c:27-34 | the entries of rows 40h-7Fh equal the range description |
| `Digits.DigitOf` | kernel/stdc/stdlib/strtol.c:43-53 | a character has a digit value exactly when it is alphanumeric; the value is below 36 and is c - '0' for decimal digits |
| `Digits.DigitValue` | kernel/stdc/stdlib/strtol.c:55-59 | a character accepted as a digit of the base has a value below the base |
| `Digits.SkipSpaces` | kernel/stdc/stdlib/strtol.c:16-18 | the scan stops at the first character that is not a space, having passed only spaces |
| `Digits.DigitsEnd` | kernel/stdc/stdlib/strtol.c:42-59 | the digit loop ends at the first character that is not a digit of the base, having passed only digits |
| `Digits.WrapAccum` | kernel/stdc/stdlib/strtol.c:61-72 | the 32-bit accumulation either overflows (the register read negative) or ends with a value in 0..LONG_MAX |
| `Digits.WrapAccumStep` | kernel/stdc/stdlib/strtol.c:61-72 | one more digit takes the register r to Wrap32(r * base + d), or to overflow when that reads negative |
| `Digits.CheckedAccumulate` | kernel/stdc/stdlib/strtol.c:42-74 | the loop overflows exactly when the accumulation of the digit run does; otherwise it stops at the end of the digit run with the accumulated value |
| `Digits.WrapAccumExact` | kernel/stdc/stdlib/strtol.c:61-72 | while the true value of the digits fits in a long, the accumulation computes exactly that value |
| `Digits.OverflowSticks` | kernel/stdc/stdlib/strtol.c:64-71 | an overflow, once reached, is the outcome whatever digits follow |
| `Digits.Sign` | kernel/stdc/stdlib/strtol.c:20-26 | an optional '+' or '-' is passed and the minus recorded |
| `Digits.Prefix` | kernel/stdc/stdlib/strtol.c:28-40 | a "0" or "0x"/"0X" prefix is passed whatever the base; base 0 becomes 8 after "0" and 16 after "0x" |
| `Digits.Numeral` | kernel/stdc/stdlib/strtol.c:42-59 | the numeral of a number is a non-empty run of digits of the base that starts with '0' only for zero |
| `Digits.NumeralValue` | kernel/stdc/stdlib/strtol.c:61-62 | reading a numeral's digits back gives the number |
| `Digits.ValueMonotone` | kernel/stdc/stdlib/strtol.c:61-62 | appending digits never makes the value smaller |
| `Digits.WrapsToFour` | kernel/stdc/stdlib/strtol.c:61-72 | the accumulation of "4294967300" wraps to 4 without ever reading negative |
| `Digits.ValueIsTwoToThirtyTwoPlusFour` | kernel/stdc/stdlib/strtol.c:61-62 | the true value of "4294967300" is 4294967300 |
| `Digits.IsDigitIn` | kernel/stdc/stdlib/strtol.c:43-59 | a character the digit loop accepts for the base: alphanumeric with a value below the base |
| `Digits.Wrap32` | kernel/stdc/stdlib/strtol.c:61-62 | the value a 32-bit `long` register holds after an arithmetic step: in LONG_MIN..LONG_MAX, congruent to the exact result modulo 2^32, and the exact result when that fits |
| `Digits.Value` | kernel/stdc/stdlib/strtol.c:61-62 | the exact value of a run of digits, most significant first; `NumeralValue`, `ValueMonotone` and `WrapAccumExact` state it |
| `Digits.DigitChar` | kernel/stdc/stdlib/strtol.c:43-49 | the lower-case character of a digit value below 36, which the digit loop reads back as that value |
| `Digits.WrapsToFourAt` | kernel/stdc/stdlib/strtol.c:61-72 | the accumulation of the ten characters 4294967300 ends at 4, the register never reading negative |
| `Digits.WrapsPastLimit` | kernel/stdc/stdlib/strtol.c:61-62 | 429496730 * 10 is 2^32 + 4, which a 32-bit register holds as 4 |
| `Digits.DecimalWrap` | kernel/stdc/stdlib/strtol.c:61-72 | one more decimal digit whose product wraps to a non-negative w takes the accumulation to w, with no overflow reported |
| `AtoI.Spec` | kernel/stdc/stdlib/atoi.c:6-52 | atoi as written; its result is always an int |
| `AtoI.AtoI` | kernel/stdc/stdlib/atoi.c:6-52 | the character loop returns exactly the value and errno of the specification |
| `AtoI.Intended` | kernel/stdc/stdlib/atoi.c:35-43 | atoi saturating at INT_MAX or INT_MIN with ERANGE whenever the value leaves int; the result is always an int |
| `AtoI.AgreesInRange` | kernel/stdc/stdlib/atoi.c:23-51 | while the digits' value fits in int, as written and as intended agree and ERANGE is never set |
| `AtoI.RoundTrip` | kernel/stdc/stdlib/atoi.c:11-51 | a decimal numeral reads back as its number, and with '-' in front as its negation, with errno unchanged |
| `AtoI.MissedOverflow` | kernel/stdc/stdlib/atoi.c:32-43 | "4294967300" gives 4 with errno unchanged as written, where INT_MAX with ERANGE is due |
| `AtoI.WrappedAsWritten` | kernel/stdc/stdlib/atoi.c:32-43 | atoi as written reads "4294967300" as 4 without an error |
| `AtoI.SaturatedAsIntended` | kernel/stdc/stdlib/atoi.c:35-43 | the intended atoi reads "4294967300" as INT_MAX with ERANGE |
| `StrToL.Spec` | kernel/stdc/stdlib/strtol.c:6-85 | strtol as written; the value is a long and the end position lies inside the string |
| `StrToL.StrToL` | kernel/stdc/stdlib/strtol.c:6-85 | the character loop returns exactly the value, end position and errno of the specification |
| `StrToL.Intended` | kernel/stdc/stdlib/strtol.c:28-72 | strtol with base 0 reading decimal without a prefix and saturating with ERANGE outside long; the value is a long |
| `StrToL.AgreesInRange` | kernel/stdc/stdlib/strtol.c:28-85 | with an explicit or prefix-given base and a value that fits in long, as written and as intended agree and ERANGE is never set |
| `StrToL.RoundTrip` | kernel/stdc/stdlib/strtol.c:16-85 | a numeral in any base 2..36 reads back as its number (negated after '-'), ending after the last digit, errno unchanged |
| `StrToL.SignedNumeral` | kernel/stdc/stdlib/strtol.c:16-74 | on a numeral with an optional '-', the stages pass no space, take the sign, find no prefix and read every digit |
| `StrToL.BaseZeroReadsNothing` | kernel/stdc/stdlib/strtol.c:28-59 | with base 0, a decimal numeral not starting with '0' reads as 0 with EINVAL at position 0 as written, and as its number as intended |
| `StrToL.MissedOverflow` | kernel/stdc/stdlib/strtol.c:61-72 | "4294967300" gives 4 without an error as written, where LONG_MAX with ERANGE is due |
| `StrToL.WrappedAsWritten` | kernel/stdc/stdlib/strtol.c:61-72 | strtol as written reads "4294967300" in base 10 as 4 without an error |
| `StrToL.SaturatedAsIntended` | kernel/stdc/stdlib/strtol.c:61-72 | the intended strtol reads "4294967300" in base 10 as LONG_MAX with ERANGE |
| `StrToL.ValidBase` | kernel/stdc/stdlib/strtol.c:11-14 | the bases strtol accepts: 0 and 2 to 36; any other sets EINVAL and returns 0 |
| `StrToUL.Spec` | boot/stdc/stdlib/strtoul.c:6-63 | strtoul as written; the value lies below 2^32 and ERANGE is never set |
| `StrToUL.StrToUL` | boot/stdc/stdlib/strtoul.c:6-63 | the character loop, wrapping modulo 2^32, returns exactly the value, end position and errno of the specification |
| `StrToUL.ModStep` | boot/stdc/stdlib/strtoul.c:52-53 | reducing the register modulo 2^32 after each step gives the value modulo 2^32 |
| `StrToUL.Intended` | boot/stdc/stdlib/strtoul.c:19-31 | strtoul with base 0 reading decimal when there is no prefix; the value lies below 2^32 |
| `StrToUL.RoundTrip` | boot/stdc/stdlib/strtoul.c:15-62 | a numeral of a number below 2^32 in any base 2..36 reads back as the number, ending after the last digit |
| `StrToUL.SameWithBase` | boot/stdc/stdlib/strtoul.c:19-31 | with an explicit base 2..36, as written and as intended agree on every string |
| `StrToUL.WrapsModulo` | boot/stdc/stdlib/strtoul.c:52-53 | a numeral of a larger number reads back as the number modulo 2^32, with no error |
| `StrToUL.BaseZeroReadsNothing` | boot/stdc/stdlib/strtoul.c:19-50 | with base 0, a decimal numeral not starting with '0' reads as 0 with EINVAL as written, and as its number as intended |
| `StrToUL.ValidBase` | boot/stdc/stdlib/strtoul.c:10-13 | the bases strtoul accepts: 0 and 2 to 36; any other sets EINVAL and returns 0 |
| `FontCompiler.MaxCodepoint` | tools/hex2bfn/hex2bfn.py:6-11 | the first pass yields the largest codepoint over every line, skipped lines included, or 0 for no lines |
| `FontCompiler.Header` | tools/hex2bfn/hex2bfn.py:13-21 | the 16-byte header: "bfnt", the largest codepoint and 16 as little-endian words, then four zero bytes |
| `FontCompiler.Record` | tools/hex2bfn/hex2bfn.py:35-42 | a record is a flag word that is 1 exactly for a 32-byte glyph, followed by the glyph |
| `FontCompiler.Offset` | tools/hex2bfn/hex2bfn.py:26-48 | the record cursor starts just past the offset table of max + 1 slots and grows by each record's size |
| `FontCompiler.OffsetsFitAll` | tools/hex2bfn/hex2bfn.py:46 | when every record offset fits the 4-byte slot, so does each earlier one |
| `FontCompiler.OffsetMonotone` | tools/hex2bfn/hex2bfn.py:48 | the record cursor never moves back |
| `FontCompiler.WriteAt` | tools/hex2bfn/hex2bfn.py:41-46 | a seek and write: the written bytes land at the position, a seek past the end zero-fills the gap, and the bytes after the written range are kept |
| `FontCompiler.WriteAtBytes` | tools/hex2bfn/hex2bfn.py:41-46 | byte by byte, a write holds the new bytes inside its range and the old or zero-filled ones outside |
| `FontCompiler.StepLength` | tools/hex2bfn/hex2bfn.py:41-42 | a record-producing line extends the file exactly to the end of its record |
| `FontCompiler.StepByte` | tools/hex2bfn/hex2bfn.py:37-48 | after a record-producing line each byte is the record's at the cursor, the new offset in the codepoint's slot, or the earlier byte |
| `FontCompiler.OutFile.constructor` | tools/hex2bfn/hex2bfn.py:23 | a file opened for writing is empty and positioned at 0 |
| `FontCompiler.OutFile.Seek` | tools/hex2bfn/hex2bfn.py:41 | a seek moves the position and leaves the data alone |
| `FontCompiler.OutFile.Write` | tools/hex2bfn/hex2bfn.py:42 | a write changes the data to WriteAt of the old data and moves the position past the written bytes |
| `FontCompiler.DigitValue` | tools/hex2bfn/hex2bfn.py:10 | a hexadecimal digit's value is below 16 |
| `FontCompiler.Decoded` | tools/hex2bfn/hex2bfn.py:28-34 | the second pass's view of an accepted text has one entry per line |
| `FontCompiler.GlyphOks` | tools/hex2bfn/hex2bfn.py:31-34 | one flag per line saying whether its glyph text is empty or valid hex |
| `FontCompiler.LargestCodepoint` | tools/hex2bfn/hex2bfn.py:6-11 | the first pass's loop returns the largest codepoint, or None exactly when some line does not split at one ':' or its codepoint is not a hex integer of at least 0 (a negative one is rejected here; the script as written goes on, see `StepAsWritten`) |
| `FontCompiler.Compile` | tools/hex2bfn/hex2bfn.py:6-48 | the script's outcome is Run(text): ValueError, OverflowError, or the written file equal to Image of the parsed lines |
| `FontCompiler.WriteRecords` | tools/hex2bfn/hex2bfn.py:26-48 | the second pass loop reaches the outcome SecondPass gives, with the file holding the header and every step so far |
| `FontCompiler.ReadAndEmit` | tools/hex2bfn/hex2bfn.py:28-48 | one line: skipped when the glyph text is empty, ValueError when it does not decode, OverflowError when the cursor no longer fits 32 bits, else one step |
| `FontCompiler.EmitLine` | tools/hex2bfn/hex2bfn.py:37-48 | the record goes at the cursor, the cursor is written into the codepoint's slot, and the cursor moves past the record |
| `FontCompiler.MaxSnoc` | tools/hex2bfn/hex2bfn.py:8-11 | one more accepted line makes the maximum take in its codepoint |
| `FontCompiler.HalvesSplit` | tools/hex2bfn/hex2bfn.py:9 | `split(":")` yields two parts exactly when the line holds one ':', and they rebuild the line around it |
| `FontCompiler.HexTextValue` | tools/hex2bfn/hex2bfn.py:10 | the hex text of a number reads back as the number |
| `FontCompiler.FromHexByteText` | tools/hex2bfn/hex2bfn.py:34 | `bytes.fromhex` of two hex digits per byte gives the bytes back |
| `FontCompiler.ParseFormatted` | tools/hex2bfn/hex2bfn.py:28-34 | a formatted `.hex` line parses back into its codepoint and glyph |
| `FontCompiler.NewlineIsNotEmpty` | tools/hex2bfn/hex2bfn.py:30-32 | "41:" at the end of the file is skipped while "41:\n" is not: its glyph text is the newline |
| `FontCompiler.SecondPassWritten` | tools/hex2bfn/hex2bfn.py:28-48 | the second pass writes the file exactly when every glyph text decodes and every record offset fits 32 bits |
| `FontCompiler.RunWritten` | tools/hex2bfn/hex2bfn.py:6-48 | the script writes the font exactly when every line splits at one ':', has a hex codepoint of at least 0 and an empty or hex glyph text, and the largest codepoint and every offset fit 32 bits |
| `FontCompiler.ParsedIffOk` | tools/hex2bfn/hex2bfn.py:28-34 | a line parses in full exactly when both passes accept it |
| `FontCompiler.FileLength` | tools/hex2bfn/hex2bfn.py:24-48 | the file is the header alone until the first record, then ends at the record cursor |
| `FontCompiler.FileHeader` | tools/hex2bfn/hex2bfn.py:24 | the 16 header bytes are never overwritten |
| `FontCompiler.StepKeepsHeader` | tools/hex2bfn/hex2bfn.py:41-46 | a record-producing step keeps the header of a file that has one |
| `FontCompiler.RecordInImage` | tools/hex2bfn/hex2bfn.py:41-42 | the record of line j sits at Offset(j) of the compiled file, flag word then glyph |
| `FontCompiler.RecordInFile` | tools/hex2bfn/hex2bfn.py:41-48 | a record once written lies whole in the file after every later step |
| `FontCompiler.RecordWritten` | tools/hex2bfn/hex2bfn.py:41-42 | a line's step writes its record at its offset |
| `FontCompiler.ByteKept` | tools/hex2bfn/hex2bfn.py:41-48 | a step keeps every byte of the record area before its cursor |
| `FontCompiler.StepAtRecord` | tools/hex2bfn/hex2bfn.py:41-42 | a step puts byte t of the record at cursor + t |
| `FontCompiler.StepKeepsBefore` | tools/hex2bfn/hex2bfn.py:41-48 | a step leaves every byte of the record area before the cursor as it was |
| `FontCompiler.FileSlots` | tools/hex2bfn/hex2bfn.py:26-46 | once a record exists, every slot 0..max lies in the file and holds the last offset written for it, or 0 |
| `FontCompiler.SlotAfterStep` | tools/hex2bfn/hex2bfn.py:45-46 | the slot of a codepoint after a step, given its value before |
| `FontCompiler.SlotUpdate` | tools/hex2bfn/hex2bfn.py:45-46 | a step sets the slot of its own codepoint to the cursor and keeps the others |
| `FontCompiler.LastOffsetZero` | tools/hex2bfn/hex2bfn.py:45-46 | a slot holds 0 exactly when no line produced a record for that codepoint |
| `FontCompiler.LastOffsetIsLast` | tools/hex2bfn/hex2bfn.py:45-46 | a nonzero slot points at the record of the last line with that codepoint |
| `FontCompiler.RecordsStart` | tools/hex2bfn/hex2bfn.py:26 | where the first record goes: past the 16-byte header and max + 1 four-byte slots; `Offset` starts there |
| `FontCompiler.SlotPos` | tools/hex2bfn/hex2bfn.py:45 | the position of a codepoint's slot, 16 + 4 * codepoint; `StepByte` shows it lies before the record area |
| `FontCompiler.RecordSize` | tools/hex2bfn/hex2bfn.py:48 | the bytes a line adds to the record area: 4 + the glyph's length, nothing for a skipped line; `OffsetNext` moves the cursor by it |
| `FontCompiler.OffsetNext` | tools/hex2bfn/hex2bfn.py:48 | the cursor after line j is the cursor before it plus that line's record size |
| `FontCompiler.HasRecordBefore` | tools/hex2bfn/hex2bfn.py:31-32 | whether one of the first k lines produced a record; `FileLength` shows the file is the header alone until one does |
| `FontCompiler.HasRecordMonotone` | tools/hex2bfn/hex2bfn.py:28-48 | once a record has been written, every later point of the pass has one |
| `FontCompiler.OffsetsFit` | tools/hex2bfn/hex2bfn.py:46 | every record among the first k lines starts at an offset `to_bytes(4, ...)` can encode; `OffsetsFitAll` states it line by line |
| `FontCompiler.WritableUpTo` | tools/hex2bfn/hex2bfn.py:15-46 | the first k lines can be written without OverflowError: the largest codepoint and each record offset so far fit 32 bits |
| `FontCompiler.Fits` | tools/hex2bfn/hex2bfn.py:15-46 | every line can be written without OverflowError; `RunWritten` shows the script writes the font exactly for such inputs when every line parses |
| `FontCompiler.Step` | tools/hex2bfn/hex2bfn.py:40-46 | one iteration of the second pass: the record at the cursor, then the cursor into the codepoint's slot, nothing for a skipped line; `StepByte` states every byte it leaves |
| `FontCompiler.FileAfter` | tools/hex2bfn/hex2bfn.py:24-48 | the file after the header and the first k lines; `FileLength`, `FileHeader` and `FileSlots` state its length, header and slots |
| `FontCompiler.FileAfterNext` | tools/hex2bfn/hex2bfn.py:28-48 | one more line that fits keeps the pass writable, moves the cursor by its record and adds one step to the file |
| `FontCompiler.Image` | tools/hex2bfn/hex2bfn.py:23-48 | the complete font the script writes; `RecordInImage`, `FileSlots` and `FontRoundTrip.GlyphRoundTrip` state what it holds |
| `FontCompiler.LastOffset` | tools/hex2bfn/hex2bfn.py:45-46 | the offset a codepoint's slot holds after k lines: the last record for it, or 0; `FileSlots` shows the file holds it |
| `FontCompiler.RecordByte` | tools/hex2bfn/hex2bfn.py:41-48 | byte t of line j's record is at Offset(j) + t in the file after every later line |
| `FontCompiler.NoRecordNoSlot` | tools/hex2bfn/hex2bfn.py:45-46 | before any record is written, every slot's offset is 0 |
| `FontCompiler.IsSpace` | tools/hex2bfn/hex2bfn.py:34 | the ASCII whitespace `bytes.fromhex` skips between pairs and `int` strips around an ASCII string |
| `FontCompiler.TrimStart` | tools/hex2bfn/hex2bfn.py:10 | the leading whitespace `int` skips; `TrimStartStrips` states what is left |
| `FontCompiler.TrimEnd` | tools/hex2bfn/hex2bfn.py:10 | the trailing whitespace `int` skips; `TrimEndStrips` states what is left |
| `FontCompiler.TrimStartStrips` | tools/hex2bfn/hex2bfn.py:10 | the text left is the longest suffix not starting with ASCII whitespace, and every character dropped is ASCII whitespace |
| `FontCompiler.TrimEndStrips` | tools/hex2bfn/hex2bfn.py:10 | the text left is the longest prefix not ending with ASCII whitespace, and every character dropped is ASCII whitespace |
| `FontCompiler.SeparatorNotStripped` | tools/hex2bfn/hex2bfn.py:10 | a separator U+001C..U+001F before or after the hex digits makes `int(s, 16)` a ValueError |
| `FontCompiler.HexOrSeparator` | tools/hex2bfn/hex2bfn.py:10 | the characters of the number part of `int(s, 16)`: hex digits and underscores |
| `FontCompiler.HexValue` | tools/hex2bfn/hex2bfn.py:10 | the value of the hex digits, most significant first, with underscores skipped; `HexTextValue` and `HexValueSkipsUnderscore` state it |
| `FontCompiler.Grouped` | tools/hex2bfn/hex2bfn.py:10 | the digit groups `int(s, 16)` accepts: hex digits, with single underscores only between two digits |
| `FontCompiler.SignSplit` | tools/hex2bfn/hex2bfn.py:10 | the optional '+' or '-' `int` accepts before the digits |
| `FontCompiler.AfterPrefix` | tools/hex2bfn/hex2bfn.py:10 | the optional "0x" or "0X" prefix base 16 accepts, with the one underscore that may follow it |
| `FontCompiler.HexInt` | tools/hex2bfn/hex2bfn.py:10 | `int(s, 16)`: surrounding ASCII whitespace, sign, prefix and grouped digits, anything else a ValueError; `HexIntSigned` and `HexIntPrefixed` state what it reads |
| `FontCompiler.HexIntSigned` | tools/hex2bfn/hex2bfn.py:10 | grouped hex digits read as their value, and with a '-' in front as its negation |
| `FontCompiler.HexIntPrefixed` | tools/hex2bfn/hex2bfn.py:10 | a '+', a "0x" prefix and the underscore after it leave the value of the digits unchanged |
| `FontCompiler.HexValueSkipsUnderscore` | tools/hex2bfn/hex2bfn.py:10 | an underscore between two runs of digits does not change their value |
| `FontCompiler.HexTextGrouped` | tools/hex2bfn/hex2bfn.py:10 | the hex text of n is a group `int(s, 16)` accepts, worth n |
| `FontCompiler.ParseHexInt` | tools/hex2bfn/hex2bfn.py:10 | the codepoint of a line: the value `int(s, 16)` reads when it is not negative; `ParseHexText` shows every hex text reads back |
| `FontCompiler.ParseHexText` | tools/hex2bfn/hex2bfn.py:10 | the hex text of any n parses back as n |
| `FontCompiler.FromHex` | tools/hex2bfn/hex2bfn.py:34 | `bytes.fromhex`: pairs of hex digits with whitespace between pairs, anything else a ValueError; `FromHexByteText` shows it inverts two digits per byte |
| `FontCompiler.Halves` | tools/hex2bfn/hex2bfn.py:9 | `line.split(":")` unpacked into two names: the text around the line's only ':', or a ValueError; `HalvesSplit` states it |
| `FontCompiler.HalvesAt` | tools/hex2bfn/hex2bfn.py:9 | a line a ':' b with no other ':' splits into a and b |
| `FontCompiler.Codepoint` | tools/hex2bfn/hex2bfn.py:9-10 | the first pass over one line: the codepoint, or a ValueError from the split or the parse |
| `FontCompiler.GlyphOk` | tools/hex2bfn/hex2bfn.py:31-34 | the second pass gets through a line: its glyph text is empty or decodes as hex |
| `FontCompiler.DecodeLine` | tools/hex2bfn/hex2bfn.py:30-34 | the line as the second pass sees it: its codepoint and no glyph for an empty text, else the decoded bytes |
| `FontCompiler.LineHalves` | tools/hex2bfn/hex2bfn.py:30-34 | a line the first pass accepted splits, and its codepoint, glyph and second-pass check are read from its two halves |
| `FontCompiler.ParseLine` | tools/hex2bfn/hex2bfn.py:9-34 | a line read in full by both passes, or None; `ParseFormatted` shows it inverts `FormatLine` |
| `FontCompiler.Scannable` | tools/hex2bfn/hex2bfn.py:8-11 | every line gets through the first pass; `LargestCodepoint` returns a value exactly for such texts |
| `FontCompiler.LineReads` | tools/hex2bfn/hex2bfn.py:28-34 | the second pass reads a line as the given decoded line and check |
| `FontCompiler.ReadsAll` | tools/hex2bfn/hex2bfn.py:28-34 | every line of a text the first pass accepted reads as its decoded form |
| `FontCompiler.SecondPass` | tools/hex2bfn/hex2bfn.py:28-48 | the second pass's outcome from line k: a ValueError or OverflowError at the first line that raises it, else Written; `SecondPassWritten` states when it is Written |
| `FontCompiler.Run` | tools/hex2bfn/hex2bfn.py:6-48 | the script's outcome: the first pass's ValueError, an OverflowError for the header, then the second pass's; `RunWritten` states when it writes the font |
| `FontCompiler.PassAt` | tools/hex2bfn/hex2bfn.py:28-48 | the invariant of the second pass before line i: the first i lines written, the cursor at Offset(i), the file FileAfter(i) |
| `FontCompiler.Digit` | tools/hex2bfn/hex2bfn.py:10 | the lower-case hex digit of a value below 16, which reads back as that value |
| `FontCompiler.HexText` | tools/hex2bfn/hex2bfn.py:10 | the hex digits of n, a non-empty run of hex digits; `ParseHexText` shows it reads back as n |
| `FontCompiler.ByteText` | tools/hex2bfn/hex2bfn.py:34 | two hex digits per byte; `FromHexByteText` shows `bytes.fromhex` reads them back |
| `FontCompiler.FormatLine` | tools/hex2bfn/hex2bfn.py:28-34 | the `.hex` line of a glyph, "codepoint:bytes" and a newline, or "codepoint:" for a skip; `ParseFormatted` shows it reads back |
| `FontCompiler.SlotPosAsWritten` | tools/hex2bfn/hex2bfn.py:45 | where the script seeks for a codepoint's slot, negative codepoints included |
| `FontCompiler.StepAsWritten` | tools/hex2bfn/hex2bfn.py:40-46 | a record-producing step as written for any integer codepoint: no result exactly when the slot position is negative (codepoint below -4), and for a codepoint of at least 0 the intended `Step` |
| `FontCompiler.NegativeCodepointReads` | tools/hex2bfn/hex2bfn.py:9-11 | a codepoint '-' before digits worth more than 0 splits off, and `int(s, 16)` reads it as the negative value, which the corrected parse rejects |
| `FontCompiler.NegativeCodepointAsWritten` | tools/hex2bfn/hex2bfn.py:41-46 | as written, codepoint -1 in a font whose largest codepoint is 0 writes its record offset 20 into the header's reserved word; codepoint -5 seeks before the file and raises |
| `FontReader.GlyphDimension` | boot/font/font.c:86-96 | with a font loaded, a successful answer is 16 high and 8 or 16 wide (the width of each compiled glyph is fixed by `FontRoundTrip.RecordReadsBack`) |
| `FontReader.GlyphData` | boot/font/font.c:117-126 | the lookup with the codepoint checked first: a successful answer is 16 or 32 bytes and fits the buffer (its content is fixed by `FontRoundTrip.GlyphRoundTrip`) |
| `FontReader.GlyphDataAsWritten` | boot/font/font.c:117-126 | as written, loading the slot before comparing the codepoint: wherever that load stays inside the file, the outcome equals the checked-first lookup |
| `FontReader.FontState.constructor` | boot/font/font.c:13-14 | no font is loaded at start |
| `FontReader.FontState.Use` | boot/font/font.c:29-75 | NULL unloads; a missing file is UnknownError; a wrong signature is InvalidSignature with the old font kept; a failed allocation leaves no font with UnknownError; a failed read leaves no font with Success; otherwise the file is loaded |
| `FontReader.FontState.Dimension` | boot/font/font.c:77-100 | 8x16 with no font loaded, otherwise the loaded glyph's dimension |
| `FontReader.FontState.Data` | boot/font/font.c:102-130 | with no font, a buffer below 16 bytes is InvalidValue, else the CP437 conversion's outcome decides; with a font the loaded glyph is copied to the front of the buffer and the rest is kept, or the error is returned with the buffer untouched; with the BIOS font, the CP437 glyph's 16 bytes are copied |
| `FontReader.HasSignature` | boot/font/font.c:52-58 | the check of `font_use`: the first four bytes spell "bfnt"; `FontRoundTrip.HeaderReadsBack` shows the compiler's header passes it |
| `FontReader.MaxCodepoint` | boot/font/font.c:16-21 | the header's largest codepoint, the little-endian word at offset 4 |
| `FontReader.TableOffset` | boot/font/font.c:16-21 | the header's offset of the slot table, the little-endian word at offset 8 |
| `FontReader.SlotPos` | boot/font/font.c:88 | where a codepoint's slot lies: the table offset plus four bytes per codepoint |
| `FontReader.SlotReadable` | boot/font/font.c:88 | the slot of the codepoint lies inside the loaded data |
| `FontReader.GlyphOffset` | boot/font/font.c:119 | the record offset a codepoint's slot holds; `FontRoundTrip.SlotOfLast` states what the compiler put there |
| `FontReader.IsFullWidth` | boot/font/font.c:23-27 | the full-width bit, bit 0 of the record's first byte |
| `FontReader.GlyphSize` | boot/font/font.c:123-126 | the bitmap bytes of a glyph: 32 when full width, else 16 |
| `FontReader.DimensionReadable` | boot/font/font.c:88-92 | every byte `font_get_glyph_dimension` reads lies inside the data |
| `FontReader.DataReadable` | boot/font/font.c:119-126 | every byte `font_get_glyph_data` reads, when it checks the codepoint first, lies inside the data |
| `FontReader.DataReadableAsWritten` | boot/font/font.c:119-126 | every byte `font_get_glyph_data` as written reads lies inside the data, the slot included whatever the codepoint |
| `FontRoundTrip.HeaderReadsBack` | boot/font/font.c:16-21 | the compiled header passes the signature check and reads back its largest codepoint and table offset |
| `FontRoundTrip.GlyphRoundTrip` | boot/font/font.c:117-126 | for the last line carrying a codepoint with a 16- or 32-byte glyph, the reader returns exactly that glyph and the width matching its size |
| `FontRoundTrip.SlotOfLast` | tools/hex2bfn/hex2bfn.py:45-46 | the slot of the last line carrying a codepoint holds that line's record offset |
| `FontRoundTrip.RecordReadsBack` | boot/font/font.c:121-126 | a record the compiler wrote reads back as its glyph, with the width bit matching its size |
| `FontRoundTrip.MissingGlyphRejected` | boot/font/font.c:119-120 | a codepoint no line gave a glyph for is InvalidValue once the font holds any glyph |
| `FontRoundTrip.SlotLoadedBeforeCheck` | boot/font/font.c:119-120 | for the font compiled from one 16-byte glyph at 0x41, codepoint 0x100 makes the as-written lookup load a slot past the end of the 300-byte file, where the checked-first lookup answers InvalidValue |
| `FontRoundTrip.LastOffsetOfLast` | tools/hex2bfn/hex2bfn.py:45-46 | the slot of a codepoint whose record no later line replaces holds that record's offset |
| `Gmtime.CDiv` | boot/stdc/time/gmtime.c:8-12 | C's `/` truncates toward zero: floor division for non-negative dividends, the negated quotient of the magnitude otherwise |
| `Gmtime.CRem` | boot/stdc/time/gmtime.c:7-11 | C's `%`: dividend = quotient * divisor + remainder, with the remainder in 0..b-1 for non-negative dividends and in -(b-1)..0 otherwise |
| `Gmtime.DaysInMonth` | boot/stdc/time/gmtime.c:32 | every month of the reference calendar has 28 to 31 days |
| `Gmtime.DaysBeforeMonth` | boot/stdc/time/gmtime.c:34-39 | the days of a year before month m lie in 0..31(m-1) |
| `Gmtime.EraIsFloor` | boot/stdc/time/gmtime.c:16 | shifting negative days by 146096 before the truncating division gives floor division by 146097 |
| `Gmtime.YearOfEraBounds` | boot/stdc/time/gmtime.c:19 | the year-of-era formula yields the year 0..399 whose March-based days contain the day |
| `Gmtime.LastDayOfEra` | boot/stdc/time/gmtime.c:19 | the last day of an era falls on the leap day closing its year 399 |
| `Gmtime.MonthBounds` | boot/stdc/time/gmtime.c:24 | the month index (5 doy + 2) / 153 is 0..11 and its month's days contain the day |
| `Gmtime.DayOfEra` | boot/stdc/time/gmtime.c:14-17 | the day of the era lies in 0..146096 and is the day's distance from the start of its era |
| `Gmtime.DayOfYearOfEra` | boot/stdc/time/gmtime.c:19-22 | the day of the March-based year lies inside that year and is the day's distance from the year's start |
| `Gmtime.CivilFromDays` | boot/stdc/time/gmtime.c:14-30 | the date found has a month 1..12 and a day inside that month |
| `Gmtime.CivilOfEraDay` | boot/stdc/time/gmtime.c:24-28 | month and day found from the day of a March-based year are a valid date, keeping that day of year |
| `Gmtime.MonthLengths` | boot/stdc/time/gmtime.c:24-26 | the March-based months have the reference calendar's lengths, February that of the year it falls in |
| `Gmtime.LeapInEraIsLeap` | boot/stdc/time/gmtime.c:19-22 | a March-based year of the era ends with a 29 February exactly when the next January-based year is leap |
| `Gmtime.DaysBeforeYearShift` | boot/stdc/time/gmtime.c:20 | whole eras add 146097 days each to the days before a year |
| `Gmtime.CivilRoundTrip` | boot/stdc/time/gmtime.c:14-30 | the date found for a day names that same day in the reference calendar |
| `Gmtime.YearInRange` | boot/stdc/time/gmtime.c:28 | for every covered time the year fits the 32-bit `tm_year` |
| `Gmtime.DaysOf` | boot/stdc/time/gmtime.c:7-12 | for covered times the day count fits well inside 64 bits |
| `Gmtime.GmTimeR` | boot/stdc/time/gmtime.c:3-40 | gmtime_r as written: month 0..11, a day inside that month, a 32-bit year, and seconds, minutes and hours in range for non-negative times |
| `Gmtime.RoundTrip` | boot/stdc/time/gmtime.c:3-40 | the broken-down time gmtime_r gives names exactly the second it was given |
| `Gmtime.YdayOneShort` | boot/stdc/time/gmtime.c:32-39 | from March on tm_yday is one less than the days since 1 January, and in January and February it equals them |
| `Gmtime.YdayOfCivil` | boot/stdc/time/gmtime.c:34-39 | tm_yday as written against the days since 1 January of a date, for its March-based day |
| `Gmtime.MarchFirstYday` | boot/stdc/time/gmtime.c:38 | 1970-03-01 gets tm_yday 58, the same as 1970-02-28, where the intended conversion gives 59 |
| `Gmtime.GmTimeIntended` | boot/stdc/time/gmtime.c:3-40 | gmtime_r with floor division and tm_yday counted from 1 January: every field in range, and tm_yday equal to the days since 1 January |
| `Gmtime.IntendedRoundTrip` | boot/stdc/time/gmtime.c:3-40 | the corrected broken-down time names exactly the second it was given |
| `Gmtime.NegativeTimeOutOfRange` | boot/stdc/time/gmtime.c:7-11 | for -60 < t < 0 gmtime_r as written gives 1970-01-01 00:00 with tm_sec = t, where one second before the epoch is 1969-12-31 23:59:59 |
| `Gmtime.AsWrittenBeforeEpoch` | boot/stdc/time/gmtime.c:7-12 | for -60 < t < 0 gmtime_r as written gives 1970-01-01 00:00 with a negative tm_sec |
| `Gmtime.IntendedBeforeEpoch` | boot/stdc/time/gmtime.c:7-12 | the corrected conversion of -1 is 1969-12-31 23:59:59, day 364 of the year |
| `Gmtime.IsLeap` | boot/stdc/time/gmtime.c:32 | the Gregorian leap-year rule the source's `is_leap` tests |
| `Gmtime.DaysBeforeYear` | boot/stdc/time/gmtime.c:14-30 | the reference calendar: days from 0000-01-01 to 1 January of a year; `DaysBeforeYearInEra` and `DaysBeforeYearShift` relate it to the era arithmetic |
| `Gmtime.DaysFromCivil` | boot/stdc/time/gmtime.c:14-30 | the reference day number of a proleptic Gregorian date, counted from 1970-01-01; `CivilRoundTrip` shows the conversion inverts it |
| `Gmtime.EraOf` | boot/stdc/time/gmtime.c:16 | the era of a March-based day as the source computes it with truncating division; `EraIsFloor` shows it is floor division |
| `Gmtime.EraOfDay` | boot/stdc/time/gmtime.c:14-16 | the era of a day counted from the epoch, after the shift by 719468 |
| `Gmtime.YearOfEra` | boot/stdc/time/gmtime.c:19 | the year-of-era formula; `YearOfEraBounds` shows it finds the year holding the day |
| `Gmtime.YearStart` | boot/stdc/time/gmtime.c:22 | days of the era's March-based years before a year of the era |
| `Gmtime.LeapInEra` | boot/stdc/time/gmtime.c:19-22 | the March-based year of the era ends with a 29 February; `LeapInEraIsLeap` ties it to `IsLeap` |
| `Gmtime.MonthStart` | boot/stdc/time/gmtime.c:25 | days of a March-based year before a month index; `MonthBounds` and `MonthLengths` state it |
| `Gmtime.CenturySplit` | boot/stdc/time/gmtime.c:19 | a day of an era before its last splits into centuries of 36524 days, four-year runs of 1461 days and a rest |
| `Gmtime.YearOfEraSplit` | boot/stdc/time/gmtime.c:19 | the year-of-era formula counts 100 years per century, 4 per run and the whole years of the rest |
| `Gmtime.YearStartSplit` | boot/stdc/time/gmtime.c:19-22 | the year the formula finds begins at or before the day and ends after it |
| `Gmtime.EraShift` | boot/stdc/time/gmtime.c:20 | whole eras of 400 years do not change whether a year is leap |
| `Gmtime.DaysBeforeYearInEra` | boot/stdc/time/gmtime.c:19-22 | within an era, the January-based and March-based starts of a year differ by its January and February |
| `Gmtime.DaysBeforeMonthFromMarch` | boot/stdc/time/gmtime.c:24-26 | days before a January-based month from the March-based month index |
| `Gmtime.DateOfEraDay` | boot/stdc/time/gmtime.c:20-28 | the date built from an era, a year of it and a day of that year has the day number those give |
| `Gmtime.MarchToDecember` | boot/stdc/time/gmtime.c:24-28 | a date from March to December, in day numbers, from its era, year of the era and month |
| `Gmtime.JanuaryFebruary` | boot/stdc/time/gmtime.c:24-28 | a date in January or February, in day numbers, from its era and the March-based year before |
| `Gmtime.DayOfYear` | boot/stdc/time/gmtime.c:32-39 | the days since 1 January of a date, from its day of the March-based year |
| `Gmtime.YearNearEra` | boot/stdc/time/gmtime.c:20-28 | the year of a day's date lies within one era of the day's era |
| `Gmtime.TimeOf` | boot/stdc/time/gmtime.c:7-30 | the second a broken-down time names; `RoundTrip` and `IntendedRoundTrip` show the conversions invert it |
| `Gmtime.YdayAsWritten` | boot/stdc/time/gmtime.c:32-39 | tm_yday as the source computes it; `YdayOneShort` shows it is one short from March on |
| `Gmtime.MarchAsWritten` | boot/stdc/time/gmtime.c:34-39 | as written, 1970-03-01 gets tm_yday 58 |
| `Gmtime.FebruaryAsWritten` | boot/stdc/time/gmtime.c:34-36 | as written, 1970-02-28 also gets tm_yday 58 |
| `Gmtime.MarchIntended` | boot/stdc/time/gmtime.c:34-39 | the intended conversion gives 1970-03-01 tm_yday 59 |
| `Gmtime.MarchFirst` | boot/stdc/time/gmtime.c:14-28 | day 59 after the epoch is 1970-03-01 |
| `Gmtime.LastOfFebruary` | boot/stdc/time/gmtime.c:14-28 | day 58 after the epoch is 1970-02-28 |
| `Gmtime.EpochDay` | boot/stdc/time/gmtime.c:14-28 | day 0 is 1970-01-01 |
| `Gmtime.DayBeforeEpoch` | boot/stdc/time/gmtime.c:14-28 | day -1 is 1969-12-31 |
| `Gmtime.UnderAMinute` | boot/stdc/time/gmtime.c:7-12 | less than a minute before the epoch, the truncating `%` and `/` leave all of it in the seconds and the day count at 0 |
| `Gmtime.GmTimeRUnfold` | boot/stdc/time/gmtime.c:7-39 | gmtime_r's fields, one by one, from the truncating divisions and the date of the day count |
| `ShellParse.ByteChar` | boot/shell/parse.c:92 | `(char)v` is below 256 and agrees with v modulo 256 |
| `ShellParse.ControlEscape` | boot/shell/parse.c:59-82 | a letter escape stands for a control character and is not one of the literal escapes |
| `ShellParse.SkipBlanks` | boot/shell/parse.c:20-22 | the scan passes only spaces and tabs and stops at the first other character |
| `ShellParse.EscapeStep` | boot/shell/parse.c:49-106 | an escape pushes at most one character and reading moves forward |
| `ShellParse.NextStep` | boot/shell/parse.c:26-107 | one loop turn pushes at most one character and moves forward, and stops exactly at a blank outside quotes |
| `ShellParse.Scan` | boot/shell/parse.c:26-107 | the loop ends at the end of the line or at a blank, having pushed no more characters than it passed |
| `ShellParse.Spec` | boot/shell/parse.c:15-115 | shell_parse as written: it writes no more than buflen characters, returns NULL for a blank line, and otherwise a position past the token's start at the end of the line or a blank |
| `ShellParse.Stored` | boot/shell/parse.c:5-13 | the buffer gets the token and a NUL when it fits, else the first buflen characters of the token |
| `ShellParse.Escape` | boot/shell/parse.c:49-106 | the escape code returns exactly the characters and position of EscapeStep |
| `ShellParse.Advance` | boot/shell/parse.c:27-106 | the switch and escape code return exactly NextStep |
| `ShellParse.Parse` | boot/shell/parse.c:15-115 | the method returns Spec's position and writes Spec's characters to the front of the buffer, leaving the rest untouched |
| `ShellParse.CopyToken` | boot/shell/parse.c:26-114 | the loop returns the end of the token when it fits and NULL otherwise, and the buffer holds what Stored says |
| `ShellParse.PushStep` | boot/shell/parse.c:26-107 | one turn stops at a blank outside quotes, gives up when there is no room for a character, or pushes what the step emits and moves on |
| `ShellParse.ScanStep` | boot/shell/parse.c:26-107 | the pushed characters followed by the rest of the scan stay the same after one more step |
| `ShellParse.Unquoted` | boot/shell/parse.c:28-32 | the characters with quotes removed: none is a quote and there are no more than before |
| `ShellParse.QuotesDropped` | boot/shell/parse.c:28-47 | without backslashes, the token is the text it spans with every quote character dropped |
| `ShellParse.EscapeChar` | boot/shell/parse.c:49-58 | an escaped character is written as one or two characters that do not start with a blank |
| `ShellParse.EscapeCharStep` | boot/shell/parse.c:49-58 | one escaped character reads back as itself outside quotes |
| `ShellParse.HeldScan` | boot/shell/parse.c:26-107 | escapes held in the line read back as the characters they escape |
| `ShellParse.EscapedRoundTrip` | boot/shell/parse.c:15-115 | a non-empty string escaped without letter escapes and followed by nothing or a blank parses into itself and a NUL, ending after the escaped text |
| `ShellParse.LetterEscapeRepeats` | boot/shell/parse.c:59-82 | as written "\n" gives a newline followed by 'n', so a string holding a newline, escaped by letter, does not read back |
| `ShellParse.LetterEscapesRoundTrip` | boot/shell/parse.c:59-82 | with the letter stepped over, every string escaped with letters reads back |
| `ShellParse.StrToLDigits` | boot/shell/parse.c:91-101 | strtol on a run of octal or hex digits fitting a long reads their value and ends after them |
| `ShellParse.OctalEscape` | boot/shell/parse.c:83-95 | an octal escape pushes the low byte of its digits' value and reading goes on after them |
| `ShellParse.HexEscape` | boot/shell/parse.c:96-102 | "\x" and hex digits push the low byte of their value and reading goes on after them |
| `ShellParse.Blank` | boot/shell/parse.c:20 | the characters skipped before a token and ending an unquoted one: space and tab |
| `ShellParse.IsQuote` | boot/shell/parse.c:28-29 | the two quote characters, which toggle quoting and are dropped (`Unquoted`) |
| `ShellParse.IsLiteralEscape` | boot/shell/parse.c:51-58 | the escapes that stand for the character after the backslash itself |
| `ShellParse.Fits` | boot/shell/parse.c:5-13 | a token fits the characters lent when it is no longer than a positive `buflen`, the case `Stored` gives it whole |
| `ShellParse.Terminate` | boot/shell/parse.c:109-112 | the buffer ends up holding what Stored says (the token, and a NUL when a character of room remains) and nothing else changes |
| `ShellParse.ScanStopped` | boot/shell/parse.c:36-42 | the loop leaves at a blank outside quotes having pushed nothing more |
| `ShellParse.ScanGo` | boot/shell/parse.c:26-107 | a turn that pushes characters and moves on gives them followed by the rest of the scan |
| `ShellParse.ControlLetter` | boot/shell/parse.c:59-82 | the letter escaping a control character reads back, through the escape table, as that character and is not a literal escape |
| `ShellParse.Escaped` | boot/shell/parse.c:49-106 | a string written with each character escaped, never shorter; `EscapedRoundTrip` shows the parser reads it back |
| `ShellParse.ScanStop` | boot/shell/parse.c:26-42 | the loop stops at the end of the line and at a blank outside quotes, pushing nothing |
| `ShellParse.WrittenAt` | boot/shell/parse.c:49-58 | the one or two characters of an escape stand in the line at a position |
| `ShellParse.ScanCons` | boot/shell/parse.c:26-107 | a turn that pushes one character, then the rest of the scan, gives that character followed by the rest |
| `ShellParse.ScanEscapedChar` | boot/shell/parse.c:33-106 | an escaped character in the line is read back as itself, followed by the rest of the scan |
| `ShellParse.Holds` | boot/shell/parse.c:26-107 | the line holds the escapes of a string one after another up to a position at its end or a blank |
| `ShellParse.EscapedHolds` | boot/shell/parse.c:26-107 | an escaped string written in the line and followed by its end or a blank is held there |
| `ShellParse.LeadingZero` | boot/shell/parse.c:83-94 | a leading '0' does not change the value of a numeral, so an octal escape's first digit counts as a digit |
| `ShellParse.OctalStep` | boot/shell/parse.c:83-95 | the escape step on an octal digit is strtol in base 8 from that digit: the low byte of its value, with reading going on where strtol stopped |
| `ShellParse.HexStep` | boot/shell/parse.c:96-102 | the escape step on 'x' is strtol in base 16 from the next character |
| `ShellParse.OctalDigit` | boot/shell/parse.c:83-90 | the digits of base 8 are '0' to '7' |
| `Path.Find` | boot/core/path.c:11 | `strchr`: the first occurrence at or after the start, with none before it, or the end when there is none |
| `Path.Truncated` | boot/core/path.c:14-16 | an element keeps at most FILENAME_MAX - 1 characters, a prefix of the text, and the whole text when it is shorter |
| `Path.Start` | boot/core/path.c:5-21 | the cursor goes just past the first ':' with the (truncated) text before it as the element, or stays at 0 with an empty element when there is no ':' |
| `Path.NextStep` | boot/core/path.c:23-52 | a step records whether the cursor was on '/', passes it, yields the truncated text up to the next '/' or the end, leaves the cursor on that '/', and reports the end exactly when the cursor reached it |
| `Path.Iterator.constructor` | boot/core/path.c:5-21 | `path_iter_init` leaves the cursor and element of Start and no separator |
| `Path.Iterator.Next` | boot/core/path.c:23-52 | `path_iter_next` leaves the separator flag, element, cursor and end flag of NextStep |
| `Path.StepIsSegment` | boot/core/path.c:23-52 | without truncation one step passes exactly its separator and its element |
| `Path.RebuildRest` | boot/core/path.c:23-52 | without truncation the steps from any cursor give back the rest of the path |
| `Path.IterationRebuildsPath` | boot/core/path.c:5-52 | initialising and stepping to the end visits the whole path: the filesystem name and ':', then every separator and element |
| `Path.AbsoluteMeans` | boot/core/path.c:268-280 | a path is absolute exactly when it starts with '/', or its first ':' is followed by '/' or ends the path |
| `Path.AbsoluteByFirstStep` | boot/core/path.c:268-280 | absoluteness as the iterator sees it: the first step after the filesystem name crosses a separator, or the path ends at the ':' |
| `Path.StrNLen` | boot/core/path.c:56 | `strnlen`: the first NUL among the first n characters, or n |
| `Path.JoinSpec` | boot/core/path.c:54-74 | `path_join` as written changes nothing from `len` on and keeps the string already in `dest` |
| `Path.Join` | boot/core/path.c:54-74 | the buffer after the method is JoinSpec of the buffer before |
| `Path.CopySource` | boot/core/path.c:64-67 | the copy loop moves characters of `src` while the count stays above the string's length |
| `Path.JoinFits` | boot/core/path.c:54-74 | when the joined path fits with its terminator, the buffer holds the C string dest + "/" + src |
| `Path.JoinLosesTerminator` | boot/core/path.c:69-71 | "abc" in a 4-character buffer joined with "" becomes "abc/" with no NUL left within the buffer |
| `Path.JoinIntended` | boot/core/path.c:54-74 | the join with room kept for the NUL changes nothing from `len` on |
| `Path.JoinIntendedTerminates` | boot/core/path.c:54-74 | the corrected join always leaves a C string within `len`: the old string, then '/' and the longest prefix of `src` that fits, and equals `path_join` where everything fits |
| `Path.JoinIntendedAgrees` | boot/core/path.c:54-74 | where the string, '/', `src` and the NUL fit, the corrected join writes what `path_join` writes |
| `Path.Elements` | boot/core/path.c:104-202 | the elements the loop visits begin with the element of the first step |
| `Path.KeptIsFilter` | boot/core/path.c:117-119 | an element is kept exactly when it occurs and is neither empty nor "." |
| `Path.KeptAppend` | boot/core/path.c:117-119 | filtering a concatenation filters each part |
| `Path.ElementsPlain` | boot/core/path.c:37-49 | no element the iterator yields holds a '/' |
| `Path.VisitSound` | boot/core/path.c:117-200 | visiting an element keeps the stack of written elements well formed |
| `Path.FoldSound` | boot/core/path.c:104-202 | folding the elements of a path keeps the stack well formed |
| `Path.RenderLast` | boot/core/path.c:121-200 | the output for a stack ends with its last element and the trailing '/' a ".." left |
| `Path.RenderLonger` | boot/core/path.c:121-200 | the output for a stack with elements is longer than the filesystem part |
| `Path.AppendRender` | boot/core/path.c:192-200 | appending an element writes a '/' exactly when the output is non-empty and does not end in '/', which is the output for the stack with the element pushed |
| `Path.StrCpy` | boot/core/path.c:98 | `strcpy` writes the characters and a NUL and leaves the rest |
| `Path.AppendElement` | boot/core/path.c:192-200 | the element step: when the result fits, the output becomes the old output, a '/' unless it is empty or ends in one, and the element; the last position is never touched |
| `Path.DotDot` | boot/core/path.c:121-190 | the ".." step: on the output for a stack it leaves the output for Up of that stack (the last element removed, the root kept, or ".." appended to a relative path); the filesystem part and the last position are untouched |
| `Path.ScanBack` | boot/core/path.c:124-132 | the backward scan passes one '/' at the end, then only non-'/' characters, and stops on a '/' or at the floor |
| `Path.ScanLands` | boot/core/path.c:124-132 | on the output for a stack, the scan stops on the '/' before the last element, or at the floor when that element reaches it |
| `Path.UpAbsolute` | boot/core/path.c:122-154 | the ".." of an absolute path removes the last element and keeps the '/' before it, or rewrites the root '/' after the filesystem name when nothing remains |
| `Path.AbsoluteLands` | boot/core/path.c:122-154 | the scan of an absolute ".." lands where the stack's last element starts, and the root is written again when nothing is left |
| `Path.UpInFilesystem` | boot/core/path.c:155-178 | the ".." of a relative path after a filesystem name removes the last element, or appends ".." when there is none |
| `Path.FilesystemLands` | boot/core/path.c:155-172 | that scan lands where the last element starts, or just after the ':' when the element is the first |
| `Path.FilesystemEmpty` | boot/core/path.c:173-178 | with no element to remove after a filesystem name, ".." is appended |
| `Path.UpRelative` | boot/core/path.c:179-188 | the ".." of a relative path without a filesystem name appends "/.." or "..", room permitting |
| `Path.RelativeUp` | boot/core/path.c:179-188 | without a filesystem name a relative ".." appends "/.." to a non-empty output and ".." to an empty one |
| `Path.ProcessElement` | boot/core/path.c:117-200 | one element: on the output for a stack it leaves the output for the stack after visiting it (skip, ".." step or append) |
| `Path.PutDots` | boot/core/path.c:174-177 | ".." is appended when it leaves room before the last position, and nothing changes otherwise |
| `Path.PutSlash` | boot/core/path.c:107-115 | the root '/' of an absolute path is written when there is room before the last position |
| `Path.WalkStep` | boot/core/path.c:104-202 | one pass of the do-while loop: one iterator step, the root '/' on the first pass, then the element, keeping the output equal to the form of the stack so far |
| `Path.TakeStep` | boot/core/path.c:105 | an iterator step yields the first remaining element and leaves the others to come |
| `Path.Walk` | boot/core/path.c:103-202 | the do-while loop: the output stays a C string within `len`, and when everything fits it is the form of the stack the elements leave |
| `Path.FinishedRender` | boot/core/path.c:204-213 | on the output for a stack, the end of `path_normalize` drops exactly a trailing '/' a ".." left (never the root) and writes "." exactly when nothing is there |
| `Path.Finish` | boot/core/path.c:204-219 | the end of `path_normalize` always leaves a C string within `len`, which is the closed form of the stack when everything fits |
| `Path.WalkAndFinish` | boot/core/path.c:103-219 | the loop and the end together leave a C string within `len`, the closed form of the final stack when everything fits |
| `Path.FitsPrefix` | boot/core/path.c:91-101 | what fits leaves room for the filesystem name, its ':' and two more characters |
| `Path.WriteFsName` | boot/core/path.c:91-101 | the name and ':' are written when they leave room before the last position; otherwise the result is the empty string |
| `Path.WritePrefix` | boot/core/path.c:83-101 | the filesystem part is written when the first element names one, or the empty string is returned when it does not fit |
| `Path.NormalizeElements` | boot/core/path.c:103-222 | after the filesystem part the output is a C string within `len`, and the normal form whenever everything fits |
| `Path.Normalize` | boot/core/path.c:76-222 | `path_normalize` returns NULL exactly for `len` 0, never writes from `len` on, always leaves a C string, and leaves the normal form whenever everything it writes fits |
| `Path.Normalized` | boot/core/path.c:76-222 | the normal form is never empty: the filesystem part, a leading '/' for absolute paths, the elements left after skipping and ".." steps, or "." |
| `Path.FoldWithoutDotDot` | boot/core/path.c:117-200 | without "..", the stack holds exactly the elements that are neither empty nor ".", in order |
| `Path.FoldGrows` | boot/core/path.c:192-200 | without "..", each element leaves the output at least as long |
| `Path.Grows` | boot/core/path.c:104-202 | without "..", the final output is at least as long as the output at any point on the way |
| `Path.FitsWithoutDotDot` | boot/core/path.c:76-222 | a path without ".." fits as soon as its normal form does with two characters to spare |
| `Path.DotDotExample` | boot/core/path.c:121-154 | "/a/b/../c" normalizes to "/a/c" |
| `Path.NoNul` | boot/core/path.c:31 | the characters of a C string: none is NUL before the end, which is where `*p == '\0'` stops the iterator |
| `Path.Iterator.Valid` | boot/core/path.c:5-21 | the iterator's cursor stays within the path and its element within the FILENAME_MAX buffer |
| `Path.NextStepAt` | boot/core/path.c:23-52 | a step from a cursor whose segment starts at p and ends at the next '/' is the separator flag, the truncated segment, that '/' and whether it is the end |
| `Path.ShortSegments` | boot/core/path.c:14-16 | no run of FILENAME_MAX characters without '/', the condition under which no element is cut (`StepIsSegment`, `RebuildRest`) |
| `Path.SegmentEnd` | boot/core/path.c:37-45 | where a segment ends: the next '/' or the end of the path |
| `Path.Rebuild` | boot/core/path.c:23-52 | the separators and elements the steps from a cursor yield, in order; `RebuildRest` shows it is the rest of the path |
| `Path.NameColonRest` | boot/core/path.c:11-17 | the text before the first ':', the ':' and the text after it make up the path |
| `Path.IsAbsolute` | boot/core/path.c:268-280 | `path_is_absolute`; `AbsoluteMeans` and `AbsoluteByFirstStep` state when it holds |
| `Path.JoinWritten` | boot/core/path.c:54-74 | the buffer after `path_join`'s writes (the string, '/', the copied prefix of `src`, possibly a NUL, and the old contents after) is JoinSpec of the old buffer |
| `Path.CString` | boot/core/path.c:56 | the C string in a buffer of `len` usable characters: no NUL inside, shorter than `len`, and followed by a NUL; none when no NUL is within `len` |
| `Path.FindFirst` | boot/core/path.c:11 | the first occurrence of a character is where `strchr` from the start stops |
| `Path.JoinSpecWithRoom` | boot/core/path.c:54-74 | with room for all of `src`, `path_join` writes '/', `src` and a NUL after the string and keeps the rest |
| `Path.JoinIntendedWithRoom` | boot/core/path.c:54-74 | with room for all of `src`, the corrected join writes the same '/', `src` and NUL |
| `Path.Skipped` | boot/core/path.c:117-119 | the elements `path_normalize` skips: empty ones and "." |
| `Path.Kept` | boot/core/path.c:117-119 | the elements written when there is no "..": the others, in order; `KeptIsFilter` states which ones |
| `Path.JoinSlash` | boot/core/path.c:192-200 | elements joined by '/', as the element step writes them; `JoinSlashLast` and `JoinSlashSnoc` state how it ends and grows |
| `Path.JoinSlashLast` | boot/core/path.c:192-200 | joined elements end with the last character of the last element |
| `Path.JoinSlashSnoc` | boot/core/path.c:192-200 | joining one more element adds '/' and the element, or is the element alone |
| `Path.Plain` | boot/core/path.c:37-49 | elements without '/', which is what the iterator yields (`ElementsPlain`) |
| `Path.Up` | boot/core/path.c:121-190 | the ".." step on the stack of written elements: the last one removed for absolute paths and those with a filesystem name (the root kept, or ".." for an empty relative one), ".." appended otherwise; `DotDot` shows the method writes it |
| `Path.Visit` | boot/core/path.c:117-200 | one element on the stack: skipped, the ".." step, or pushed; `ProcessElement` shows the method writes it |
| `Path.Fold` | boot/core/path.c:104-202 | the elements visited in order; `FoldSound` and `FoldWithoutDotDot` state what it keeps |
| `Path.FoldCons` | boot/core/path.c:104-202 | folding one element and then the rest is folding them all, and fitting all of them implies fitting the rest |
| `Path.Lead` | boot/core/path.c:107-115 | the '/' before the first element: always for an absolute path, after a filesystem name unless the first element is ".." |
| `Path.Render` | boot/core/path.c:91-200 | the characters written for a stack: the filesystem part, the lead '/', the joined elements and the trailing '/' a ".." leaves; `RenderLast` and `RenderLonger` state its shape |
| `Path.Closed` | boot/core/path.c:204-213 | the result once the loop ends: without a trailing '/', and "." for nothing; `FinishedRender` shows the end of `path_normalize` gives it |
| `Path.FsPart` | boot/core/path.c:91-101 | the filesystem name and ':', when the name is not empty |
| `Path.Final` | boot/core/path.c:103-202 | the stack after all elements of the source path, with absoluteness from the first step |
| `Path.FitsFrom` | boot/core/path.c:94-197 | every stack on the way leaves two characters to spare within `len`, the condition under which no write is refused |
| `Path.Fits` | boot/core/path.c:94-197 | everything `path_normalize` writes for a source fits `len` with two to spare; `FitsWithoutDotDot` gives it from the normal form alone |
| `Path.FsShaped` | boot/core/path.c:91-101 | the filesystem part ends with ':' when there is a name and is empty otherwise |
| `Path.Sound` | boot/core/path.c:117-200 | a reachable stack: non-empty elements without '/', a trailing '/' only after an element of an absolute path or one with a filesystem name; `VisitSound` shows it is kept |
| `Path.Before` | boot/core/path.c:124-153 | what precedes the last element of a stack as written, where the backward scan of ".." lands (`ScanLands`) |
| `Path.AppendFirst` | boot/core/path.c:192-200 | the first element appended after the root, after the ':' with a '/', or alone is the output for the one-element stack |
| `Path.AppendNext` | boot/core/path.c:192-200 | a later element appended after a '/' (the trailing one when present) is the output for the stack with it pushed |
| `Path.Appended` | boot/core/path.c:192-200 | the output with an element appended: after a '/' unless the output is empty or ends in one |
| `Path.Placed` | boot/core/path.c:135-146 | the filesystem part's ':' sits at the position `strchr(dest, ':')` finds |
| `Path.Scanned` | boot/core/path.c:124-132 | what the backward scan establishes: it passed one final '/', then only non-'/' characters, and stopped on '/' or at the floor |
| `Path.EmptyRender` | boot/core/path.c:107-115 | the empty stack is written as the filesystem part and, for an absolute path, the root '/' |
| `Path.Finished` | boot/core/path.c:204-213 | the end of `path_normalize` on the characters written: "." for nothing without a filesystem name, then a trailing '/' dropped unless it is alone or the root after the ':' |
| `Path.DotDotFree` | boot/core/path.c:121 | a source path none of whose elements is "..", the case `FitsWithoutDotDot` covers |
| `Path.NoDotDot` | boot/core/path.c:121 | elements without "..", the case `FoldWithoutDotDot` covers |
| `Path.ExampleElements` | boot/core/path.c:23-52 | the iterator yields "a", "b", "..", "c" for "/a/b/../c", after an absolute first step |
| `Path.ExampleFold` | boot/core/path.c:117-200 | those elements leave the stack "a", "c" |
| `Path.ExampleClosed` | boot/core/path.c:204-219 | that stack is written "/a/c" |
| `PciClass.FirstWithKey` | boot/pci/class.c:440-472 | the reference lookup finds the first entry with the key, and nothing exactly when no entry has it |
| `PciClass.StrictFind` | boot/pci/class.c:440-472 | in a container with distinct keys the entry with a key is the one the reference finds |
| `PciClass.AdjacentStrict` | boot/pci/class.c:413-438 | strictly increasing neighbours make the whole container strictly increasing |
| `PciClass.Bisect` | boot/pci/class.c:449-469 | the loop returns only an index holding the key within its range, and on sorted keys always finds a key that lies in the range |
| `PciClass.BinaryFind` | boot/pci/class.c:440-472 | `binary_search` returns only an entry with the key, and on sorted keys returns nothing exactly when no entry has it |
| `PciClass.BinarySearch` | boot/pci/class.c:440-472 | the loop returns exactly the index BinaryFind names |
| `PciClass.Below` | boot/pci/class.c:10-19 | a NULL child reads as an empty container |
| `PciClass.ClassSpec` | boot/pci/class.c:474-480 | a class name exists exactly when the class container has the code |
| `PciClass.SubclassSpec` | boot/pci/class.c:482-491 | a subclass name exists only below a named class |
| `PciClass.InterfaceSpec` | boot/pci/class.c:493-505 | an interface name exists only below a named subclass |
| `PciClass.Lookup` | boot/pci/class.c:440-472 | what `binary_search` returns is an entry of the container with the key, and on sorted keys nothing exactly when no entry has it |
| `PciClass.StrictLookup` | boot/pci/class.c:440-472 | with distinct keys `binary_search` finds what the reference scan finds |
| `PciClass.ClassLookup` | boot/pci/class.c:474-480 | on sorted classes a name is returned exactly when the code is present |
| `PciClass.SubclassLookup` | boot/pci/class.c:482-491 | a subclass name is returned only when the class lookup succeeds |
| `PciClass.InterfaceLookup` | boot/pci/class.c:493-505 | an interface name is returned only when the subclass lookup succeeds |
| `PciClass.LookupsAgree` | boot/pci/class.c:440-505 | on a well-formed table the three lookups name exactly what the reference scans name |
| `PciClass.Search` | boot/pci/class.c:440-472 | the method returns the entry Lookup names |
| `PciClass.ClassName` | boot/pci/class.c:474-480 | `_bus_pci_device_get_class_name` returns the name ClassLookup gives |
| `PciClass.SubclassName` | boot/pci/class.c:482-491 | `_bus_pci_device_get_subclass_name`, defined only where the class entry has a child, returns the name SubclassLookup gives |
| `PciClass.InterfaceName` | boot/pci/class.c:493-505 | `_bus_pci_device_get_interface_name`, defined only where both entries have children, returns the name InterfaceLookup gives |
| `PciClass.SubclassNameChecked` | boot/pci/class.c:482-491 | the subclass lookup with a NULL child read as no name is defined everywhere and returns SubclassLookup's name |
| `PciClass.InterfaceNameChecked` | boot/pci/class.c:493-505 | the interface lookup with NULL children read as no name is defined everywhere and returns InterfaceLookup's name |
| `PciClass.MassStorageInterfacesStrict` | boot/pci/class.c:36-120 | the mass storage interface containers have strictly increasing keys |
| `PciClass.ClassKeysStrict` | boot/pci/class.c:413-438 | the class codes strictly increase |
| `PciClass.TableWellFormed` | boot/pci/class.c:21-438 | the whole table, with the wireless subclass codes restored, has distinct sorted keys at every level |
| `PciClass.WirelessKeysAsWritten` | boot/pci/class.c:340-354 | as written the ten wireless subclasses all have key 0x00, so no other code is present |
| `PciClass.WirelessSearchAsWritten` | boot/pci/class.c:340-354 | `binary_search` over the source's wireless subclasses finds key 0x00 in the "Broadband" entry and nothing for any other code |
| `PciClass.WirelessLookupAsWritten` | boot/pci/class.c:340-354 | as written wireless subclass 0x00 is named "Broadband" and every other wireless subclass has no name |
| `PciClass.WirelessSearchRestored` | boot/pci/class.c:340-354 | with the codes restored, `binary_search` finds each code's own entry |
| `PciClass.WirelessLookupRestored` | boot/pci/class.c:340-354 | with the codes restored, subclass 0x00 is "iRDA compatible controller", 0x01 "CIR or UWB Radio controller" and 0x11 "Bluetooth" |
| `PciClass.NullClassChild` | boot/pci/class.c:482-491 | below a class entry with a NULL child the subclass lookup is not defined and the reference finds no name |
| `PciClass.NullSubclassChild` | boot/pci/class.c:493-505 | below a subclass entry with a NULL child the interface lookup is not defined |
| `PciClass.UnassignedClassUndefined` | boot/pci/class.c:436 | class 0xFF has a NULL child: the unchecked subclass lookup is not defined there, and the reference finds no name |
| `PciClass.IdeInterfaceUndefined` | boot/pci/class.c:94 | the IDE subclass entry (class 0x01, subclass 0x01) has a NULL child, so the unchecked interface lookup is not defined there |
| `PciClass.AsWrittenClassKeysStrict` | boot/pci/class.c:413-438 | the source's class container has distinct keys and holds the source's wireless container at 0x0D |
| `PciClass.SubclassLookupBelow` | boot/pci/class.c:484-490 | with distinct class keys the subclass lookup searches the class entry's own child |
| `PciClass.Sorted` | boot/pci/class.c:440-472 | keys never decrease, what `binary_search` relies on (`BinaryFind` finds every present key under it) |
| `PciClass.Strict` | boot/pci/class.c:21-438 | keys strictly increase, so each key names at most one entry (`StrictFind`) |
| `PciClass.Adjacent` | boot/pci/class.c:21-438 | each key is below the next one; `AdjacentStrict` shows this gives Strict |
| `PciClass.HasKey` | boot/pci/class.c:440-472 | some entry of the container has the key, the case where `binary_search` must not return NULL |
| `PciClass.KeyWithin` | boot/pci/class.c:449-469 | some entry between `start_idx` and `end_idx` has the key, what the loop keeps on sorted keys (`Bisect`) |
| `PciClass.Find` | boot/pci/class.c:440-472 | the reference lookup: the first entry with the key, or nothing (`FirstWithKey`) |
| `PciClass.SubclassTable` | boot/pci/class.c:21-411 | a subclass container with distinct keys whose interface containers have distinct keys |
| `PciClass.ClassTable` | boot/pci/class.c:21-438 | the class container with distinct keys and every subclass container below it well formed; `TableWellFormed` proves it of the table |
| `PciClass.SubclassDefined` | boot/pci/class.c:484-488 | the class entry, when found, has a child for the subclass `binary_search` to read; `UnassignedClassUndefined` names where it fails |
| `PciClass.InterfaceDefined` | boot/pci/class.c:495-502 | the class and subclass entries, when found, have children to search; `IdeInterfaceUndefined` and `PicmgInterfaceUndefined` name where it fails |
| `PciClass.Subclass00WellFormed` | boot/pci/class.c:21-34 | the subclass container of class 0x00 and its interface containers have strictly increasing keys |
| `PciClass.Subclass01WellFormed` | boot/pci/class.c:36-105 | the subclass container of class 0x01 and its interface containers have strictly increasing keys |
| `PciClass.Subclass02WellFormed` | boot/pci/class.c:107-121 | the subclass container of class 0x02 and its interface containers have strictly increasing keys |
| `PciClass.Subclass03WellFormed` | boot/pci/class.c:123-139 | the subclass container of class 0x03 and its interface containers have strictly increasing keys |
| `PciClass.Subclass04WellFormed` | boot/pci/class.c:141-155 | the subclass container of class 0x04 and its interface containers have strictly increasing keys |
| `PciClass.Subclass05WellFormed` | boot/pci/class.c:157-164 | the subclass container of class 0x05 and its interface containers have strictly increasing keys |
| `PciClass.Subclass06WellFormed` | boot/pci/class.c:166-198 | the subclass container of class 0x06 and its interface containers have strictly increasing keys |
| `PciClass.Subclass07WellFormed` | boot/pci/class.c:200-226 | the subclass container of class 0x07 and its interface containers have strictly increasing keys |
| `PciClass.Subclass08WellFormed` | boot/pci/class.c:228-261 | the subclass container of class 0x08 and its interface containers have strictly increasing keys |
| `PciClass.Subclass09WellFormed` | boot/pci/class.c:263-278 | the subclass container of class 0x09 and its interface containers have strictly increasing keys |
| `PciClass.Subclass0AWellFormed` | boot/pci/class.c:280-286 | the subclass container of class 0x0A and its interface containers have strictly increasing keys |
| `PciClass.Subclass0BWellFormed` | boot/pci/class.c:288-300 | the subclass container of class 0x0B and its interface containers have strictly increasing keys |
| `PciClass.Subclass0CWellFormed` | boot/pci/class.c:302-333 | the subclass container of class 0x0C and its interface containers have strictly increasing keys |
| `PciClass.Subclass0DWellFormed` | boot/pci/class.c:335-354 | the subclass container of class 0x0D and its interface containers have strictly increasing keys |
| `PciClass.Subclass0EWellFormed` | boot/pci/class.c:356-366 | the subclass container of class 0x0E and its interface containers have strictly increasing keys |
| `PciClass.Subclass0FWellFormed` | boot/pci/class.c:368-377 | the subclass container of class 0x0F and its interface containers have strictly increasing keys |
| `PciClass.Subclass10WellFormed` | boot/pci/class.c:379-386 | the subclass container of class 0x10 and its interface containers have strictly increasing keys |
| `PciClass.Subclass11WellFormed` | boot/pci/class.c:388-397 | the subclass container of class 0x11 and its interface containers have strictly increasing keys |
| `PciClass.Subclass12WellFormed` | boot/pci/class.c:399-404 | the subclass container of class 0x12 and its interface containers have strictly increasing keys |
| `PciClass.Subclass13WellFormed` | boot/pci/class.c:406-411 | the subclass container of class 0x13 and its interface containers have strictly increasing keys |
| `PciClass.LowClassesWellFormed` | boot/pci/class.c:21-198 | the subclass containers of classes 0x00 to 0x06 are well formed |
| `PciClass.MiddleClassesWellFormed` | boot/pci/class.c:200-354 | the subclass containers of classes 0x07 to 0x0D (wireless codes restored) are well formed |
| `PciClass.HighClassesWellFormed` | boot/pci/class.c:356-438 | the subclass containers of classes 0x0E to 0x13 are well formed, and 0xFF has none |
| `PciClass.LowClassKeys` | boot/pci/class.c:416-427 | the first eleven class codes increase |
| `PciClass.HighClassKeys` | boot/pci/class.c:414-436 | the class container has 21 entries and the last eleven codes increase |
| `PciClass.SubclassAt` | boot/pci/class.c:482-491 | every subclass entry reached through its class entry is the name the reference subclass lookup gives for those codes |
| `PciClass.PicmgInterfaceUndefined` | boot/pci/class.c:116 | the PICMG 2.14 subclass entry (class 0x02, subclass 0x06) has a NULL child, so the unchecked interface lookup is not defined there |
| `Color.TruncDiv` | boot/modules/guishell/color.c:14-16 | C's `/` truncates toward zero, so its result is non-negative when the operands agree in sign |
| `Color.MixRange` | boot/modules/guishell/color.c:14-16 | rounding each term down may lose one unit but never leaves the range of the two channels |
| `Color.FloorSum` | boot/modules/guishell/color.c:14-16 | the sum of two rounded-down quotients is the rounded-down sum or one less |
| `Color.MixIntended` | boot/modules/guishell/color.c:14-16 | a channel rounded once lies between the two input channels |
| `Color.MixDarkens` | boot/modules/guishell/color.c:14-16 | blending channel 100 with itself at alpha 128 gives 99 as written and 100 as intended |
| `Color.Blend` | boot/modules/guishell/color.c:3-21 | `color_blend` has alpha 0, gives the lower colour at alpha 0 and the upper at alpha 255 |
| `Color.BlendBetween` | boot/modules/guishell/color.c:14-16 | each blended channel lies between the inputs' channels, less at most one unit |
| `Color.BlendIntended` | boot/modules/guishell/color.c:3-21 | blending with one rounding keeps each channel between the inputs' channels and has the same end cases |
| `Color.Clamp` | boot/modules/guishell/color.c:52-58 | the numerator is clamped to the nearest point between 0 and the denominator |
| `Color.Weight` | boot/modules/guishell/color.c:26 | the weight lies in 0..255, is 0 at the start and 255 at the end |
| `Color.Interpolate` | boot/modules/guishell/color.c:23-34 | weight 0 gives the secondary colour and weight 255 the primary |
| `Color.MixEnds` | boot/modules/guishell/color.c:28-31 | at weight 0 a channel is the lower value and at 255 the upper |
| `Color.ResolveBrush` | boot/modules/guishell/color.c:36-69 | no brush is opaque black, a solid brush its colour, a gradient the secondary colour at its start and the primary at its end, a pattern one of its two colours |
| `Color.PatternAlternates` | boot/modules/guishell/color.c:61-63 | the pattern is a checkerboard: horizontal and vertical neighbours take opposite colours |
| `Color.GradientClamped` | boot/modules/guishell/color.c:52-58 | past either end point the gradient keeps that end's colour |
| `Color.GradientBetween` | boot/modules/guishell/color.c:51-60 | every gradient channel lies between the two brush colours' channels, less at most one unit |
| `Color.InterpolateBetween` | boot/modules/guishell/color.c:23-34 | every interpolated channel lies between the two colours' channels, less at most one unit |
| `Color.VerticalGradientUndefined` | boot/modules/guishell/color.c:26 | a gradient brush resolved with both end points at the same x divides by zero |
| `Color.ResolveBrushChecked` | boot/modules/guishell/color.c:36-69 | equals `color_resolve_brush` wherever that is defined, and a zero-width gradient gives its secondary colour |
| `Color.Mix` | boot/modules/guishell/color.c:14-16 | one blended channel as written, each weighted term divided by 255 on its own; `MixRange` and `MixDarkens` state its range and where it loses a unit |
| `Color.SameRgb` | boot/modules/guishell/color.c:9-12 | two colours agree on red, green and blue, what the blend's end cases promise (`Blend`) |
| `Color.NearlyBetween` | boot/modules/guishell/color.c:14-16 | a channel no more than one unit below the range of two inputs, the bound `BlendBetween` proves |
| `Color.BrushDefined` | boot/modules/guishell/color.c:26 | the gradient's divisor `end.x - start.x` is not zero; `VerticalGradientUndefined` names where it fails |
| `Color.Odd` | boot/modules/guishell/color.c:62 | `(x + y) & 1` set, which picks the pattern's primary colour (`PatternAlternates`) |
| `Vma.Wrap` | kernel/mm/vma.c:75 | a 32-bit unsigned sum: below 2^32, and the sum itself when it fits |
| `Vma.Allocator.constructor` | kernel/mm/vma.c:20-25 | a fresh allocator holds 32-bit values |
| `Vma.Allocator.Init` | kernel/mm/vma.c:27-38 | each region keeps its base and limit and its cursor starts at the base; ordered bounds give ordered cursors |
| `Vma.Allocator.AvailableKernelPageCount` | kernel/mm/vma.c:40-45 | the kernel region holds its base through its inclusive limit |
| `Vma.Allocator.FreeKernelPageCount` | kernel/mm/vma.c:47-52 | the kernel pages left run from the cursor through the inclusive limit |
| `Vma.Allocator.AvailableUserPageCount` | kernel/mm/vma.c:54-59 | the user region holds its base through its inclusive limit |
| `Vma.Allocator.FreeUserPageCount` | kernel/mm/vma.c:61-66 | the user pages left run from the cursor through the inclusive limit |
| `Vma.Allocator.AllocatePage` | kernel/mm/vma.c:68-93 | the requested region's cursor is handed out and advanced by the count in 32 bits unless the 32-bit sum reaches the limit; the other region and all bounds stay unchanged |
| `Vma.Allocator.FreePage` | kernel/mm/vma.c:95 | freeing changes no free count |
| `Vma.Allocator.AllocatePageChecked` | kernel/mm/vma.c:68-93 | with the test done without wrap-around, a request succeeds exactly when it leaves at least two pages free; the granted pages lie inside the region, the free count drops by the count, the cursors stay ordered |
| `Vma.GrantedInsideRegion` | kernel/mm/vma.c:75-79 | without wrap-around a granted run lies inside the region, ends at least two pages before its limit, and lowers the free count by exactly the count |
| `Vma.HugeRequestAccepted` | kernel/mm/vma.c:83-87 | a request of 2^32 - 1 user pages, with the bounds the i686 kernel sets up, passes the test and moves the cursor back by one |
| `Vma.FreeCountRefused` | kernel/mm/vma.c:61-66 | a request for the reported free count, or one page fewer, is always refused |
| `Vma.Refused` | kernel/mm/vma.c:75 | the refusal test `alloc + count >= limit` on 32-bit values; `HugeRequestAccepted` and `FreeCountRefused` show where it goes wrong |
| `Vma.KernelRequest` | kernel/mm/vma.c:72 | a request asks for the kernel region when the VAF_KERNEL bit is set |
| `Vma.Allocator.Valid` | kernel/mm/vma.c:19-25 | every base, limit and cursor is a 32-bit value |
| `Vma.Allocator.Ordered` | kernel/mm/vma.c:27-38 | each cursor lies between its base and one past its inclusive limit, which `Init` sets up and `AllocatePageChecked` keeps |
| `Pma.Shift` | boot/mm/mm.c:21-26 | each frame's two bits sit at twice its slot within the byte |
| `Pma.FieldOfSetField` | boot/mm/mm.c:22-26 | setting a field gives it the new value and leaves the other three fields of the byte alone |
| `Pma.Slot` | boot/mm/mm.c:21 | a field read from a byte is one of four values |
| `Pma.SlotOfSetSlot` | boot/mm/mm.c:21-26 | reading a frame state back after setting it gives the state set, and other slots are unchanged |
| `Pma.Get` | boot/mm/mm.c:21 | `PBM_GET` on a bitmap gives a two-bit value |
| `Pma.Set` | boot/mm/mm.c:22-26 | `PBM_SET` keeps the bitmap's size |
| `Pma.GetOfSet` | boot/mm/mm.c:21-26 | setting one frame changes that frame's state and no other |
| `Pma.GetOfZero` | boot/mm/mm.c:28-58 | a cleared byte describes four FREE frames |
| `Pma.CountsDisjoint` | boot/mm/mm.c:100-112 | no frame counts as both FREE and RESERVED, so the free count never exceeds the available count |
| `Pma.FrameCount` | boot/mm/mm.c:48-56 | the frames run from the base frame through the inclusive limit frame |
| `Pma.BitmapSize` | boot/mm/mm.c:52-53 | four frames per byte, rounded up |
| `Pma.LimitFrameIndex` | boot/mm/mm.c:48-156 | the limit frame's index is the source's frame count itself, outside the counted frames but inside a bitmap for the intended count |
| `Pma.LimitFrameOutsideBitmap` | boot/mm/mm.c:48-53 | for 1 MiB through the last byte of 17 MiB the source counts 0x1000 frames in 0x400 bytes, and the limit frame's field lies in byte 0x400 |
| `Pma.LastReservedIndexAsWritten` | boot/mm/mm.c:75-83 | the loop bound of `mm_pma_mark_reserved`, computed in 32 bits |
| `Pma.ReserveBelowBaseRunsAway` | boot/mm/mm.c:75-93 | with the base at 2 MiB, reserving 1 MiB through 2 MiB - 1 wraps the loop bound to 2^32 - 1, far past any bitmap |
| `Pma.FreeSpan` | boot/mm/mm.c:156-158 | a free reaches no further than the limit frame: the count when it fits, the frames up to the limit otherwise |
| `Pma.FreeClampOverruns` | boot/mm/mm.c:156-162 | freeing 30 frames from ten before the limit visits 20 frames under the source's clamp, ten past the limit, where the corrected clamp visits ten |
| `Pma.FreeHi` | boot/mm/mm.c:154-162 | the freed range ends at or before the limit frame and is empty for a frame outside the described ones |
| `Pma.FrameAllocator.constructor` | boot/mm/mm.c:42-66 | all frames from the base through the limit start FREE, then those from the base through the bitmap's last byte are RESERVED; the counters agree with the bitmap |
| `Pma.FrameAllocator.SetFrame` | boot/mm/mm.c:22-26 | writing one frame's field updates that frame's state only and keeps the bitmap encoding the states |
| `Pma.FrameAllocator.GetFrame` | boot/mm/mm.c:21 | reading a field gives that frame's state |
| `Pma.FrameAllocator.MarkReserved` | boot/mm/mm.c:68-98 | the range clamped to the described frames becomes RESERVED and the counters keep agreeing with the bitmap |
| `Pma.FrameAllocator.ReserveRange` | boot/mm/mm.c:83-93 | the frames of the range become RESERVED, `free` drops by the FREE frames among them and `available` by those that were not RESERVED |
| `Pma.FrameAllocator.AvailableFrameCount` | boot/mm/mm.c:100-105 | the frames that are not RESERVED |
| `Pma.FrameAllocator.FreeFrameCount` | boot/mm/mm.c:107-112 | the FREE frames, never more than the available ones |
| `Pma.FrameAllocator.AllocateFrame` | boot/mm/mm.c:114-150 | succeeds exactly when a run of `count` FREE frames exists, takes the first such run, marks it ALLOCATED and lowers `free` by `count`; on failure nothing changes |
| `Pma.FrameAllocator.FindRun` | boot/mm/mm.c:119-138 | the search finds a run exactly when one exists, and then the first; for zero frames the first FREE frame |
| `Pma.FrameAllocator.FreeFrame` | boot/mm/mm.c:152-170 | a frame outside the described ones changes nothing; otherwise the ALLOCATED frames of the run clamped at the limit become FREE and `free` rises by their number |
| `Pma.FrameAllocator.ReleaseRange` | boot/mm/mm.c:162-167 | the ALLOCATED frames of the range become FREE, and `free` rises by their number |
| `Pma.FrameAllocator.AllocVirtPage` | boot/mm/mm.c:172-179 | hands out the cursor and advances it by the count in 32 bits |
| `Pma.Field` | boot/mm/mm.c:21 | the two bits of a frame's slot within a byte; `FieldOfSetField` relates it to SetField |
| `Pma.SetField` | boot/mm/mm.c:24-25 | a byte with a slot's two bits cleared and then set; `FieldOfSetField` shows the other slots keep theirs |
| `Pma.SetSlot` | boot/mm/mm.c:22-26 | `PBM_SET` on one byte; `SlotOfSetSlot` shows reading back gives the state set |
| `Pma.Settled` | boot/mm/mm.c:28-30 | every frame is FREE, ALLOCATED or RESERVED, which the allocator keeps (`FrameAllocator.Valid`) |
| `Pma.CountIn` | boot/mm/mm.c:35 | the frames of a range in one state, never more than the range holds; the counters are kept equal to it |
| `Pma.Count` | boot/mm/mm.c:35 | the frames in one state, never more than there are frames |
| `Pma.CountInUpdate` | boot/mm/mm.c:86-92 | changing one frame's state moves it out of its old state's count and into its new one, within any range |
| `Pma.CountUpdate` | boot/mm/mm.c:86-92 | the same over all frames: what lets each counter step by one as a frame changes state |
| `Pma.Assign` | boot/mm/mm.c:83-93 | the frames of a range set to one state, the rest unchanged, with as many frames as before |
| `Pma.Release` | boot/mm/mm.c:162-167 | the ALLOCATED frames of a range made FREE, the rest unchanged, with as many frames as before |
| `Pma.AssignStep` | boot/mm/mm.c:83-93 | assigning one more frame of the range is one `PBM_SET` on the assignment so far |
| `Pma.ReleaseNothing` | boot/mm/mm.c:162 | an empty release leaves every frame as it was |
| `Pma.ReleaseStep` | boot/mm/mm.c:162-167 | releasing one more frame sets it FREE exactly when it was ALLOCATED |
| `Pma.RunFree` | boot/mm/mm.c:119-134 | a run of frames lying within the bitmap's frames, all FREE |
| `Pma.HasRun` | boot/mm/mm.c:136-138 | some run of `count` FREE frames exists, the case where `mm_pma_allocate_frame` succeeds (`FrameAllocator.AllocateFrame`) |
| `Pma.FirstFit` | boot/mm/mm.c:119-134 | a FREE run of `count` frames with none starting before it, the run the search picks |
| `Pma.NoRunBefore` | boot/mm/mm.c:119-134 | no FREE run of `count` frames ends at or before a frame, what the search has ruled out |
| `Pma.BrokenRun` | boot/mm/mm.c:120-122 | a run holding a frame that is not FREE is not a FREE run |
| `Pma.Scanned` | boot/mm/mm.c:119-134 | the search state after a prefix: the last `free_count` frames are FREE, the one before is not, and no run of `count` ended earlier |
| `Pma.ScanBusy` | boot/mm/mm.c:120-122 | a frame that is not FREE resets the run and keeps the search state |
| `Pma.ScanFree` | boot/mm/mm.c:125-133 | a FREE frame that leaves the run short of `count` extends it and keeps the search state |
| `Pma.ScanFound` | boot/mm/mm.c:125-133 | a FREE frame that brings the run to `count` makes it the first fit |
| `Pma.ScanExhausted` | boot/mm/mm.c:136-138 | a search that reaches the last frame with a run short of `count` has shown no such run exists |
| `Pma.FrameCountAsWritten` | boot/mm/mm.c:48 | the frame count as written: the limit's page minus the base's page, one short of an inclusive limit (`LimitFrameIndex`) |
| `Pma.FreeSpanAsWritten` | boot/mm/mm.c:156-158 | the frame count `mm_pma_free_frame` visits under the source's clamp; `FreeClampOverruns` shows it overruns the limit |
| `Pma.ReserveLo` | boot/mm/mm.c:72-77 | the first frame index the reserve loop visits, the range's first page raised to the base frame |
| `Pma.ReserveHi` | boot/mm/mm.c:73-83 | one past the last index the reserve loop visits, the range's last page lowered to the limit frame |
| `Pma.FreeLo` | boot/mm/mm.c:154-160 | the first frame index the free loop visits, none for a frame outside the described ones |
| `Pma.ZeroFit` | boot/mm/mm.c:119-145 | where a search for zero frames stops: the first FREE frame, or index 0 when none is FREE |
| `Pma.FrameAllocator.Shaped` | boot/mm/mm.c:48-56 | the bitmap has a field for every frame from the base through the inclusive limit |
| `Pma.FrameAllocator.Encoded` | boot/mm/mm.c:21 | the bitmap encodes the state of every frame in order from the base frame |
| `Pma.FrameAllocator.Valid` | boot/mm/mm.c:32-36 | the bitmap encodes the frames, each in one of the three states, `pma_free_frames` counts the FREE ones and `pma_available_frames` those not RESERVED |
| `Pma.FrameAllocator.ReservedUpTo` | boot/mm/mm.c:83-93 | the reserve loop's invariant: the frames visited are RESERVED, `free` dropped by the FREE ones among them and `available` by those not RESERVED |
| `Pma.FrameAllocator.ReserveFrame` | boot/mm/mm.c:84-92 | one pass of the reserve loop keeps that invariant one frame further |
| `Pma.FrameAllocator.ReleasedUpTo` | boot/mm/mm.c:162-167 | the free loop's invariant: the ALLOCATED frames visited are FREE and `free` rose by their number |
| `Pma.FrameAllocator.ReleaseFrame` | boot/mm/mm.c:163-166 | one pass of the free loop keeps that invariant one frame further |
| `PmaAsWritten.Init` | boot/mm/mm.c:42-66 | the source's frame count, one short of the inclusive range, with the base and limit frames; undefined when the reservation runs outside the bitmap |
| `PmaAsWritten.MarkReserved` | boot/mm/mm.c:68-98 | keeps the bitmap's size, the frame range and the counters' width; undefined when the 32-bit loop runs outside the bitmap |
| `PmaAsWritten.FreeFrame` | boot/mm/mm.c:152-170 | a frame outside the described ones changes nothing; the source's clamp may run outside the bitmap (undefined) |
| `PmaAsWritten.AllocateFrame` | boot/mm/mm.c:114-150 | a granted run lies within the counted frames; a failure changes nothing |
| `PmaAsWritten.SearchBounds` | boot/mm/mm.c:119-134 | a run the search ends with that reaches `count` lies within the counted frames |
| `PmaAsWritten.SearchFrom` | boot/mm/mm.c:119-138 | the search finds a run exactly when the counted frames hold one, and then the first |
| `PmaAsWritten.AllocateFirstFit` | boot/mm/mm.c:114-150 | the source's allocation is the corrected allocator's first fit over the frames the source counts |
| `PmaAsWritten.LimitFrameNeverAllocated` | boot/mm/mm.c:48-119 | the limit frame is never handed out |
| `PmaAsWritten.MarkReservedAgrees` | boot/mm/mm.c:68-98 | from the base frame up and within the bitmap the source reserves what the corrected allocator reserves |
| `PmaAsWritten.ReserveLimitFrameOutside` | boot/mm/mm.c:48-92 | with a frame count divisible by four, reserving the limit frame writes past the bitmap |
| `PmaAsWritten.ReserveBelowBaseUndefined` | boot/mm/mm.c:75-93 | a reserved range wholly below the base frame, as the BIOS boot code can pass, is empty in the corrected model but runs the source's loop outside the bitmap |
| `PmaAsWritten.FreeFrameAgrees` | boot/mm/mm.c:152-170 | without a clamp and within the bitmap the source frees what the corrected allocator frees |
| `PmaAsWritten.FreeClampFreesTooFew` | boot/mm/mm.c:156-158 | with the limit at frame 0x1FF, freeing twelve frames from 0x1F6 frees two where ten were meant |
| `PmaAsWritten.FreeClampOverrunsBitmap` | boot/mm/mm.c:156-167 | freeing thirty frames from the same place runs past the limit and the bitmap |
| `PmaAsWritten.Shaped` | boot/mm/mm.c:32-56 | what every operation keeps: a bitmap of four fields per byte for the source's frame count, the frame range, and 32-bit counters |
| `PmaAsWritten.Search` | boot/mm/mm.c:119-134 | the search loop as written from a frame: it stops at the first run reaching `count` and never looks past the counted frames; `SearchFrom` and `SearchBounds` state what it finds |
| `FatTable.FatLba` | kernel/drivers/filesystem/fat/util.c:46 | sector `index` of a FAT is `index` sectors after the FAT's first sector, `reserved_sectors + fat * fat_size` |
| `FatTable.InSector` | kernel/drivers/filesystem/fat/util.c:46-52 | every byte of a fetched sector lies on the device, and the next sector follows it directly |
| `FatTable.EntryFits` | kernel/drivers/filesystem/fat/util.c:107-117 | an entry of a fetched sector lies wholly inside that sector on the device |
| `FatTable.Linear` | kernel/drivers/filesystem/fat/util.c:107-150 | where sectors hold whole entries, entry `index` sits `index` entry widths into its FAT, however it is split into sector and slot |
| `FatTable.SectorOf` | kernel/drivers/filesystem/fat/util.c:46-50 | on a device of whole sectors, a sector can be fetched exactly when a byte of it lies on the device |
| `FatTable.Decode12` | kernel/drivers/filesystem/fat/util.c:70-74 | a FAT12 entry decoded from its two bytes is a 12-bit value |
| `FatTable.Read12` | kernel/drivers/filesystem/fat/util.c:24-88 | an entry past FAT12_MAX_CLUSTER or a FAT number out of range is refused with INVALID_VALUE; a value read is 12 bits |
| `FatTable.Store12` | kernel/drivers/filesystem/fat/util.c:172-246 | a value past FAT12_END_CLUSTER, an entry past FAT12_MAX_CLUSTER or a bad FAT number is refused with INVALID_VALUE; a write keeps the device's size |
| `FatTable.Read12Contiguous` | kernel/drivers/filesystem/fat/util.c:42-74 | a FAT12 entry reads as if the FAT were one byte string, even when it straddles two sectors; a byte off the device fails |
| `FatTable.Locate12` | kernel/drivers/filesystem/fat/util.c:42-57 | the sector and offset computed for a FAT12 entry address its first byte, and its second byte is in the same sector or byte 0 of the next |
| `FatTable.Store12Contiguous` | kernel/drivers/filesystem/fat/util.c:194-230 | a FAT12 write changes exactly the entry's two bytes, each patched keeping its neighbour's nibble |
| `FatTable.Write12ThenRead` | kernel/drivers/filesystem/fat/util.c:172-246 | reading back a written FAT12 entry gives the value written |
| `FatTable.Packed12` | kernel/drivers/filesystem/fat/util.c:211-230 | the two patched bytes decode to the value written |
| `FatTable.Write12KeepsOthers` | kernel/drivers/filesystem/fat/util.c:211-230 | writing one FAT12 entry leaves every other entry, including the one sharing a byte with it, and every other device byte unchanged |
| `FatTable.Offset12Apart` | kernel/drivers/filesystem/fat/util.c:42 | FAT12 entries sit one and a half bytes apart: only neighbouring pairs share a byte |
| `FatTable.SharedHigh` | kernel/drivers/filesystem/fat/util.c:214-222 | writing an even entry keeps the nibble the next entry reads |
| `FatTable.SharedLow` | kernel/drivers/filesystem/fat/util.c:227 | writing an odd entry keeps the nibble the previous entry reads |
| `FatTable.U16At` | kernel/drivers/filesystem/fat/util.c:117 | a little-endian 16-bit word |
| `FatTable.Read16` | kernel/drivers/filesystem/fat/util.c:90-129 | an entry past FAT16_MAX_CLUSTER or a bad FAT number is refused with INVALID_VALUE; a value read is 16 bits |
| `FatTable.Store16` | kernel/drivers/filesystem/fat/util.c:248-292 | out-of-range values, entries and FAT numbers are refused with INVALID_VALUE; a write keeps the device's size |
| `FatTable.Read16Contiguous` | kernel/drivers/filesystem/fat/util.c:107-117 | FAT16 entry `e` is the word at byte 2e of its FAT, and a write stores the value's two bytes there |
| `FatTable.Write16ThenRead` | kernel/drivers/filesystem/fat/util.c:248-292 | reading back a written FAT16 entry gives the value written, and every other entry keeps its value |
| `FatTable.Raw32` | kernel/drivers/filesystem/fat/util.c:152-158 | the whole 32-bit word of a FAT32 entry, available exactly when its sector can be fetched |
| `FatTable.Read32` | kernel/drivers/filesystem/fat/util.c:131-170 | an entry past FAT32_MAX_CLUSTER or a bad FAT number is refused with INVALID_VALUE; a value read has its top four bits masked off |
| `FatTable.Masked32` | kernel/drivers/filesystem/fat/util.c:326-327 | the new word holds the value in its low 28 bits and the old word's top four bits |
| `FatTable.Store32` | kernel/drivers/filesystem/fat/util.c:294-339 | out-of-range values, entries and FAT numbers are refused with INVALID_VALUE; a write keeps the device's size |
| `FatTable.Write32ThenRead` | kernel/drivers/filesystem/fat/util.c:294-339 | reading back a written FAT32 entry gives the value written, and its word's reserved top four bits are unchanged |
| `FatTable.Write32KeepsOthers` | kernel/drivers/filesystem/fat/util.c:316-327 | writing one FAT32 entry leaves the word of every other entry unchanged |
| `FatTable.EntriesDisjoint` | kernel/drivers/filesystem/fat/util.c:107-150 | two distinct entries of the same width occupy disjoint device bytes |
| `FatTable.WriteEntry12` | kernel/drivers/filesystem/fat/util.c:172-246 | the device becomes the FAT12 store's result and SUCCESS is returned, or the error is returned and the device is unchanged |
| `FatTable.WriteEntry16` | kernel/drivers/filesystem/fat/util.c:248-292 | the device becomes the FAT16 store's result, or the error is returned and the device is unchanged |
| `FatTable.WriteEntry32` | kernel/drivers/filesystem/fat/util.c:294-339 | the device becomes the FAT32 store's result, or the error is returned and the device is unchanged |
| `FatTable.SectorStart` | kernel/drivers/filesystem/fat/util.c:46 | the device offset of a sector's first byte, the sector number times the sector size |
| `FatTable.FatStart` | kernel/drivers/filesystem/fat/util.c:46 | the device offset of a FAT's first byte, at sector `reserved_sectors + fat * fat_size` |
| `FatTable.Fetchable` | kernel/drivers/filesystem/fat/util.c:46-50 | the block interface can fetch the sector: it lies wholly on the device; `SectorOf` states when it holds |
| `FatTable.WholeSectors` | kernel/drivers/filesystem/fat/util.c:46-50 | the device holds a whole number of sectors |
| `FatTable.ValidFat` | kernel/drivers/filesystem/fat/util.c:37-40 | the FAT numbers the readers and writers accept, 0 up to the FAT count |
| `FatTable.EntryLba` | kernel/drivers/filesystem/fat/util.c:107-111 | the sector of a FAT that holds an entry of the given width: the entry number divided by the entries per sector; `Linear` relates it to the entry's byte position |
| `FatTable.EntryPos` | kernel/drivers/filesystem/fat/util.c:107-117 | the device offset of an entry: its slot inside the sector that holds it; `EntryFits` and `EntriesDisjoint` state where it lies |
| `FatTable.SlotInSector` | kernel/drivers/filesystem/fat/util.c:107-117 | a slot below the sector's slot count ends inside the sector |
| `FatTable.Offset12` | kernel/drivers/filesystem/fat/util.c:42 | the byte offset of a FAT12 entry in its FAT, one and a half bytes per entry; `Offset12Apart` shows only neighbours share a byte |
| `FatTable.First12` | kernel/drivers/filesystem/fat/util.c:226-230 | the new first byte of a FAT12 entry, keeping the low nibble of an odd entry's neighbour; `Packed12` and `SharedLow` state it |
| `FatTable.Second12` | kernel/drivers/filesystem/fat/util.c:211-224 | the new second byte of a FAT12 entry, keeping the high nibble of an even entry's neighbour; `Packed12` and `SharedHigh` state it |
| `FatTable.OtherWord32` | kernel/drivers/filesystem/fat/util.c:316-327 | replacing the word of one FAT32 entry leaves the word every other entry reads unchanged |
| `FatTable.SlotsDisjoint` | kernel/drivers/filesystem/fat/util.c:107-117 | slots of the same width inside their sectors occupy disjoint device bytes unless they coincide |
| `FatBoot.Utf8AsWritten` | boot/filesystem/fat/fat.c:160-182 | one byte below 0x7F, two from 0x7F below 0x7FF, three otherwise, as the source's bounds say |
| `FatBoot.Utf8` | boot/filesystem/fat/fat.c:160-182 | the encoding RFC 3629 gives: one byte below 0x80, two below 0x800, three otherwise |
| `FatBoot.Utf8RoundTrip` | boot/filesystem/fat/fat.c:160-182 | decoding the intended encoding of any non-surrogate character gives the character back |
| `FatBoot.Utf8BoundsOffByOne` | boot/filesystem/fat/fat.c:164-170 | the source agrees with RFC 3629 everywhere except U+007F and U+07FF, which it writes as overlong sequences no decoder accepts |
| `FatBoot.Ucs2ToUtf8` | boot/filesystem/fat/fat.c:160-182 | 0 and 0xFFFF write nothing and return 0; a buffer too short returns -1 and writes nothing; otherwise the encoding is written at the start and its length returned, the rest untouched |
| `FatBoot.FieldLength` | boot/filesystem/fat/fat.c:248-255 | the characters before the first space of a field, or all of them |
| `FatBoot.ShownIsToLower` | boot/filesystem/fat/fat.c:250-257 | lowering a flagged field's byte is the C library's `tolower` |
| `FatBoot.Field` | boot/filesystem/fat/fat.c:248-251 | a field up to its first space, each byte lowered when the flag says |
| `FatBoot.Suffix` | boot/filesystem/fat/fat.c:252-258 | '.' and the extension, or nothing exactly when the extension is blank |
| `FatBoot.SfnName` | boot/filesystem/fat/fat.c:242-262 | the name is at most twelve characters without a space; it is undefined exactly when a flag sends a byte of 0x80 or more to `tolower` |
| `FatBoot.Pad` | boot/filesystem/fat/fat.c:248-255 | a space-padded field of the given width starting with the text |
| `FatBoot.SfnRoundTrip` | boot/filesystem/fat/fat.c:242-262 | a name of up to eight characters and an extension of up to three, padded into an entry, read back as NAME.EXT, or NAME when the extension is empty |
| `FatBoot.SfnHighByte` | boot/filesystem/fat/fat.c:250 | a name starting with byte 0x8E reads back as is without the lower-case flag and is undefined with it |
| `FatBoot.PadField` | boot/filesystem/fat/fat.c:248 | the field of a padded text without spaces is the text |
| `FatBoot.SfnFilename` | boot/filesystem/fat/fat.c:242-262 | writes the short name and its NUL and returns the length, at most 12, leaving the rest of the buffer alone |
| `FatBoot.PutSuffix` | boot/filesystem/fat/fat.c:252-258 | appends the suffix after what was written and leaves the rest of the buffer alone |
| `FatBoot.PutField` | boot/filesystem/fat/fat.c:248-251 | appends the shown field after what was written and leaves the rest of the buffer alone |
| `FatBoot.RotateRight` | boot/filesystem/fat/fat.c:269 | the low bit moves to the top and the rest shift down |
| `FatBoot.RotateRightInjective` | boot/filesystem/fat/fat.c:269 | rotation right is a bijection on bytes |
| `FatBoot.SfnChecksum` | boot/filesystem/fat/fat.c:264-273 | the checksum of the FAT_SFN_BUFLEN bytes of the buffer |
| `FatBoot.ChecksumCoversTwoMore` | boot/filesystem/fat/fat.c:264-273 | two buffers holding the same 8.3 name but different bytes after it get different checksums, so the source's sum depends on bytes the long-name checksum leaves out |
| `FatBoot.StepSeparatesBytes` | boot/filesystem/fat/fat.c:269 | from the same sum, different bytes give different sums |
| `FatBoot.StepSeparatesSums` | boot/filesystem/fat/fat.c:269 | different sums with the same byte added stay different |
| `FatBoot.ChecksumStep` | boot/filesystem/fat/fat.c:268-270 | one more byte is one more step |
| `FatBoot.SfnChecksumIntended` | boot/filesystem/fat/fat.c:264-273 | the long-name checksum over the eleven bytes of the 8.3 name |
| `FatBoot.ClusterSize` | boot/filesystem/fat/fat.c:795-796 | a cluster holds at least four bytes |
| `FatBoot.ClusterToSector` | boot/filesystem/fat/fat.c:313-332 | a 32-bit sector number, the cluster's first sector when there is no wrap-around |
| `FatBoot.SectorToCluster` | boot/filesystem/fat/fat.c:292-311 | a data sector lies in cluster 2 or later |
| `FatBoot.ClusterSectorRoundTrip` | boot/filesystem/fat/fat.c:292-332 | every data cluster maps to a data sector that maps back to it |
| `FatBoot.SectorInItsCluster` | boot/filesystem/fat/fat.c:292-332 | a data sector's cluster begins at or before it, at the sector rounded down to a cluster boundary |
| `FatBoot.NextOf` | boot/filesystem/fat/fat.c:366-456 | an entry is read only for a cluster up to the FAT type's maximum, and otherwise fails only when its sector cannot be read |
| `FatBoot.LoadCluster` | boot/filesystem/fat/fat.c:349-364 | a loaded cluster has the cluster size; a failed fetch reports a failure |
| `FatBoot.ClusterSpan` | boot/filesystem/fat/fat.c:358 | a cluster's sectors end one cluster size after its first one begins |
| `FatBoot.Mounted` | boot/filesystem/fat/fat.c:588-708 | the mounted driver reads entries from the first FAT and clusters from the data area, with the volume's cluster size and maximum cluster |
| `FatBoot.Follow` | boot/filesystem/fat/fat.c:366-456 | a start past the maximum is refused with INVALID_VALUE; a successful walk ends on a linking cluster, END_OF_LIST on a cluster past the maximum; no links leave the cluster unchanged |
| `FatBoot.LinkIsFollow` | boot/filesystem/fat/fat.c:376-404 | one turn of the walk is a walk of one link |
| `FatBoot.FollowAdd` | boot/filesystem/fat/fat.c:376-404 | following j links and then k more is following j + k, unless the first walk stopped |
| `FatBoot.FollowStuck` | boot/filesystem/fat/fat.c:374-403 | a walk that stopped stays where it stopped |
| `FatBoot.FollowClusterAdd` | boot/filesystem/fat/fat.c:376-404 | the cluster reached is the cluster reached in two stages, whatever the statuses |
| `FatBoot.GetNextCluster` | boot/filesystem/fat/fat.c:366-463 | the status and cluster are those of the walk |
| `FatBoot.TurnOf` | boot/filesystem/fat/fat.c:795-813 | one turn copies no more than wanted and advances the cursor by what it copies; a turn that goes on copied something; a failed fetch copies nothing and stops |
| `FatBoot.ReadLoop` | boot/filesystem/fat/fat.c:794-814 | the loop copies no more than wanted, and the cursor advances by what it copies |
| `FatBoot.TurnThenLoop` | boot/filesystem/fat/fat.c:794-814 | one turn, then the loop: no more than wanted, the cursor advancing by what is copied |
| `FatBoot.DivMod` | boot/filesystem/fat/fat.c:795-850 | the cluster index and offset of a position are its quotient and remainder by the cluster size |
| `FatBoot.Boundary` | boot/filesystem/fat/fat.c:795-810 | moving within a cluster keeps its index, and moving to its end enters the next at offset 0 |
| `FatBoot.TurnTracksChain` | boot/filesystem/fat/fat.c:801-813 | a turn keeps the current cluster the one the chain reaches for the cursor |
| `FatBoot.TurnInStep` | boot/filesystem/fat/fat.c:801-813 | a turn copies the file's own bytes and keeps the chain in step, or stops where the chain cannot be followed |
| `FatBoot.ReadLoopPrefix` | boot/filesystem/fat/fat.c:804-807 | what was copied before stays in front of what the loop copies |
| `FatBoot.LoopTurn` | boot/filesystem/fat/fat.c:794-814 | the loop copies a turn's piece followed by what the loop copies from where the turn left off |
| `FatBoot.ReadTracksChain` | boot/filesystem/fat/fat.c:794-814 | the loop keeps the current cluster in step with the cursor |
| `FatBoot.JoinRuns` | boot/filesystem/fat/fat.c:804-807 | two runs the file holds back to back make one run |
| `FatBoot.ReadContents` | boot/filesystem/fat/fat.c:778-820 | started in step with the chain, the loop copies out exactly the file's bytes from the cursor on |
| `FatBoot.PieceAt` | boot/filesystem/fat/fat.c:801-804 | the bytes of the cursor's cluster from the cursor's offset are the file's bytes there |
| `FatBoot.ReadShort` | boot/filesystem/fat/fat.c:812-813 | a successful read comes up short only where the chain cannot be followed further |
| `FatBoot.Clamp` | boot/filesystem/fat/fat.c:790-792 | the request clamped to the end of the file: the request or the bytes left, whichever is smaller |
| `FatBoot.ClampWraps` | boot/filesystem/fat/fat.c:790 | from cursor 1 of a 10-byte file a request of 2^32 - 1 bytes wraps `cursor + len` and is not clamped |
| `FatBoot.ClampAgrees` | boot/filesystem/fat/fat.c:790-792 | without wrap-around the source's clamp is the intended one |
| `FatBoot.FatFile.Open` | boot/filesystem/fat/fat.c:749-751 | the head cluster is `(high << 16) \| low`, the cursor 0, the current cluster the head |
| `FatBoot.FatFile.Tell` | boot/filesystem/fat/fat.c:859-866 | the cursor, never past the end of the file |
| `FatBoot.FatFile.Read` | boot/filesystem/fat/fat.c:778-820 | END_OF_FILE at or past the end with nothing changed; otherwise the loop over the request clamped to the end of the file |
| `FatBoot.FatFile.ReadAsWritten` | boot/filesystem/fat/fat.c:778-820 | the same loop over the request clamped as the source computes it, in 32 bits |
| `FatBoot.FatFile.CopyOut` | boot/filesystem/fat/fat.c:794-814 | copies what the loop copies and leaves the cursor and cluster where the loop does |
| `FatBoot.FatFile.Turn` | boot/filesystem/fat/fat.c:795-813 | one turn of the loop |
| `FatBoot.FatFile.Seek` | boot/filesystem/fat/fat.c:822-857 | a refused target gives INVALID_VALUE with nothing changed; otherwise the walk to the target's cluster decides: success moves cursor and cluster there, a failure leaves both |
| `FatBoot.SeekTarget` | boot/filesystem/fat/fat.c:831-847 | refused exactly for an unknown origin or a negative target; a target past the end is the end |
| `FatBoot.Cont` | boot/filesystem/fat/fat.c:160-182 | a continuation byte `10xxxxxx` carrying six bits |
| `FatBoot.IsCont` | boot/filesystem/fat/fat.c:160-182 | the continuation bytes 0x80..0xBF |
| `FatBoot.DecodeUtf8` | boot/filesystem/fat/fat.c:160-182 | the reference decoder of section 4 of RFC 3629 for up to three bytes, shortest form only and no surrogates; `Utf8RoundTrip` and `Utf8BoundsOffByOne` measure both encoders against it |
| `FatBoot.LowerName` | boot/filesystem/fat/fat.c:250 | the `FAT_ATTR2_LCASE_NAME` bit, 0x08 of `attribute2` |
| `FatBoot.LowerExt` | boot/filesystem/fat/fat.c:257 | the `FAT_ATTR2_LCASE_EXT` bit, 0x10 of `attribute2` |
| `FatBoot.Shown` | boot/filesystem/fat/fat.c:249-257 | a byte as the name shows it: an upper-case letter lowered when the flag is set, anything else as is; `ShownIsToLower` shows this is `tolower` on 7-bit bytes |
| `FatBoot.Lowerable` | boot/filesystem/fat/fat.c:250-257 | every byte a set flag hands to `tolower` is 7-bit; `SfnName` is undefined exactly when it fails |
| `FatBoot.FieldLengthIs` | boot/filesystem/fat/fat.c:248 | a field whose first space is at n has n characters before it |
| `FatBoot.Step` | boot/filesystem/fat/fat.c:269 | one step of the checksum, the sum rotated right plus the byte modulo 256; `StepSeparatesBytes` and `StepSeparatesSums` show it is injective in each argument |
| `FatBoot.Checksum` | boot/filesystem/fat/fat.c:266-272 | the checksum of a run of bytes, one step per byte from 0; `ChecksumStep` and `ChecksumCoversTwoMore` state it |
| `FatBoot.ValidVolume` | boot/filesystem/fat/fat.c:588-708 | what `mount` establishes: sectors of at least four bytes, at least one FAT and one sector per cluster, the cluster size their product, a disk of whole sectors |
| `FatBoot.ClusterBase` | boot/filesystem/fat/fat.c:313-325 | the first sector of cluster 2: the data area's start, past the root directory on FAT12 and FAT16 |
| `FatBoot.MaxCluster` | boot/filesystem/fat/fat.c:374-403 | the largest cluster number that links on, per FAT type |
| `FatBoot.ValidDriver` | boot/filesystem/fat/fat.c:349-456 | what the file code relies on from the driver: fetched clusters have the cluster size, a failed fetch reports a failure, and a linking cluster's entry is read or its fetch fails; `Mounted` builds one |
| `FatBoot.Link` | boot/filesystem/fat/fat.c:374-403 | one link of the chain: INVALID_VALUE past the maximum, the read failure, END_OF_LIST on a next cluster past the maximum, else success; `LinkIsFollow` shows it is one step of `Follow` |
| `FatBoot.ByteAt` | boot/filesystem/fat/fat.c:795-804 | the byte at a position of the file: the one at its offset in the cluster the chain reaches for its index, when that cluster can be reached and fetched; `ReadContents` shows `read` copies these |
| `FatBoot.ClusterIndex` | boot/filesystem/fat/fat.c:795-850 | the cluster of the file a position falls in, counted one cluster at a time; `DivMod` shows it is the quotient by the cluster size |
| `FatBoot.ClusterOffset` | boot/filesystem/fat/fat.c:795 | the offset of a position in its cluster, below the cluster size; `DivMod` shows it is the remainder |
| `FatBoot.HoldsAt` | boot/filesystem/fat/fat.c:794-814 | the file holds the given bytes from a position on; `ReadContents` shows the loop copies such bytes |
| `FatBoot.ClampAsWritten` | boot/filesystem/fat/fat.c:790-792 | the clamp `read` computes, with `cursor + len` taken modulo 2^32; `ClampWraps` shows an input it misses and `ClampAgrees` where it is the intended one |
| `FatBoot.FatFile.Valid` | boot/filesystem/fat/fat.c:24-31 | the file invariant: a valid driver, a 32-bit size, the cursor within the file and the current cluster the one the chain reaches for it; every method of `FatFile` keeps it |
| `MkfsDecode.Wrap64` | bin/mkfs.afs/main.c:163-198 | a `uint64_t` holds a value modulo 2^64, and a value that fits unchanged |
| `MkfsDecode.WrapStep` | bin/mkfs.afs/main.c:188-189 | reducing the register after each digit gives the value reduced once at the end |
| `MkfsDecode.DigitsFrom` | bin/mkfs.afs/main.c:201-250 | a digit loop succeeds exactly when every character from the start is a digit of the base, with the digits' value modulo 2^64 |
| `MkfsDecode.Accumulate` | bin/mkfs.afs/main.c:201-250 | the source's digit loops, the shifts and ORs of bases 16, 8 and 2 included, compute that value or refuse |
| `MkfsDecode.UnitPower` | bin/mkfs.afs/main.c:171-183 | k, M, G and T stand for the first to fourth powers of 1024 |
| `MkfsDecode.SizeOf` | bin/mkfs.afs/main.c:161-194 | a size that `decode_size` accepts fits 64 bits |
| `MkfsDecode.ScaleStep` | bin/mkfs.afs/main.c:172-179 | one more `result *= 1024` on the wrapped register is one more power of 1024 |
| `MkfsDecode.DecodeSize` | bin/mkfs.afs/main.c:161-194 | the loop computes the size that `SizeOf` defines, or refuses where it does |
| `MkfsDecode.Scale` | bin/mkfs.afs/main.c:171-183 | the falling-through switch multiplies by the unit's power of 1024 modulo 2^64 |
| `MkfsDecode.SizeRoundTrip` | bin/mkfs.afs/main.c:161-194 | the decimal numeral of a 64-bit value reads back as the value |
| `MkfsDecode.SizeWithUnit` | bin/mkfs.afs/main.c:165-185 | a numeral and a unit letter read back as the value times the unit, modulo 2^64 |
| `MkfsDecode.SizeSuffixNotLast` | bin/mkfs.afs/main.c:166-169 | anything after a unit letter or any other non-digit is refused |
| `MkfsDecode.UintOf` | bin/mkfs.afs/main.c:196-258 | a value `decode_uint` accepts fits 64 bits |
| `MkfsDecode.DecodeUint` | bin/mkfs.afs/main.c:196-258 | the prefix test and digit loop compute the value `UintOf` defines, or refuse where it does |
| `MkfsDecode.UintDecimalRoundTrip` | bin/mkfs.afs/main.c:200-257 | the decimal numeral of a 64-bit value reads back as the value |
| `MkfsDecode.UintHexRoundTrip` | bin/mkfs.afs/main.c:214-226 | "0x" and a hexadecimal numeral read back as the value |
| `MkfsDecode.UintOctalRoundTrip` | bin/mkfs.afs/main.c:228-240 | "0o" and an octal numeral read back as the value |
| `MkfsDecode.UintBinaryRoundTrip` | bin/mkfs.afs/main.c:242-254 | "0b" and a binary numeral read back as the value |
| `MkfsDecode.UintLeadingZeroOctal` | bin/mkfs.afs/main.c:228-229 | a '0' followed by an octal numeral reads as octal |
| `MkfsDecode.UintBadDigit` | bin/mkfs.afs/main.c:202-245 | a digit outside the base is refused in each notation |
| `MkfsDecode.UnknownPrefixAccepted` | bin/mkfs.afs/main.c:256-257 | an unknown letter after the leading '0' is accepted with the value 0, whatever follows |
| `MkfsDecode.UintOfChecked` | bin/mkfs.afs/main.c:196-258 | the decoder refusing an unknown prefix accepts exactly the numerals of its four notations and "0" |
| `MkfsDecode.CheckedAgrees` | bin/mkfs.afs/main.c:196-258 | on the strings meant to be accepted, the check changes nothing |
| `MkfsDecode.Nibbles` | bin/mkfs.afs/main.c:265-285 | the hexadecimal digits of the text, in order, each below 16 |
| `MkfsDecode.Pack` | bin/mkfs.afs/main.c:262-283 | the nibbles packed into 16 bytes |
| `MkfsDecode.UuidOf` | bin/mkfs.afs/main.c:260-288 | accepted exactly when every character is a hexadecimal digit or a dash at 8, 13, 18 or 23 and there are at most 32 digits; the result has 16 bytes |
| `MkfsDecode.PackStep` | bin/mkfs.afs/main.c:282-283 | one more digit shifts its byte left by four bits in 8 bits and ORs the digit in |
| `MkfsDecode.DecodeUuid` | bin/mkfs.afs/main.c:260-288 | returns 0 exactly when the text is accepted, and then the bytes are the packed digits; 1 otherwise |
| `MkfsDecode.Clear` | bin/mkfs.afs/main.c:262 | the 16 bytes start at zero |
| `MkfsDecode.ShiftIn` | bin/mkfs.afs/main.c:282-283 | the array becomes the packing of one more digit |
| `MkfsDecode.NotUuid` | bin/mkfs.afs/main.c:266-275 | a bad character anywhere refuses the whole text |
| `MkfsDecode.TooManyDigits` | bin/mkfs.afs/main.c:278-280 | a 33rd digit refuses the whole text |
| `MkfsDecode.HexByte` | bin/mkfs.afs/main.c:283 | two hexadecimal digits of a byte, high first |
| `MkfsDecode.HexOf` | bin/mkfs.afs/main.c:265-285 | the 32 hexadecimal digits of 16 bytes |
| `MkfsDecode.Split` | bin/mkfs.afs/main.c:282-283 | the nibbles of the bytes, high then low |
| `MkfsDecode.NibblesOfHex` | bin/mkfs.afs/main.c:265-285 | the digits of the undashed text are the nibbles of the bytes |
| `MkfsDecode.PackSplit` | bin/mkfs.afs/main.c:282-283 | packing the nibbles of 16 bytes gives back the bytes |
| `MkfsDecode.UuidRoundTrip` | bin/mkfs.afs/main.c:260-288 | the 32 hexadecimal digits of a 16-byte identifier decode to it |
| `MkfsDecode.MisplacedDash` | bin/mkfs.afs/main.c:270-272 | a dash at position 7 is refused |
| `MkfsDecode.AllDigits` | bin/mkfs.afs/main.c:201-250 | every character from a position on is a digit of the base: what a digit loop needs to succeed; `DigitsFrom` states it |
| `MkfsDecode.DigitsEndAll` | bin/mkfs.afs/main.c:201-208 | a run made only of digits of the base ends at the end of the text |
| `MkfsDecode.DigitsEndStops` | bin/mkfs.afs/main.c:165-170 | a non-digit after a run of digits ends the run there |
| `MkfsDecode.Pow1024` | bin/mkfs.afs/main.c:171-180 | a power of 1024, the factor each fall-through of the unit switch multiplies by; `UnitPower` names the units |
| `MkfsDecode.Prefixed` | bin/mkfs.afs/main.c:214-254 | a numeral after a prefix reads as the numeral's value |
| `MkfsDecode.Numeric` | bin/mkfs.afs/main.c:196-258 | the texts `decode_uint` is meant to accept: decimal, "0x" hex, "0o" or "0" octal, "0b" binary, or "0"; `UintOfChecked` shows the checked decoder accepts exactly these |
| `MkfsDecode.DashAt` | bin/mkfs.afs/main.c:271 | the positions 8, 13, 18 and 23 where `decode_uuid` allows a dash |
| `MkfsDecode.UuidChars` | bin/mkfs.afs/main.c:266-275 | every character is a hex digit or a dash at an allowed position; `UuidOf` accepts only such texts |
| `MkfsDecode.PackedByte` | bin/mkfs.afs/main.c:282-283 | byte k of the identifier holds nibbles 2k and 2k+1, the first one high; `PackSplit` shows packing inverts splitting |
| `MkfsDecode.NibblesStep` | bin/mkfs.afs/main.c:265-285 | one more character adds its nibble to the digits read so far exactly when it is a hex digit |
| `MkfsDecode.NibblesGrow` | bin/mkfs.afs/main.c:265-285 | reading further never loses digits |
| `Ps2Keyboard.SizeOf` | boot/device/hid/ps2_keyboard.c:215-352 | `sizeof` of a `uint16_t` table counts two bytes per entry |
| `Ps2Keyboard.At` | boot/device/hid/ps2_keyboard.c:215-222 | an index inside the table gives its key code; one outside gives a read past the table |
| `Ps2Keyboard.Set1AsWritten` | boot/device/hid/ps2_keyboard.c:190-305 | 0xE0 always enters the extended state and 0xE1 the Pause state, even inside a Pause sequence |
| `Ps2Keyboard.Set2AsWritten` | boot/device/hid/ps2_keyboard.c:307-445 | 0xF0 enters the break state (extended after 0xE0), 0xE0 the extended state and 0xE1 the Pause state, even inside a Pause sequence |
| `Ps2Keyboard.Set1` | boot/device/hid/ps2_keyboard.c:190-305 | every key reported lies in a table; outside a Pause sequence 0xE0 and 0xE1 only change state; in the default state a byte that reports nothing is one of the ignored codes |
| `Ps2Keyboard.PauseStep1` | boot/device/hid/ps2_keyboard.c:239-292 | the only key a Pause sequence reports is Pause, released for Ctrl+Pause |
| `Ps2Keyboard.Set2` | boot/device/hid/ps2_keyboard.c:307-445 | every key reported lies in a table; outside a Pause sequence the prefixes only change state |
| `Ps2Keyboard.PauseStep2` | boot/device/hid/ps2_keyboard.c:359-432 | the only key a Pause sequence reports is Pause, released for Ctrl+Pause |
| `Ps2Keyboard.Emitted` | boot/device/hid/ps2_keyboard.c:439-442 | one byte reports at most one event |
| `Ps2Keyboard.Run` | boot/device/hid/ps2_keyboard.c:505-516 | polling a byte sequence reports at most one event per byte |
| `Ps2Keyboard.PauseSet2` | boot/device/hid/ps2_keyboard.c:327-406 | the set-2 Pause sequence E1 14 77 E1 F0 14 F0 77 reports one Pause press and ends in the default state |
| `Ps2Keyboard.CtrlPauseSet2` | boot/device/hid/ps2_keyboard.c:407-428 | the set-2 Ctrl+Pause sequence E0 7E E0 F0 7E reports one Pause release |
| `Ps2Keyboard.PauseSet1` | boot/device/hid/ps2_keyboard.c:203-273 | the set-1 Pause sequence E1 1D 45 E1 9D C5 reports one Pause press |
| `Ps2Keyboard.CtrlPauseSet1` | boot/device/hid/ps2_keyboard.c:225-290 | the set-1 Ctrl+Pause sequence E0 46 E0 C6 reports one Pause release |
| `Ps2Keyboard.PauseLostSet2` | boot/device/hid/ps2_keyboard.c:316-330 | as written, the set-2 Pause sequence reports releases of left Ctrl and Num Lock instead of Pause |
| `Ps2Keyboard.PauseLostSet1` | boot/device/hid/ps2_keyboard.c:199-222 | as written, set 1 leaves the Pause sequence at its second 0xE1 and reads 0xC5 past the table |
| `Ps2Keyboard.CtrlPauseLostSet2` | boot/device/hid/ps2_keyboard.c:346-356 | as written, 0x7E after 0xE0 is also looked up as a key press |
| `Ps2Keyboard.BreakPastTableSet1` | boot/device/hid/ps2_keyboard.c:215-217 | as written, the set-1 break code 0x9E passes the byte-sized bound and is read as a make code past the table |
| `Ps2Keyboard.MakeBreakSet1` | boot/device/hid/ps2_keyboard.c:208-222 | a set-1 make code and its break code 0x80 higher report the same key, pressed then released |
| `Ps2Keyboard.MakeBreakSet2` | boot/device/hid/ps2_keyboard.c:317-344 | a set-2 make code, and 0xF0 before it, report the same key pressed then released |
| `Ps2Keyboard.ExtendedMakeBreakSet2` | boot/device/hid/ps2_keyboard.c:317-356 | an extended set-2 code after 0xE0, and after 0xE0 0xF0, reports the extended key pressed then released |
| `Ps2Keyboard.MismatchResetsSet2` | boot/device/hid/ps2_keyboard.c:359-431 | inside a Pause sequence a byte other than the awaited one resets to the default state and reports nothing |
| `Ps2Keyboard.AwaitedAdvancesSet2` | boot/device/hid/ps2_keyboard.c:359-428 | the awaited byte moves the sequence on or completes it with Pause |
| `Ps2Keyboard.Count` | boot/device/hid/ps2_keyboard.c:36-37 | the ring holds at most 63 bytes, and none exactly when start equals end |
| `Ps2Keyboard.Next` | boot/device/hid/ps2_keyboard.c:528 | the next index wraps at the buffer's 64 bytes |
| `Ps2Keyboard.Slot` | boot/device/hid/ps2_keyboard.c:528 | the index k places after start, wrapping at 64 |
| `Ps2Keyboard.Queued` | boot/device/hid/ps2_keyboard.c:527 | the queued bytes number the count, oldest at start |
| `Ps2Keyboard.EmptyPollRefills` | boot/device/hid/ps2_keyboard.c:505-516 | polling an empty ring moves start past end, so 63 stale bytes count as queued |
| `Ps2Keyboard.Keyboard.Pending` | boot/device/hid/ps2_keyboard.c:36-37 | fewer than 64 bytes are pending |
| `Ps2Keyboard.Keyboard.constructor` | boot/device/hid/ps2_keyboard.c:560-565 | the ring starts empty, the state default, scan-code set 1 |
| `Ps2Keyboard.Keyboard.Acknowledge` | boot/device/hid/ps2_keyboard.c:593-595 | the reply 0xFA switches to set 2, any other keeps the set; nothing else changes |
| `Ps2Keyboard.Keyboard.Receive` | boot/device/hid/ps2_keyboard.c:523-533 | the byte is appended to the pending bytes, or dropped when 63 are already pending |
| `Ps2Keyboard.Keyboard.PollEventAsWritten` | boot/device/hid/ps2_keyboard.c:505-516 | with a known set the byte at start is translated by the as-written machine and start advances, even on an empty ring, leaving 63 bytes pending |
| `Ps2Keyboard.Keyboard.PollEvent` | boot/device/hid/ps2_keyboard.c:505-516 | nothing happens on an empty ring or an unknown set; otherwise the oldest byte is consumed and translated by the corrected machine |
| `Ps2Keyboard.Shaped` | boot/device/hid/ps2_keyboard.c:82-155 | the four tables have the sizes the driver declares: 128, 128, 132 and 128 entries |
| `Ps2Keyboard.Press` | boot/device/hid/ps2_keyboard.c:215-223 | a key reported, pressed or released, with the machine back in the default state |
| `Ps2Keyboard.Expect` | boot/device/hid/ps2_keyboard.c:358-364 | a Pause state moves on at the awaited byte and falls back to the default state on any other, reporting nothing |
| `Ps2Keyboard.Ignored` | boot/device/hid/ps2_keyboard.c:209-214 | LANG2, LANG1 and the self-test failure code, which set 1 drops in the default state |
| `Ps2Keyboard.Translate` | boot/device/hid/ps2_keyboard.c:505-516 | `poll_event` dispatching to the set-1 or set-2 machine, as written or corrected |
| `Ps2Keyboard.CtrlPauseLostSet1` | boot/device/hid/ps2_keyboard.c:199-205 | as written, set 1 takes the second 0xE0 of Ctrl+Pause as a new prefix and reads 0xC6 as an extended make code past the table, so no Pause release is reported |
| `Ps2Keyboard.Awaited2` | boot/device/hid/ps2_keyboard.c:358-428 | the byte each set-2 Pause state awaits; `AwaitedAdvancesSet2` and `MismatchResetsSet2` state what it and any other byte do |
| `Ps2Keyboard.Keyboard.Valid` | boot/device/hid/ps2_keyboard.c:36-37 | the ring of 64 bytes with both indices inside it, and tables of the declared sizes |
| `AnsiTerm.AfterEsc` | boot/term/ansi.c:127-166 | the byte after ESC never stays in ESC; '[' and only '[' opens a control sequence; any byte but the nine introducers returns to the default state |
| `AnsiTerm.SignedChar` | boot/term/ansi.c:517-578 | `char` is signed: bytes from 0x80 are negative |
| `AnsiTerm.Level` | boot/term/ansi.c:21-91 | each level of the colour cube is a byte |
| `AnsiTerm.Rgbi` | boot/term/ansi.c:21-91 | each of the 16 RGBI colours is a 24-bit colour |
| `AnsiTerm.Palette` | boot/term/ansi.c:21-91 | every palette entry is a 24-bit colour |
| `AnsiTerm.PaletteEntries` | boot/term/ansi.c:21-91 | the formula gives the table's entries at the RGBI ends, the cube's corners and both ends of the grey ramp |
| `AnsiTerm.Pack` | boot/term/ansi.c:369-377 | the three components, each cut to a byte, are the red, green and blue bytes of the packed colour |
| `AnsiTerm.ExtendedColour` | boot/term/ansi.c:362-378 | a packed colour is 24 bits; `38;5;n` reads past the palette exactly when n is 256 or more |
| `AnsiTerm.Arg0` | boot/term/ansi.c:170-295 | the first parameter, or the default when none was given |
| `AnsiTerm.Sgr` | boot/term/ansi.c:293-423 | SGR 0 restores the plain rendition, 30-37 and 40-47 pick palette colours, and a colour set is always 24 bits |
| `AnsiTerm.ResetKeepsReverse` | boot/term/ansi.c:296-327 | as written SGR 0 leaves reverse video on; as meant it turns it off |
| `AnsiTerm.PaletteOverrun` | boot/term/ansi.c:363-366 | as written `38;5;300` reads past the palette; as meant it changes nothing |
| `AnsiTerm.SgrTrueColour` | boot/term/ansi.c:368-377 | `38;2;r;g;b` sets the foreground to the packed colour and nothing else |
| `AnsiTerm.MoveAsWritten` | boot/term/ansi.c:168-241 | the motions as written stay non-negative from a cell on the screen, but CUD and CUF may move one past the screen's edge and further |
| `AnsiTerm.Arg` | boot/term/ansi.c:230-231 | a parameter not given defaults to 1 |
| `AnsiTerm.CursorLeavesScreen` | boot/term/ansi.c:176-241 | on an 80x25 screen CUD from the bottom row, CUF from the last column and CUP 99;99 leave the screen |
| `AnsiTerm.Move` | boot/term/ansi.c:168-241 | the intended motions keep the cursor on the screen: up and back stop at 0, down and forward at the last row and column |
| `AnsiTerm.Clamp` | boot/term/ansi.c:172-225 | a position limited to the screen, unchanged when already on it |
| `AnsiTerm.MoveAgrees` | boot/term/ansi.c:168-241 | where the written motion stays on the screen it is the intended one |
| `AnsiTerm.EdKeepsRowsBelow` | boot/term/ansi.c:247-251 | as written, ED 0 on the top row leaves the rows below it untouched |
| `AnsiTerm.Ed` | boot/term/ansi.c:243-263 | ED only erases |
| `AnsiTerm.EdErasesCells` | boot/term/ansi.c:243-263 | ED 0 erases exactly the cells from the cursor on, ED 1 exactly those up to the cursor, ED 2 and 3 every cell, other options none |
| `AnsiTerm.El` | boot/term/ansi.c:264-277 | the erase rectangle `handle_el` draws for options 0 and 1 and none for the others; `ElErasesCells` states which cells it covers |
| `AnsiTerm.Init` | boot/term/ansi.c:98-125 | a fresh terminal satisfies the invariant, in the default state, with the cursor at the origin and nothing drawn |
| `AnsiTerm.InitAsWritten` | boot/term/ansi.c:98-125 | the fields `ansi_init_state` leaves unset keep whatever they held; the invariant holds unless the number flag was left set |
| `AnsiTerm.LineFeed` | boot/term/ansi.c:558-563 | the cursor moves down a row, or the screen scrolls one row at the bottom; the invariant is kept |
| `AnsiTerm.Control` | boot/term/ansi.c:534-588 | the default state keeps the invariant, and a printable byte is drawn at the cursor first |
| `AnsiTerm.C0` | boot/term/ansi.c:535-576 | the control characters keep the invariant |
| `AnsiTerm.CarriageLineFeed` | boot/term/ansi.c:551-557 | LF goes to column 0 of the next row, scrolling at the bottom |
| `AnsiTerm.Print` | boot/term/ansi.c:577-587 | a printable byte is drawn at the cursor before anything else, and the invariant is kept |
| `AnsiTerm.Digit` | boot/term/ansi.c:498-504 | a digit extends the current parameter, or opens the next while fewer than eight are open |
| `AnsiTerm.DigitSlotAsWritten` | boot/term/ansi.c:500-503 | as written, a digit after eight parameters and a separator goes to slot 8, past the array |
| `AnsiTerm.Act` | boot/term/ansi.c:444-495 | a final byte keeps the invariant |
| `AnsiTerm.CsiByte` | boot/term/ansi.c:444-515 | a final byte ends the sequence; digits and separators keep it open |
| `AnsiTerm.Feed` | boot/term/ansi.c:517-590 | one byte keeps the terminal invariant |
| `AnsiTerm.EscBracketOpensCsi` | boot/term/ansi.c:127-146 | ESC '[' opens a control sequence with no parameters and the cursor where it was |
| `AnsiTerm.ParametersAccumulate` | boot/term/ansi.c:498-508 | a digit extends the current parameter, and a separator makes the next digit open another |
| `AnsiTerm.PrintableAdvances` | boot/term/ansi.c:577-587 | a printable byte is drawn at the cursor, which moves right, wraps after the last column and scrolls at the bottom |
| `AnsiTerm.HighBytesIgnored` | boot/term/ansi.c:578 | bytes from 0x80 change nothing |
| `AnsiTerm.EscOtherEnds` | boot/term/ansi.c:127-166 | any byte other than the introducers ends an escape sequence with nothing else changed |
| `AnsiTerm.DigitAsWritten` | boot/term/ansi.c:498-504 | as written, a digit is undefined exactly when its slot is past the array; otherwise only parameters change |
| `AnsiTerm.ActAsWritten` | boot/term/ansi.c:444-495 | as written, a final byte keeps the screen's shape; only SGR can be undefined |
| `AnsiTerm.CsiByteAsWritten` | boot/term/ansi.c:444-515 | as written, a byte of a control sequence keeps the screen's shape |
| `AnsiTerm.FeedAsWritten` | boot/term/ansi.c:517-590 | as written, a byte keeps the screen's shape, and can be undefined only inside a control sequence |
| `AnsiTerm.RunAsWritten` | boot/term/ansi.c:517-590 | a run as written that stays on the screen ends in a state the written code can continue from |
| `AnsiTerm.Run` | boot/term/ansi.c:517-590 | a run as meant keeps the terminal invariant |
| `AnsiTerm.FeedAgrees` | boot/term/ansi.c:444-590 | the written terminal is undefined exactly on an out-of-palette SGR or a ninth parameter, and elsewhere, while the cursor stays on the screen, it is the intended one |
| `AnsiTerm.FinalAgrees` | boot/term/ansi.c:444-495 | the same agreement for a final byte |
| `AnsiTerm.LeftoverStateSwallows` | boot/term/ansi.c:98-125 | a CSI state left over by `ansi_init_state` makes 'A' move the cursor instead of drawing |
| `AnsiTerm.LeftoverNumberFlagUndefined` | boot/term/ansi.c:98-125 | a number flag left over makes the first digit write before the parameter array |
| `AnsiTerm.Opened` | boot/term/ansi.c:127-146 | ESC '[' leads to a control sequence with no parameters |
| `AnsiTerm.OpenRun` | boot/term/ansi.c:127-146 | ESC '[' opens a control sequence in both terminals alike |
| `AnsiTerm.DigitRun` | boot/term/ansi.c:498-504 | a digit with a slot left goes the same way in both terminals |
| `AnsiTerm.CursorDownLeavesScreen` | boot/term/ansi.c:176-182 | as written `ESC [ 9 9 B` on the bottom row leaves the screen; as meant the cursor stays on the bottom row |
| `AnsiTerm.ReverseOn` | boot/term/ansi.c:325-328 | `ESC [ 7 m` switches reverse video on in both terminals |
| `AnsiTerm.ResetRun` | boot/term/ansi.c:296-300 | as written `ESC [ 0 m` leaves reverse video on; as meant it turns it off |
| `AnsiTerm.ResetKeepsReverseRun` | boot/term/ansi.c:296-328 | as written reverse video survives `ESC [ 7 m ESC [ 0 m`; as meant it does not |
| `AnsiTerm.RunAppends` | boot/term/ansi.c:517-590 | running two pieces is running the first, then the second from where it ended |
| `AnsiTerm.RunAsWrittenAppends` | boot/term/ansi.c:517-590 | the same for the written terminal while the first piece stays on the screen |
| `AnsiTerm.Terminal.constructor` | boot/term/ansi.c:98-125 | a fresh terminal object is in the state `Init` defines |
| `AnsiTerm.Terminal.PutChar` | boot/term/ansi.c:517-590 | the terminal's new state is one byte of `Feed` |
| `AnsiTerm.Terminal.HandleEsc` | boot/term/ansi.c:127-166 | the escape handler moves the state as `Feed` does |
| `AnsiTerm.Terminal.HandleCsi` | boot/term/ansi.c:444-515 | the control-sequence handler moves the state as `Feed` does |
| `AnsiTerm.Terminal.Perform` | boot/term/ansi.c:444-495 | the handler of a final byte moves the state as `Act` does |
| `AnsiTerm.Terminal.AddDigit` | boot/term/ansi.c:498-504 | a digit changes the parameters as `Digit` does |
| `AnsiTerm.Terminal.PutDefault` | boot/term/ansi.c:534-588 | the default-state half moves the state as `Feed` does |
| `AnsiTerm.Terminal.PutPrintable` | boot/term/ansi.c:577-587 | drawing a byte moves the state as `Print` does |
| `AnsiTerm.Terminal.PutControl` | boot/term/ansi.c:535-576 | a control character moves the state as `C0` does |
| `AnsiTerm.Terminal.NewLine` | boot/term/ansi.c:558-563 | the cursor moves down a row, or stays on the bottom row and the screen scrolls one row |
| `AnsiTerm.Plain` | boot/term/ansi.c:296-300 | the rendition SGR 0 means: palette white on black with every emphasis, blink and reverse flag off; `ResetRun` shows the written code differs on reverse video |
| `AnsiTerm.SgrAsWritten` | boot/term/ansi.c:293-423 | `handle_sgr` as the code is written: no result for `38;5;n` or `48;5;n` past the palette, and SGR 0 keeps reverse video; `ResetKeepsReverse` and `PaletteOverrun` state where it departs from `Sgr` |
| `AnsiTerm.EdAsWritten` | boot/term/ansi.c:243-262 | `handle_ed` as the code is written, with ED 0 testing the row and ED 1 testing the column before erasing the other rows; `EdKeepsRowsBelow` and `EdKeepsRowsAbove` show the rows they miss |
| `AnsiTerm.EdKeepsRowsAbove` | boot/term/ansi.c:252-255 | as written, ED 1 at column 5 of row 3 leaves the top left cell untouched, because the test meant for the row looks at the column |
| `AnsiTerm.ElErasesCells` | boot/term/ansi.c:264-277 | EL 0 erases exactly the cells of the cursor's row from the cursor on, EL 1 exactly those up to the cursor, and any other option erases no cell |
| `AnsiTerm.Final` | boot/term/ansi.c:444-495 | the final bytes `handle_csi` dispatches on; `CsiByte` shows that any of them ends the sequence |
| `AnsiTerm.Framed` | boot/term/ansi.c:98-125 | the part of the terminal invariant the written code keeps even after the cursor leaves the screen: a non-empty screen, the saved cursor on it, eight parameter slots with at most eight in use; `FeedAsWritten` keeps it |
| `AnsiTerm.Sane` | boot/term/ansi.c:98-125 | `Framed` with the cursor on the screen: the states the written code can start from; `InitAsWritten` produces one |
| `AnsiTerm.Good` | boot/term/ansi.c:98-125 | the terminal invariant: `Sane` and a number read only inside an open parameter; `Init` establishes it and `Feed` keeps it |
| `AnsiTerm.CursorDownStep` | boot/term/ansi.c:176-182 | on the bottom row of 80x25 with parameter 99, 'B' as written leaves the screen, while as meant the cursor stays on the bottom row |
| `AnsiTerm.Terminal.Valid` | boot/term/ansi.c:98-125 | the object's fields, read as a state, satisfy the terminal invariant `Good`; every method of `Terminal` keeps it |
| `AnsiTermDevice.LeadLen` | boot/device/char/ansiterm.c:856-871 | one byte below 0x80, -1 from 0xF8, otherwise two to four bytes |
| `AnsiTermDevice.LeadBits` | boot/device/char/ansiterm.c:856-871 | an ASCII byte is its own payload; a multi-byte lead carries fewer than 32 payload values |
| `AnsiTermDevice.DecodeOne` | boot/device/char/ansiterm.c:853-893 | ASCII is one byte; a lead from 0xF8 is one U+FFFD; the bytes used after a lead are continuation bytes; a sequence cut short by a non-continuation byte is U+FFFD; a complete one is its payload |
| `AnsiTermDevice.FirstBad` | boot/device/char/ansiterm.c:880-886 | the first non-continuation byte from i, with every byte before it a continuation byte |
| `AnsiTermDevice.Decode` | boot/device/char/ansiterm.c:844-907 | what is left undecoded is an incomplete sequence of at most three bytes |
| `AnsiTermDevice.DecodeTail` | boot/device/char/ansiterm.c:873-878 | what is left is the end of the stream, and an incomplete stream is left whole |
| `AnsiTermDevice.DecodeAscii` | boot/device/char/ansiterm.c:856-858 | ASCII passes through one character per byte, with nothing left over |
| `AnsiTermDevice.DecodeChunks` | boot/device/char/ansiterm.c:831-878 | decoding does not depend on how the stream is cut into writes when the tail is carried over |
| `AnsiTermDevice.DecodeUnfold` | boot/device/char/ansiterm.c:853-901 | a stream whose first sequence is complete decodes to its character followed by the rest |
| `AnsiTermDevice.DecodeOneLocal` | boot/device/char/ansiterm.c:880-893 | a complete character decodes the same whatever follows it |
| `AnsiTermDevice.DecodesFatUtf8` | boot/device/char/ansiterm.c:853-893 | what the FAT driver's intended UTF-8 encoding writes, the terminal decodes back to the same character |
| `AnsiTermDevice.DecodesTwoBytes` | boot/device/char/ansiterm.c:859-888 | a two-byte encoding decodes back to its character |
| `AnsiTermDevice.DecodesThreeBytes` | boot/device/char/ansiterm.c:862-888 | a three-byte encoding decodes back to its character |
| `AnsiTermDevice.WriteFresh` | boot/device/char/ansiterm.c:844-907 | with no fragment kept, the written loop decodes exactly as `Decode` does |
| `AnsiTermDevice.WriteAgrees` | boot/device/char/ansiterm.c:844-907 | the written loop goes wrong exactly when the first sequence is complete but uses fewer bytes than the fragment holds; otherwise it decodes the fragment followed by the buffer |
| `AnsiTermDevice.WriteAgreesPass` | boot/device/char/ansiterm.c:880-900 | a pass that decodes a character without rewinding agrees with `Decode` |
| `AnsiTermDevice.FragmentRewinds` | boot/device/char/ansiterm.c:873-900 | writes of E2, 41 and 42 keep E2 41 in the fragment, and then the malformed sequence uses one byte and moves `buf` back before its start, where one stream decodes to U+FFFD, 'A', 'B' |
| `AnsiTermDevice.ShortMalformedStream` | boot/device/char/ansiterm.c:880-893 | E2 41 42 as one stream is U+FFFD, 'A', 'B' |
| `AnsiTermDevice.ShortMalformed` | boot/device/char/ansiterm.c:880-886 | a lead followed by a non-continuation byte uses one byte and gives U+FFFD |
| `AnsiTermDevice.ParamAsWritten` | boot/device/char/ansiterm.c:717-736 | the parameters as written stay within eight slots |
| `AnsiTermDevice.Param` | boot/device/char/ansiterm.c:717-736 | the parameters stay within eight slots, and a digit inside a parameter always extends it |
| `AnsiTermDevice.ParamAgrees` | boot/device/char/ansiterm.c:725-731 | below eight parameters the two agree |
| `AnsiTermDevice.EighthParamTruncated` | boot/device/char/ansiterm.c:725-727 | as written the eighth parameter of `1;2;3;4;5;6;7;89` keeps only its first digit, 8; as meant it is 89 |
| `AnsiTermDevice.TabStart` | boot/device/char/ansiterm.c:145-152 | `(v) & ~7` is the tab stop at or before v |
| `AnsiTermDevice.NextTab` | boot/device/char/ansiterm.c:773-774 | the next tab stop after x, at most eight columns on |
| `AnsiTermDevice.TabEraseAsWritten` | boot/device/char/ansiterm.c:773 | as written the erase starts at the cursor and ends on a multiple of eight past it, at most eight columns on, whatever the row's width |
| `AnsiTermDevice.TabEraseOverreach` | boot/device/char/ansiterm.c:773-774 | against the intended erase, the written one starts at the same column and ends one column further when the tab stop lies inside the row, and past the row's last column otherwise |
| `AnsiTermDevice.TabErasePastRow` | boot/device/char/ansiterm.c:773 | a tab at column 75 of an 80-column row erases column 80, past the row |
| `AnsiTermDevice.TabErase` | boot/device/char/ansiterm.c:773-774 | a tab erases from the cursor up to, not including, the next tab stop, and never past the row |
| `AnsiTermDevice.Backspace` | boot/device/char/ansiterm.c:129-154 | at column 0 it fails; a filled cell before the cursor is the new column; otherwise the cursor goes back over empty cells to just after the last filled one, no further than the tab stop |
| `AnsiTermDevice.Console.constructor` | boot/device/char/ansiterm.c:962-975 | no fragment, no parameters, nothing delivered |
| `AnsiTermDevice.Console.SeqChar` | boot/device/char/ansiterm.c:831-842 | byte idx of the fragment followed by the unread buffer |
| `AnsiTermDevice.Console.NextUnit` | boot/device/char/ansiterm.c:854-893 | the character and length at the start of the fragment followed by the unread buffer |
| `AnsiTermDevice.Console.Write` | boot/device/char/ansiterm.c:844-907 | returns the whole length, delivers what the fragment and buffer decode to, and keeps their incomplete end as the new fragment |
| `AnsiTermDevice.Console.Drain` | boot/device/char/ansiterm.c:853-901 | the loop runs until the buffer is used up, keeping the decoding invariant |
| `AnsiTermDevice.Console.Pass` | boot/device/char/ansiterm.c:854-900 | a pass keeps the decoding invariant and either stashes the rest or consumes at least a byte |
| `AnsiTermDevice.Console.Consume` | boot/device/char/ansiterm.c:880-900 | one character is delivered and its bytes dropped from the stream |
| `AnsiTermDevice.Console.Stash` | boot/device/char/ansiterm.c:873-877 | the rest of the buffer is appended to the fragment, which stays incomplete and shorter than four bytes |
| `AnsiTermDevice.Console.Shift` | boot/device/char/ansiterm.c:897-900 | dropping k bytes of the fragment keeps the rest |
| `AnsiTermDevice.Console.ParameterAsWritten` | boot/device/char/ansiterm.c:717-736 | the parameter state becomes what `ParamAsWritten` gives |
| `AnsiTermDevice.Console.Parameter` | boot/device/char/ansiterm.c:717-736 | the parameter state becomes what `Param` gives |
| `AnsiTermDevice.Payload` | boot/device/char/ansiterm.c:859-888 | the code point a lead and its continuation bytes carry: the lead's payload followed by the low six bits of each continuation byte; `DecodesTwoBytes` and `DecodesThreeBytes` show it inverts the UTF-8 encoding |
| `AnsiTermDevice.Incomplete` | boot/device/char/ansiterm.c:873-878 | a fragment worth keeping: empty, or a lead with fewer bytes than it announces; `Decode` leaves only such a tail |
| `AnsiTermDevice.WriteAsWritten` | boot/device/char/ansiterm.c:844-907 | `write` as the code is written, with no result once a pass moves `buf` before the input; `WriteAgrees` states when it matches `Decode` and `FragmentRewinds` an input where it does not |
| `AnsiTermDevice.ParamsOk` | boot/device/char/ansiterm.c:717-736 | the parameter invariant: eight slots, at most eight in use, and a number read only inside one; `Param` and `ParamAsWritten` keep it |
| `AnsiTermDevice.IsParamByte` | boot/device/char/ansiterm.c:717-736 | the bytes the parameter switch accepts: digits, '?', ';' and ':' |
| `AnsiTermDevice.Settle` | boot/device/char/ansiterm.c:873-878 | when what is left of the stream is incomplete, everything before it has been delivered and it is the whole kept tail |
| `AnsiTermDevice.Advance` | boot/device/char/ansiterm.c:880-900 | decoding one more complete character moves it from what is left of the stream to what has been delivered |
| `AnsiTermDevice.Console.Valid` | boot/device/char/ansiterm.c:962-975 | the device invariant: a four-byte fragment buffer holding an incomplete sequence of at most three bytes, and parameters satisfying `ParamsOk`; every method of `Console` keeps it |
| `AnsiTermDevice.Console.Decoding` | boot/device/char/ansiterm.c:853-901 | the invariant of the loop in `write`: what has been delivered, followed by what the rest of the stream decodes to, is what the whole stream decodes to |
| `AnsiTermDevice.Console.Stream` | boot/device/char/ansiterm.c:831-842 | the bytes `get_seq_char` reads: the fragment followed by the unread part of `buf` |
| `Vsnprintf.Store` | kernel/stdc/stdio/vsnprintf.c:49-56 | a store into the 24-bit width or 16-bit precision bit-field stays within its range and keeps a value that fits |
| `Vsnprintf.FlagRun` | kernel/stdc/stdio/vsnprintf.c:62-85 | the flag loop stops at the first non-flag character and steps over flag characters only |
| `Vsnprintf.FlagRunSets` | kernel/stdc/stdio/vsnprintf.c:62-85 | after the loop a flag is set exactly when it was set before or a character of the run names it |
| `Vsnprintf.DecimalRun` | kernel/stdc/stdio/vsnprintf.c:92-119 | the digit loop stops at a non-digit, keeps the start value on no digits and stays within the field |
| `Vsnprintf.DecimalRunStep` | kernel/stdc/stdio/vsnprintf.c:94-95 | each digit is `*= 10` then `+= digit`, each a store into the bit-field |
| `Vsnprintf.Length` | kernel/stdc/stdio/vsnprintf.c:124-160 | the length modifier takes none, one or two characters, two exactly for `hh` and `ll`, and none gives `int` |
| `Vsnprintf.Unsigned` | kernel/stdc/stdio/vsnprintf.c:178-200 | `u`, `o`, `x`, `X` turn a signed type into an unsigned one and `long double` into invalid |
| `Vsnprintf.Conversion` | kernel/stdc/stdio/vsnprintf.c:162-269 | the base and lower-case flag each conversion letter sets, the types it gives, the `n` pointer flag, and an unknown letter left unconsumed |
| `Vsnprintf.WidthAt` | kernel/stdc/stdio/vsnprintf.c:87-102 | `*` takes the width from the arguments; otherwise the digits give a width in the 24-bit range |
| `Vsnprintf.PrecisionAt` | kernel/stdc/stdio/vsnprintf.c:104-122 | no '.' means precision 0; `.*` takes it from the arguments |
| `Vsnprintf.SpecOf` | kernel/stdc/stdio/vsnprintf.c:58-274 | the specification ends within the format, with base 0, 8, 10 or 16 |
| `Vsnprintf.DecodeSpec` | kernel/stdc/stdio/vsnprintf.c:58-274 | the character-by-character decoder returns `SpecOf` |
| `Vsnprintf.ScanNumber` | kernel/stdc/stdio/vsnprintf.c:92-119 | the digit loop returns `DecimalRun` |
| `Vsnprintf.DecodeExample` | kernel/stdc/stdio/vsnprintf.c:58-274 | `-08.3lx` is left-justified, zero-filled, width 8, precision 3, unsigned long, lower-case base 16 |
| `Vsnprintf.PointerDefaults` | kernel/stdc/stdio/vsnprintf.c:251-257 | `%p` is base 16 with a precision of eight digits |
| `Vsnprintf.Hex` | kernel/stdc/stdio/vsnprintf.c:412-419 | the table character is a digit of value d, and '0' only for 0 |
| `Vsnprintf.Msd` | kernel/stdc/stdio/vsnprintf.c:427-431 | the digits of n, none exactly for 0 |
| `Vsnprintf.MsdDigits` | kernel/stdc/stdio/vsnprintf.c:427-431 | every figure is a digit of the base and the first is not '0' |
| `Vsnprintf.Figures` | kernel/stdc/stdio/vsnprintf.c:427-435 | at least one figure; "0" for zero |
| `Vsnprintf.FiguresValue` | kernel/stdc/stdio/vsnprintf.c:427-474 | read back in the base, the figures are the number, with no leading zero |
| `Vsnprintf.FitsRbuf` | kernel/stdc/stdio/vsnprintf.c:417 | a 64-bit number has at most 22 figures, so `rbuf` never overflows |
| `Vsnprintf.Magnitude` | kernel/stdc/stdio/vsnprintf.c:422-425 | a negative signed decimal prints 2^64 minus the number; any other number unchanged |
| `Vsnprintf.SignText` | kernel/stdc/stdio/vsnprintf.c:420-445 | '-' for a negative number, else one character exactly when the space or plus flag is set |
| `Vsnprintf.IntTextWidth` | kernel/stdc/stdio/vsnprintf.c:437-484 | the field is as wide as the width, or as the sign and at least `precision` figures when that is more |
| `Vsnprintf.NegativePrintsMagnitude` | kernel/stdc/stdio/vsnprintf.c:422-425 | a plain negative decimal prints '-' and the figures of its magnitude |
| `Vsnprintf.PlainNumber` | kernel/stdc/stdio/vsnprintf.c:427-474 | a plain non-negative number prints its figures alone |
| `Vsnprintf.ZeroPadSignOverflows` | kernel/stdc/stdio/vsnprintf.c:438-450 | `%05d` of -42 prints "-00042" as written and "-0042" as intended |
| `Vsnprintf.LayoutAgrees` | kernel/stdc/stdio/vsnprintf.c:438-450 | without a sign under the zero flag the two layouts agree |
| `Vsnprintf.TakeMore` | kernel/stdc/stdio/vsnprintf.c:454-483 | writing pieces one after another within the room is writing their concatenation within it |
| `Vsnprintf.Append` | kernel/stdc/stdio/vsnprintf.c:454-459 | a `while (... && len > 0)` loop writes what fits of the piece after what is written, and nothing else |
| `Vsnprintf.DoPrintInt` | kernel/stdc/stdio/vsnprintf.c:415-487 | writes what fits of the integer text after what is written, and nothing else |
| `Vsnprintf.Emit` | kernel/stdc/stdio/vsnprintf.c:437-486 | writes what fits of sign, padding, zeros, figures and right padding |
| `Vsnprintf.CollectDigits` | kernel/stdc/stdio/vsnprintf.c:417-435 | `rbuf` holds 1 to 22 characters which, reversed, are the figures |
| `Vsnprintf.Resolve` | kernel/stdc/stdio/vsnprintf.c:553-559 | the spec with its `*` width and precision filled in, width first; `ResolveReadsStars` states that only those arguments are read and nothing else changes |
| `Vsnprintf.FetchStars` | kernel/stdc/stdio/vsnprintf.c:554-559 | returns `Resolve` and steps over one argument per `*` |
| `Vsnprintf.Modulus` | kernel/stdc/stdio/vsnprintf.c:496-551 | each integer type reads 8, 16, 32 or 64 bits |
| `Vsnprintf.Narrow` | kernel/stdc/stdio/vsnprintf.c:496-551 | a value in range is kept, and a negative signed one is sign-extended to 2^64 plus it |
| `Vsnprintf.LowRange` | kernel/stdc/stdio/vsnprintf.c:511-531 | the truncating cast keeps a value in range and adds the modulus to a negative one |
| `Vsnprintf.IntOperandsAsWritten` | kernel/stdc/stdio/vsnprintf.c:495-559 | as written the number is the first argument taken, then the `*` width, then the `*` precision; `OperandsOrder` relates it to `IntOperands` |
| `Vsnprintf.IntOperands` | kernel/stdc/stdio/vsnprintf.c:495-559 | in the order C requires the `*` width is taken first, the `*` precision next and the number last, and nothing else of the spec changes |
| `Vsnprintf.StarWidthSwapped` | kernel/stdc/stdio/vsnprintf.c:495-559 | `%*d` of 5, 42 prints 5 in width 42 as written, 42 in width 5 as intended |
| `Vsnprintf.ClampWidth` | kernel/stdc/stdio/vsnprintf.c:562-564 | a width from 0 to len is kept; the result never exceeds len |
| `Vsnprintf.Prefix` | kernel/stdc/stdio/vsnprintf.c:566-580 | the prefix `#` asks for: none in decimal or without `#`, "0x"/"0X" in hexadecimal, "0" otherwise; `FieldAgrees` and `PrefixAsWritten` place it in the field |
| `Vsnprintf.PrefixAsWritten` | kernel/stdc/stdio/vsnprintf.c:566-580 | as written the prefix is cut to the clamped width and whole from width 2 |
| `Vsnprintf.PrefixNeedsWidth` | kernel/stdc/stdio/vsnprintf.c:567-579 | `%#x` without a width prints no "0x" as written |
| `Vsnprintf.IntFieldParts` | kernel/stdc/stdio/vsnprintf.c:566-583 | the field is the prefix followed by the number in what remains of the clamped width |
| `Vsnprintf.FieldAgrees` | kernel/stdc/stdio/vsnprintf.c:566-583 | where the width has room for the prefix and no sign is zero-filled, the field as written is the intended one |
| `Vsnprintf.IntOutput` | kernel/stdc/stdio/vsnprintf.c:489-586 | an integer conversion never writes past the room |
| `Vsnprintf.PrintInt` | kernel/stdc/stdio/vsnprintf.c:489-586 | writes `IntOutput` and returns its length and the next argument, touching nothing else |
| `Vsnprintf.WriteIntField` | kernel/stdc/stdio/vsnprintf.c:566-583 | writes what fits of the prefix and number, touching nothing else |
| `Vsnprintf.CharRoom` | kernel/stdc/stdio/vsnprintf.c:316-319 | the room is len, cut to a smaller width |
| `Vsnprintf.CharText` | kernel/stdc/stdio/vsnprintf.c:321-335 | the room is filled with spaces and the character first when left-justified, last otherwise |
| `Vsnprintf.ZeroWidthCharOverruns` | kernel/stdc/stdio/vsnprintf.c:317-331 | `%*c` with width 0 leaves no room, and as written more is written than the room holds |
| `Vsnprintf.CharOutput` | kernel/stdc/stdio/vsnprintf.c:291-338 | a character conversion never writes past the room |
| `Vsnprintf.PrintChar` | kernel/stdc/stdio/vsnprintf.c:291-338 | writes `CharOutput` and steps over the `*` and character arguments, touching nothing else |
| `Vsnprintf.PadChar` | kernel/stdc/stdio/vsnprintf.c:321-335 | writes exactly `CharText` |
| `Vsnprintf.CString` | kernel/stdc/stdio/vsnprintf.c:376-392 | the characters before the first NUL |
| `Vsnprintf.StringWidthTruncates` | kernel/stdc/stdio/vsnprintf.c:379-407 | what is printed is the string cut to the room and to a positive width; no padding ever appears |
| `Vsnprintf.StrOutput` | kernel/stdc/stdio/vsnprintf.c:355-410 | a string conversion never writes past the room |
| `Vsnprintf.PrintStr` | kernel/stdc/stdio/vsnprintf.c:355-410 | writes `StrOutput` and steps over the `*` and string arguments, touching nothing else |
| `Vsnprintf.PadStr` | kernel/stdc/stdio/vsnprintf.c:382-407 | writes what fits of `StrText` |
| `Vsnprintf.PrinterOf` | kernel/stdc/stdio/vsnprintf.c:632-674 | the switch sends every integer type to `print_int`, wide and floating types to printers that print nothing, and invalid to nothing |
| `Vsnprintf.BaseZeroReachesPrinter` | kernel/stdc/stdio/vsnprintf.c:262-266 | `%n`, an unknown letter and a trailing '%' reach `print_int` with base 0 |
| `Vsnprintf.PrinterFor` | kernel/stdc/stdio/vsnprintf.c:632-674 | the corrected switch differs only in printing nothing for an integer type without a base |
| `Vsnprintf.Piece` | kernel/stdc/stdio/vsnprintf.c:629-678 | a conversion writes within the room; `%%` writes '%'; wide and floating conversions write nothing and step over their arguments |
| `Vsnprintf.PlainOutput` | kernel/stdc/stdio/vsnprintf.c:619-625 | a format without '%' is copied up to its first NUL, within the room |
| `Vsnprintf.OutputConversion` | kernel/stdc/stdio/vsnprintf.c:626-678 | at a '%' the output is the conversion's piece followed by the output after its specification |
| `Vsnprintf.OutputLiteral` | kernel/stdc/stdio/vsnprintf.c:620-624 | a literal character is copied and takes one place of the room |
| `Vsnprintf.IntOutputAsWritten` | kernel/stdc/stdio/vsnprintf.c:489-586 | as written an integer conversion is undefined exactly when the base is not 8, 10 or 16 and the number is not 0 |
| `Vsnprintf.CharOutputAsWritten` | kernel/stdc/stdio/vsnprintf.c:317-331 | as written a character conversion is undefined exactly when the room is 0 and it is not left-justified |
| `Vsnprintf.PieceAsWritten` | kernel/stdc/stdio/vsnprintf.c:629-678 | as written a conversion is undefined exactly when its integer or character printer is |
| `Vsnprintf.OutputAsWritten` | kernel/stdc/stdio/vsnprintf.c:609-686 | as written the output stays within the room when it is defined |
| `Vsnprintf.PieceAgrees` | kernel/stdc/stdio/vsnprintf.c:629-678 | a conversion none of the defects touches writes the same as written and as intended |
| `Vsnprintf.OutputAgrees` | kernel/stdc/stdio/vsnprintf.c:609-686 | when every conversion reached is untouched by the defects, the output as written is the intended one |
| `Vsnprintf.BaseZeroUndefined` | kernel/stdc/stdio/vsnprintf.c:427-431 | `%n` of 1 divides by 0 as written and prints nothing as intended |
| `Vsnprintf.ZeroWidthCharUndefined` | kernel/stdc/stdio/vsnprintf.c:317-331 | `%*c` with width 0 runs past the buffer as written and prints nothing as intended |
| `Vsnprintf.Convert` | kernel/stdc/stdio/vsnprintf.c:632-674 | writes the conversion's piece and returns the next argument, touching nothing else |
| `Vsnprintf.PutPiece` | kernel/stdc/stdio/vsnprintf.c:629-677 | the piece is written after what is already there, within len |
| `Vsnprintf.ConversionPass` | kernel/stdc/stdio/vsnprintf.c:626-678 | one pass keeps what is written a prefix of the whole output and moves past the specification |
| `Vsnprintf.PrintConversion` | kernel/stdc/stdio/vsnprintf.c:631-678 | the same after the specification has been decoded |
| `Vsnprintf.Vsnprintf` | kernel/stdc/stdio/vsnprintf.c:609-686 | a length above INT_MAX writes nothing and returns 0; otherwise the buffer holds `Output` of the format, NUL-terminated when room is left, the count is its length and nothing past len changes |
| `Vsnprintf.IsInteger` | kernel/stdc/stdio/vsnprintf.c:651-666 | the fifteen types the main switch sends to `print_int` |
| `Vsnprintf.IsSigned` | kernel/stdc/stdio/vsnprintf.c:498-546 | the types `print_int` reads with `is_signed = 1` |
| `Vsnprintf.Ch` | kernel/stdc/stdio/vsnprintf.c:63 | `*fmt`: the character at a position, or the terminating NUL past the end of the format |
| `Vsnprintf.IsFlag` | kernel/stdc/stdio/vsnprintf.c:64-81 | the five flag characters the flag loop accepts |
| `Vsnprintf.IsDecimal` | kernel/stdc/stdio/vsnprintf.c:93 | the characters the width and precision loops read as digits |
| `Vsnprintf.SetFlag` | kernel/stdc/stdio/vsnprintf.c:64-81 | the flag each flag character ORs in; `SetFlagNames` shows it sets exactly its own |
| `Vsnprintf.Mentions` | kernel/stdc/stdio/vsnprintf.c:62-85 | some character of a stretch of the format is a given one, what `FlagRunSets` reads the flags from |
| `Vsnprintf.Names` | kernel/stdc/stdio/vsnprintf.c:11-17 | whether the flag a character names is set |
| `Vsnprintf.SetFlagNames` | kernel/stdc/stdio/vsnprintf.c:64-81 | a flag character sets its own flag, leaves every other flag as it was and never touches the lower-case and pointer flags |
| `Vsnprintf.IsFloatLetter` | kernel/stdc/stdio/vsnprintf.c:209-216 | the floating conversion letters, which give `double` or `long double` |
| `Vsnprintf.IsConversion` | kernel/stdc/stdio/vsnprintf.c:163-267 | the letters the specifier switch recognises and steps over; any other is left unconsumed (`Conversion`) |
| `Vsnprintf.Radix` | kernel/stdc/stdio/vsnprintf.c:167-259 | the bases a conversion letter sets: 8, 10 and 16 |
| `Vsnprintf.Quot` | kernel/stdc/stdio/vsnprintf.c:429 | `num /= spec.base` for one of the three bases; `DivMod` shows it is the quotient |
| `Vsnprintf.Rem` | kernel/stdc/stdio/vsnprintf.c:428 | `num % spec.base`, below the base; `DivMod` puts quotient and remainder back together |
| `Vsnprintf.LeadingSnoc` | kernel/stdc/stdio/vsnprintf.c:427-431 | a figure appended to figures of the base keeps them figures without a leading zero |
| `Vsnprintf.MsdValue` | kernel/stdc/stdio/vsnprintf.c:427-431 | the figures of a number, read back in its base, are the number |
| `Vsnprintf.LastFigure` | kernel/stdc/stdio/vsnprintf.c:428-429 | figures worth n / b followed by the figure of n % b are worth n |
| `Vsnprintf.DivMod` | kernel/stdc/stdio/vsnprintf.c:428-429 | `num / base * base + num % base` is `num` |
| `Vsnprintf.CollectStep` | kernel/stdc/stdio/vsnprintf.c:427-431 | one pass of the digit loop keeps the figures equal to those of what is left followed by `rbuf` reversed |
| `Vsnprintf.MsdStep` | kernel/stdc/stdio/vsnprintf.c:427-431 | the last figure of a positive number is its remainder and the others are those of its quotient |
| `Vsnprintf.ValueSnoc` | kernel/stdc/stdio/vsnprintf.c:427-431 | appending a figure multiplies the value by the base and adds the figure |
| `Vsnprintf.Pow8` | kernel/stdc/stdio/vsnprintf.c:417 | powers of eight, the smallest base, bounding the figures a 64-bit number needs (`FitsRbuf`) |
| `Vsnprintf.MsdLength` | kernel/stdc/stdio/vsnprintf.c:417 | a number below 8^k has at most k figures in any of the three bases |
| `Vsnprintf.QuotientBelow` | kernel/stdc/stdio/vsnprintf.c:429 | dividing a positive number below 8^k by the base leaves one below 8^(k-1) |
| `Vsnprintf.Reversed` | kernel/stdc/stdio/vsnprintf.c:470-473 | `rbuf` read backwards, as the rewind loop copies it; `CollectDigits` shows this gives the figures |
| `Vsnprintf.ReversedSnoc` | kernel/stdc/stdio/vsnprintf.c:427-431 | reversing after one more figure puts that figure first |
| `Vsnprintf.Spaces` | kernel/stdc/stdio/vsnprintf.c:453-459 | the padding loop's spaces: as many as a positive count, none otherwise |
| `Vsnprintf.ZeroFill` | kernel/stdc/stdio/vsnprintf.c:463-467 | the zero padding loop's zeros: as many as a positive count, none otherwise |
| `Vsnprintf.Negative` | kernel/stdc/stdio/vsnprintf.c:422-425 | `(long long)num < 0` for a signed decimal: the number is printed as '-' and its magnitude |
| `Vsnprintf.Layout` | kernel/stdc/stdio/vsnprintf.c:437-484 | the text `do_print_int` prints with room enough: sign, left padding, zeros, figures, right padding, the sign inside the width or on top of it; `LayoutSpelled` spells it out |
| `Vsnprintf.PadLength` | kernel/stdc/stdio/vsnprintf.c:437-447 | `pad_len`: the width less the precision or figures, none with the zero flag, one less for a sign |
| `Vsnprintf.ZeroCount` | kernel/stdc/stdio/vsnprintf.c:438-442 | the zeros before the figures: up to the precision, raised to the width with the zero flag |
| `Vsnprintf.IntTextParts` | kernel/stdc/stdio/vsnprintf.c:437-484 | the corrected integer text is the sign, padding, zeros up to the width less the sign, the figures and right padding |
| `Vsnprintf.LayoutSpelled` | kernel/stdc/stdio/vsnprintf.c:444-483 | the layout is sign, then spaces unless left-justified, zeros, figures, then spaces if left-justified |
| `Vsnprintf.Arrange` | kernel/stdc/stdio/vsnprintf.c:444-483 | the five parts in the order the loops write them; `ArrangeSpelled` spells it out |
| `Vsnprintf.ArrangeSpelled` | kernel/stdc/stdio/vsnprintf.c:444-483 | the arrangement is the sign, left padding, zeros, figures and right padding concatenated |
| `Vsnprintf.IntText` | kernel/stdc/stdio/vsnprintf.c:437-484 | the integer text with the sign counted in the width; `IntTextWidth` states its width |
| `Vsnprintf.IntTextAsWritten` | kernel/stdc/stdio/vsnprintf.c:437-484 | the integer text as written, the zeros alone filling the width; `ZeroPadSignOverflows` and `LayoutAgrees` state where it departs |
| `Vsnprintf.NumAt` | kernel/stdc/stdio/vsnprintf.c:499-559 | `va_arg` of a number: the argument at a position, 0 when there is none |
| `Vsnprintf.TextAt` | kernel/stdc/stdio/vsnprintf.c:373 | `va_arg` of a string pointer: the argument at a position, NULL when there is none |
| `Vsnprintf.Stars` | kernel/stdc/stdio/vsnprintf.c:553-559 | how many arguments a `*` width and precision take: one each |
| `Vsnprintf.Low` | kernel/stdc/stdio/vsnprintf.c:511-531 | the truncating cast to 8, 16, 32 or 64 bits, below the modulus; `LowRange` states it |
| `Vsnprintf.Extend` | kernel/stdc/stdio/vsnprintf.c:514-530 | a narrow value widened to 64 bits, sign-extended for a signed type, below 2^64 |
| `Vsnprintf.IntField` | kernel/stdc/stdio/vsnprintf.c:566-583 | the corrected field: the prefix, then the number in what remains of the width; `IntFieldParts` and `FieldAgrees` relate it to the written one |
| `Vsnprintf.CharOf` | kernel/stdc/stdio/vsnprintf.c:314 | `ch = va_arg(*args, int)`: the low byte of the argument |
| `Vsnprintf.CharCountAsWritten` | kernel/stdc/stdio/vsnprintf.c:321-335 | the characters `print_char` writes: the room, or 2^32 when the room is 0 without '-' and `len - 1` wraps; `ZeroWidthCharOverruns` states it |
| `Vsnprintf.StrText` | kernel/stdc/stdio/vsnprintf.c:379-407 | what `print_str` prints: the string cut to a positive width or to the room, with padding that is never positive; `StringWidthTruncates` states it |
| `Vsnprintf.Output` | kernel/stdc/stdio/vsnprintf.c:619-679 | the text the main loop writes from a position of the format: never longer than the room; `PlainOutput`, `OutputLiteral` and `OutputConversion` state its cases |
| `Vsnprintf.OutputAt` | kernel/stdc/stdio/vsnprintf.c:619-679 | the same at a character other than the end with room left, never longer than the room |
| `Vsnprintf.OutputStep` | kernel/stdc/stdio/vsnprintf.c:620-678 | a literal character copied, or a conversion's piece, then the rest; never longer than the room |
| `Vsnprintf.IntFieldAsWritten` | kernel/stdc/stdio/vsnprintf.c:566-583 | the field as written: the prefix while the clamped width allows, then the number in what remains; `PrefixNeedsWidth` states where it loses the prefix |
| `Vsnprintf.StepAsWritten` | kernel/stdc/stdio/vsnprintf.c:620-678 | a step of the written loop: the literal or the written piece and the rest, within the room when defined |
| `Vsnprintf.AfterPiece` | kernel/stdc/stdio/vsnprintf.c:675-678 | a written piece followed by the written output after its specification, within the room when defined |
| `Vsnprintf.Untouched` | kernel/stdc/stdio/vsnprintf.c:317-583 | a conversion none of the defects touches: an integer with a base, no `*`, a prefix the width holds and no sign under the zero flag; a character with room or left-justified |
| `Vsnprintf.AllUntouched` | kernel/stdc/stdio/vsnprintf.c:619-679 | every conversion the output reaches is untouched, the condition of `OutputAgrees` |
| `Vsnprintf.IntAgrees` | kernel/stdc/stdio/vsnprintf.c:489-586 | on an untouched integer conversion the written printer is defined and writes the intended output |
| `Vsnprintf.LiteralAgrees` | kernel/stdc/stdio/vsnprintf.c:620-625 | at a literal character both outputs copy it and go on alike |
| `Vsnprintf.Splits` | kernel/stdc/stdio/vsnprintf.c:626-678 | both outputs at a '%' are a piece followed by the output after the specification |
| `Vsnprintf.ConversionSplits` | kernel/stdc/stdio/vsnprintf.c:626-678 | every conversion splits both outputs, and an untouched one writes its intended piece as written with the conversions after it untouched |
| `Vsnprintf.SplitsAtConversion` | kernel/stdc/stdio/vsnprintf.c:626-678 | the split is at the end of the decoded specification, with the written and the intended pieces |
| `Vsnprintf.UntouchedConversion` | kernel/stdc/stdio/vsnprintf.c:626-678 | an untouched conversion's written piece is the intended one, and the conversions after it are untouched |
| `Vsnprintf.Glue` | kernel/stdc/stdio/vsnprintf.c:626-678 | when the pieces agree and the outputs after them agree, the outputs agree |
| `Vsnprintf.AsWrittenConversion` | kernel/stdc/stdio/vsnprintf.c:626-678 | at a '%' the written output is the written piece followed by the rest |
| `Vsnprintf.AfterDefinedPiece` | kernel/stdc/stdio/vsnprintf.c:675-678 | a defined piece is followed by the written output after it, undefined when that is |
| `Vsnprintf.Continues` | kernel/stdc/stdio/vsnprintf.c:619-679 | the main loop's invariant: what is written so far followed by the output from the current position makes the whole output |
| `Vsnprintf.PieceCases` | kernel/stdc/stdio/vsnprintf.c:641-667 | the character, string and integer printers' pieces, each stepping over its `*` and value arguments |
| `Vsnprintf.ConversionStep` | kernel/stdc/stdio/vsnprintf.c:626-678 | writing a conversion's piece keeps the invariant after its specification, with the room less the piece |
| `Vsnprintf.ConversionSplit` | kernel/stdc/stdio/vsnprintf.c:626-678 | at a '%' the output is the piece followed by the output after the specification, in the caller's names |
| `Vsnprintf.LiteralStep` | kernel/stdc/stdio/vsnprintf.c:620-624 | copying a literal character keeps the invariant one character on, with one place less |
| `VsnprintfOperands.ResolveReadsStars` | kernel/stdc/stdio/vsnprintf.c:553-559 | filling in the `*`s reads only the `*` arguments, width first, changes nothing but the width and precision, keeps the spec without a `*`, and stores a `*` value that fits its bit-field unchanged |
| `VsnprintfOperands.BehindStars` | kernel/stdc/stdio/vsnprintf.c:495-559 | the arguments with the number moved behind the `*` values that follow it, as many as before |
| `VsnprintfOperands.OperandsOrder` | kernel/stdc/stdio/vsnprintf.c:495-559 | the written order is the C order on arguments whose number stands in front of the `*` values; both consume the same arguments and agree without a `*` |

## Left out

- Port I/O, BIOS calls, interrupts and device probing are outside the model: the keyboard's ISR, `read` and `wait_event` (boot/device/hid/ps2_keyboard.c:470-503) wait on hardware and become the `Receive` and `PollEvent` methods fed with bytes; the character device's probe and the console device table become constructor parameters.
- File and device access become parameters: the font image is a byte sequence given to `FontReader.FontState.Use` (the BIOS font fallback of font.c is not part of this model); the `hex2bfn` input and output files are a list of text lines and an in-memory file; FAT sectors and clusters are byte sequences a `FatBoot.Driver` is built from.
- FAT `mount`, `probe` and directory iteration are not modelled: they are driven by block reads and allocation. Only the pure helpers, the cluster chain and the file cursor are modelled.
- Paging in boot/mm/mm.c (`map`, `unmap` and the page-table code of `mm_init`) writes raw memory and control registers and is not modelled. The bitmap's address (the aligned end of the image) is a constructor parameter.
- The status codes of the C code (its `status.h` is not part of this model) are a Dafny datatype with the names the sources use.
- FILENAME_MAX is fixed at 256 (the C library header that defines it is not part of this model).
- Floating-point conversions of `vsnprintf` and its wide-character and wide-string printers print nothing in the source. They are modelled as printing nothing and stepping over their arguments.
- Vsnprintf.Vsnprintf: the pointer wrap-around guard `buf + len < buf` (kernel/stdc/stdio/vsnprintf.c:615-617) is not modelled; buffers are Dafny arrays, which cannot wrap.
- Gmtime.GmTimeR: stated for |t| < 2^55 only (and so are Gmtime.RoundTrip, Gmtime.YdayOneShort, Gmtime.GmTimeIntended and Gmtime.IntendedRoundTrip), which keeps the year within the 32-bit `tm_year`; beyond that the C stores a truncated year.
- StrToL.Spec: signed 32-bit overflow in the accumulation is undefined behaviour in C; the model takes it as two's-complement wrap-around (`Digits.WrapAccum`), as i686 code compiled without overflow traps behaves. The same holds for AtoI.Spec and the 32-bit sums of `Vma`.
- AnsiTerm.Digit: the CSI parameters are unbounded naturals; the C `int` parameters would overflow after about ten digits.
- AnsiTerm.PaletteEntries: the 256-entry palette is given by its formula (`Palette`) with spot checks of entries against the table in boot/term/ansi.c:21-91, not as a literal table.
- AnsiTerm.Terminal.PutChar: the `Terminal` class runs the corrected machine; the machine as written is modelled on values (`FeedAsWritten`, `RunAsWritten`) only.
- AnsiTermDevice.Console.Write: the `Console` class decodes as intended; the written loop with its rewind is modelled on values (`WriteAgrees`, `FragmentRewinds`) and, for parameters, by `Console.ParameterAsWritten`.
- Color.ResolveBrush: coordinates are unbounded integers, so the 32-bit overflow of the gradient's products on far-apart points is not modelled.
- Path.Normalize: the canonical form of the result is proved only when everything written fits the buffer with two characters to spare; otherwise only that the buffer is written within its length and terminated.
- Pma.FrameAllocator.FreeFrame: a frame range whose end `pfn + count` wraps in 32 bits is not modelled.
- FatBoot.SfnName: a flagged-lower-case byte from 0x80 reaching `tolower` (whose table covers ASCII only) gives no name rather than a value.
- FontCompiler.Compile: inputs whose offsets do not fit 32 bits end with the `OverflowError` outcome; the text Python would print for it is not modelled.
- AnsiTerm.RunAsWritten: stops at the first byte that leaves the cursor off the screen and returns that state (`LeftScreen`); the bytes after it, which the C goes on taking with the cursor off the screen, are not followed.
- ShellParse.Parse: reads numbers with the kernel `strtol` model (`StrToL`); the boot library's own `strtol` is not part of this model.
- FatBoot.SeekTarget: the new cursor is the exact sum of the base and the offset, as with a 64-bit `off_t`; the `off_t` definition is not part of this model, and with a 32-bit `off_t` a `uint32_t` cursor plus a negative offset would wrap.
- FatBoot.FatFile.Seek: takes `SeekTarget`'s exact sum, so the same 32-bit `off_t` wrap-around is not modelled.
- FontCompiler.HexInt: only ASCII whitespace and ASCII digits are modelled; the non-ASCII Unicode whitespace and digits Python's `int` accepts make the line fail in the model.
- FontCompiler.LargestCodepoint: states the corrected parse, which rejects a negative codepoint; the as-written handling of one is modelled by `FontCompiler.StepAsWritten` only.
- FontCompiler.Run: runs the corrected parse, which rejects a negative codepoint; see `FontCompiler.StepAsWritten` for the record written over the header.
- FontCompiler.RunWritten: states the file of the corrected parse only; a negative codepoint is not carried through the as-written pass.
- FontCompiler.Compile: negative codepoints are rejected as malformed lines, where the script writes their offset before the table (`FontCompiler.NegativeCodepointAsWritten`).
- Vsnprintf.Vsnprintf: `va_arg` is an argument list of tagged values (`Arg`); reading an argument of the wrong type or past the last one, undefined in C, is modelled as reading 0 for a number and a NULL pointer for a string.

## Findings

| source | as written | input that shows it | evidently intended | confidence | as-written member | corrected member |
|---|---|---|---|---|---|---|
| boot/font/font.c:119-120 | the offset slot of a codepoint is read before the codepoint is checked against the largest one | codepoint 0x100 in an image whose largest codepoint is 0x41: the slot lies past the offset table | check first, then read the slot | high, not executed | `FontRoundTrip.SlotLoadedBeforeCheck` | `FontReader.GlyphData` |
| kernel/stdc/stdlib/strtol.c:28-59 | base 0 without a "0" prefix stays base 0, so every digit fails `digit >= base` | `strtol("12", &end, 0)` gives 0 with nothing read | base 0 without prefix means decimal | high, not executed | `StrToL.BaseZeroReadsNothing` | `StrToL.Intended` |
| kernel/stdc/stdlib/strtol.c:61-72 | the overflow test only sees wraps that land negative | "4294967300" in base 10 gives 4 | LONG_MAX with ERANGE | high, not executed | `StrToL.MissedOverflow` | `StrToL.Intended` |
| boot/stdc/stdlib/strtoul.c:19-50 | the same base-0 fall-through as `strtol` | `strtoul("12", &end, 0)` gives 0 | decimal | high, not executed | `StrToUL.BaseZeroReadsNothing` | `StrToUL.Intended` |
| kernel/stdc/stdlib/atoi.c:32-43 | the accumulation wraps without any check | "4294967300" gives 4 | saturate at INT_MAX with ERANGE | medium, not executed | `AtoI.MissedOverflow` | `AtoI.Intended` |
| boot/stdc/time/gmtime.c:38 | the day of the year from March on is computed one short | t = 5097600 (1 March 1970) gives `tm_yday` 58, the same as 28 February | 59 | high, not executed | `Gmtime.MarchFirstYday` | `Gmtime.GmTimeIntended` |
| boot/stdc/time/gmtime.c:7-11 | the truncating `%` leaves negative seconds before the epoch | t = -1 gives `tm_sec` -1 on 1 January 1970 | 23:59:59 on 31 December 1969 | high, not executed | `Gmtime.NegativeTimeOutOfRange` | `Gmtime.IntendedRoundTrip` |
| boot/core/path.c:54-74 | when the join fills `dest` exactly, no NUL is written | dest "abc" in a buffer of 4, src "" gives "abc/" with no terminator | always leave a terminated string | high, not executed | `Path.JoinLosesTerminator` | `Path.JoinIntendedTerminates` |
| boot/pci/class.c:343-352 | every wireless subclass key is 0x00 | class 0x0D: subclass 0x00 is named "Broadband" and subclass 0x01 is not found | the keys 0x00, 0x01, 0x10, 0x11, 0x12, 0x20, 0x21, 0x40, 0x41, 0x80 of the names listed | high, not executed | `PciClass.WirelessLookupAsWritten` | `PciClass.WirelessLookupRestored` |
| boot/pci/class.c:436 | class 0xFF has no subclass table and the lookup dereferences it | class 0xFF, any subclass | no name | high, not executed | `PciClass.UnassignedClassUndefined` | `PciClass.SubclassNameChecked` |
| boot/pci/class.c:94 | IDE subclass 01:01 has no interface table and the lookup dereferences it | 01:01 with any interface | no name | high, not executed | `PciClass.IdeInterfaceUndefined` | `PciClass.InterfaceNameChecked` |
| boot/pci/class.c:116 | PICMG 2.14 subclass 02:06 has no interface table and the lookup dereferences it | 02:06 with any interface | no name | high, not executed | `PciClass.PicmgInterfaceUndefined` | `PciClass.InterfaceNameChecked` |
| boot/modules/guishell/color.c:14-16 | each term of the blend is rounded down on its own | blending 100 with 100 at 128 gives 99 | 100 | medium, not executed | `Color.MixDarkens` | `Color.BlendIntended` |
| boot/modules/guishell/color.c:26 | a gradient divides by `end.x - start.x` | a gradient with start.x == end.x | no division by zero | high, not executed | `Color.VerticalGradientUndefined` | `Color.ResolveBrushChecked` |
| kernel/mm/vma.c:75-85 | the end of a request wraps in 32 bits | 0xFFFFFFFF pages from 0x100 with limit 0xBFFFF is accepted | refused | high, not executed | `Vma.HugeRequestAccepted` | `Vma.Allocator.AllocatePageChecked` |
| kernel/mm/vma.c:75-85 | the bound is off by one against the reported free count | a request of exactly the free count is refused | granted | medium, not executed | `Vma.FreeCountRefused` | `Vma.Allocator.AllocatePageChecked` |
| boot/mm/mm.c:48 | the frame count leaves out the frame of an inclusive limit | base 0x100000, limit 0x1100FFF: the limit frame is outside the bitmap | the limit frame is managed | medium, not executed | `PmaAsWritten.LimitFrameNeverAllocated` | `Pma.FrameAllocator.constructor` |
| boot/mm/mm.c:83 | the start is clamped to the base (mm.c:75-77) but the limit is not, so for a range wholly below the base `limit_page - pma_base_pfn` wraps to near 2^32 and the loop never ends | base frame 0x200 and a range from 0x100000 to 0x1FFFFF | start at the base | high, not executed | `Pma.ReserveBelowBaseRunsAway` | `Pma.FrameAllocator.MarkReserved` |
| boot/mm/mm.c:156-158 | the clamp subtracts the excess instead of assigning the remaining count | frame 0x1F6, count 30, limit 0x1FF: 20 frames freed, 10 past the limit | 10 frames | high, not executed | `PmaAsWritten.FreeClampOverrunsBitmap` | `Pma.FrameAllocator.FreeFrame` |
| boot/filesystem/fat/fat.c:160-182 | the range tests are off by one | U+007F gives C1 BF and U+07FF gives E0 9F BF, both overlong | 7F and DF BF | high, not executed | `FatBoot.Utf8BoundsOffByOne` | `FatBoot.Utf8RoundTrip` |
| boot/filesystem/fat/fat.c:264-273 | the checksum runs over 13 bytes, two past the 11-byte 8.3 name | two names equal in 11 bytes with different bytes after them get different sums | 11 bytes | medium, not executed | `FatBoot.ChecksumCoversTwoMore` | `FatBoot.SfnChecksumIntended` |
| boot/filesystem/fat/fat.c:790-792 | `cursor + len` wraps in 32 bits, so the clamp to the file size is skipped | cursor 1 of a 10-byte file, request 2^32 - 1 | clamp to 9 bytes | high, not executed | `FatBoot.ClampWraps` | `FatBoot.FatFile.Read` |
| bin/mkfs.afs/main.c:256-257 | an unknown prefix after "0" is accepted as 0 | "0z" gives 0 | rejected | medium, not executed | `MkfsDecode.UnknownPrefixAccepted` | `MkfsDecode.UintOfChecked` |
| boot/device/hid/ps2_keyboard.c:215-222 | the table bound is a byte size, so set-1 break codes are looked up past the table as makes | 0x9E | the release of 0x1E | high, not executed | `Ps2Keyboard.BreakPastTableSet1` | `Ps2Keyboard.MakeBreakSet1` |
| boot/device/hid/ps2_keyboard.c:199-205 | the set-1 Pause sequence is never matched: the second 0xE1 is taken as a new prefix | E1 1D 45 E1 9D C5 | one Pause press | high, not executed | `Ps2Keyboard.PauseLostSet1` | `Ps2Keyboard.PauseSet1` |
| boot/device/hid/ps2_keyboard.c:199-205 | the set-1 Ctrl+Pause sequence is never matched: the second 0xE0 is taken as a new prefix | E0 46 E0 C6 | one Pause release | high, not executed | `Ps2Keyboard.CtrlPauseLostSet1` | `Ps2Keyboard.CtrlPauseSet1` |
| boot/device/hid/ps2_keyboard.c:358-406 | the set-2 Pause sequence is never matched | E1 14 77 E1 F0 14 F0 77 | one Pause press | high, not executed | `Ps2Keyboard.PauseLostSet2` | `Ps2Keyboard.PauseSet2` |
| boot/device/hid/ps2_keyboard.c:348-356 | a missing `else` makes 0x7E after E0 also a plain extended code, which leaves the Ctrl+Pause state at once | E0 7E E0 F0 7E | one Pause event | medium, not executed | `Ps2Keyboard.CtrlPauseLostSet2` | `Ps2Keyboard.CtrlPauseSet2` |
| boot/device/hid/ps2_keyboard.c:505-512 | `poll_event` has no empty check | a poll on an empty ring translates a stale byte and leaves 63 queued | report no event | high, not executed | `Ps2Keyboard.Keyboard.PollEventAsWritten` | `Ps2Keyboard.Keyboard.PollEvent` |
| boot/term/ansi.c:296-300 | SGR 0 keeps reverse video | ESC [ 7 m then ESC [ 0 m | reverse off | high, not executed | `AnsiTerm.ResetKeepsReverse` | `AnsiTerm.Sgr` |
| boot/term/ansi.c:363-366 | a palette index is not bounded | ESC [ 38 ; 5 ; 300 m reads past the 256-entry palette | ignored | high, not executed | `AnsiTerm.PaletteOverrun` | `AnsiTerm.Sgr` |
| boot/term/ansi.c:176-190 | CUD, CUF and CUP are not clamped to the screen | ESC [ 99 B on the bottom row of 80x25 puts the cursor on row 25 | stop at the edge | high, not executed | `AnsiTerm.CursorLeavesScreen` | `AnsiTerm.Move` |
| boot/term/ansi.c:249 | ED tests the wrong coordinate | ESC [ 0 J at the top left keeps row 1 | rows below are erased | high, not executed | `AnsiTerm.EdKeepsRowsBelow` | `AnsiTerm.EdErasesCells` |
| boot/term/ansi.c:254 | ED 1 tests the column where the row is meant, so it erases the rows above only from the first column | ESC [ 1 J at column 5 of row 3 keeps row 0 | rows above are erased | high, not executed | `AnsiTerm.EdKeepsRowsAbove` | `AnsiTerm.EdErasesCells` |
| boot/term/ansi.c:98-125 | init leaves the escape state unset | a leftover CSI state swallows 'A' | 'A' is drawn | medium, not executed | `AnsiTerm.LeftoverStateSwallows` | `AnsiTerm.Init` |
| boot/term/ansi.c:98-125 | init leaves the number-input flag unset | a leftover flag with no parameter open makes a digit write before `args` | start clean | medium, not executed | `AnsiTerm.LeftoverNumberFlagUndefined` | `AnsiTerm.Init` |
| boot/term/ansi.c:498-504 | a ninth parameter is written to `args[8]`, past the array | ESC [ 1;2;3;4;5;6;7;8;9 m | not started | high, not executed | `AnsiTerm.DigitSlotAsWritten` | `AnsiTerm.Digit` |
| boot/device/char/ansiterm.c:897-900 | the rewind by `char_len - utf8_fragment_len` moves `buf` before the input | writes E2, then 41, then 42 | U+FFFD, 'A', 'B' | high, not executed | `AnsiTermDevice.FragmentRewinds` | `AnsiTermDevice.Console.Write` |
| boot/device/char/ansiterm.c:725-727 | the eighth parameter stops taking digits | ESC [ 1;2;3;4;5;6;7;89 m keeps 8 | 89 | high, not executed | `AnsiTermDevice.EighthParamTruncated` | `AnsiTermDevice.Param` |
| boot/device/char/ansiterm.c:773 | a tab erases up to and including the next stop | a tab at column 75 of 80 erases column 80 | stop before the tab stop and the row's end | high, not executed | `AnsiTermDevice.TabErasePastRow` | `AnsiTermDevice.TabErase` |
| boot/shell/parse.c:59-82 | a letter escape pushes its control character and then reads the letter again | `\n` gives a newline followed by 'n' | a newline only | high, not executed | `ShellParse.LetterEscapeRepeats` | `ShellParse.LetterEscapesRoundTrip` |
| kernel/stdc/stdio/vsnprintf.c:495-559 | `print_int` reads the number before the `*` width | `%*d` with 5, 42 prints 5 in width 42 | 42 in width 5 | high, not executed | `Vsnprintf.StarWidthSwapped` | `VsnprintfOperands.OperandsOrder` |
| kernel/stdc/stdio/vsnprintf.c:566-580 | the `#` prefix is printed only while the clamped width allows | `%#x` with no width prints no "0x" | "0x" | high, not executed | `Vsnprintf.PrefixNeedsWidth` | `Vsnprintf.FieldAgrees` |
| kernel/stdc/stdio/vsnprintf.c:438-450 | zero padding fills the whole width and the sign goes on top | `%05d` of -42 prints "-00042" | "-0042" | high, not executed | `Vsnprintf.ZeroPadSignOverflows` | `Vsnprintf.IntTextWidth` |
| kernel/stdc/stdio/vsnprintf.c:317-331 | with no room, `while (len - 1)` wraps and writes on | `%*c` with width 0 | print nothing | high, not executed | `Vsnprintf.ZeroWidthCharUndefined` | `Vsnprintf.CharOutput` |
| kernel/stdc/stdio/vsnprintf.c:427-431 | `%n`, an unknown letter or a trailing '%' reach `print_int` with base 0, and `num % spec.base` divides by 0 | `%n` of 1 | print nothing | high, not executed | `Vsnprintf.BaseZeroUndefined` | `Vsnprintf.PrinterFor` |
| tools/hex2bfn/hex2bfn.py:45 | a codepoint written with a '-' is read as negative and its offset is written before the table, over the header | codepoint -1 in a font whose largest codepoint is 0: the header's reserved word gets 20 | reject the line | medium, not executed | `FontCompiler.NegativeCodepointAsWritten` | `FontCompiler.NegativeCodepointReads` |
