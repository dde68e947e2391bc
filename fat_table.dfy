/**
 * FAT12/16/32 table entries (kernel/drivers/filesystem/fat/util.c).
 *
 * The device is modelled as one contiguous run of bytes; sector `lba` is the slice
 * `[lba * sectorSize, (lba + 1) * sectorSize)`, and a sector can be fetched when it lies wholly
 * on the device.  A fetch that fails is reported as `UnknownError`.  FAT number `fat` starts at
 * sector `reservedSectors + fat * fatSize`.  The readers are pure decodes of the fetched bytes;
 * the writers patch the bytes of the device in place.  Bit operations on bytes are written with
 * `/` and `%` by powers of two; an OR of values with disjoint bits is their sum.
 */
module FatTable {
  import opened Common

  const FAT12_MAX_CLUSTER: nat := 0xFF4
  const FAT16_MAX_CLUSTER: nat := 0xFFF4
  const FAT32_MAX_CLUSTER: nat := 0x0FFF_FFF6
  const FAT12_END_CLUSTER: nat := 0xFFF
  const FAT16_END_CLUSTER: nat := 0xFFFF
  const FAT32_END_CLUSTER: nat := 0x0FFF_FFFF
  /** 2^28: a FAT32 entry keeps its cluster number in the low 28 bits. */
  const FAT32_TOP: nat := 0x1000_0000

  /** The fields of the mounted volume that the entry accessors use. */
  datatype Geometry = Geometry(sectorSize: nat, fatCount: nat, reservedSectors: nat, fatSize: nat)

  /**
   * `count * size`, as a sum of `count` copies of `size`.  Sector and FAT positions are built
   * from it, so that the solver expands a product one step at a time instead of reasoning about
   * products of unknowns.
   */
  function Times(count: nat, size: nat): (n: nat)
  {
    if count == 0 then 0 else Times(count - 1, size) + size
  }

  lemma {:induction false} TimesIsProduct(count: nat, size: nat)
    ensures Times(count, size) == count * size
  {
    if count > 0 {
      TimesIsProduct(count - 1, size);
    }
  }

  lemma {:induction false} TimesAdd(a: nat, b: nat, size: nat)
    ensures Times(a + b, size) == Times(a, size) + Times(b, size)
  {
    if b > 0 {
      TimesAdd(a, b - 1, size);
    }
  }

  /** With sectors of at least one byte, a later sector starts after the whole of an earlier one. */
  lemma TimesLess(a: nat, b: nat, size: nat)
    requires a < b
    ensures Times(a, size) + size <= Times(b, size)
  {
    TimesAdd(a + 1, b - a - 1, size);
  }

  /** The sector holding sector `index` of FAT number `fat`. */
  function FatLba(g: Geometry, fat: nat, index: nat): (lba: nat)
    ensures lba == FatLba(g, fat, 0) + index
  {
    g.reservedSectors + Times(fat, g.fatSize) + index
  }

  /** The device offset of the first byte of sector `lba`. */
  function SectorStart(g: Geometry, lba: nat): nat
  {
    Times(lba, g.sectorSize)
  }

  /** The device offset of the first byte of FAT number `fat`. */
  function FatStart(g: Geometry, fat: nat): nat
  {
    SectorStart(g, FatLba(g, fat, 0))
  }

  /** The block interface can fetch sector `lba`. */
  predicate Fetchable(g: Geometry, disk: seq<Byte>, lba: nat)
  {
    SectorStart(g, lba + 1) <= |disk|
  }

  /** The device holds a whole number of sectors. */
  predicate WholeSectors(g: Geometry, disk: seq<Byte>)
  {
    g.sectorSize > 0 && |disk| % g.sectorSize == 0
  }

  /** Is `fat` the number of one of the volume's FATs? */
  predicate ValidFat(g: Geometry, fat: int)
  {
    0 <= fat < g.fatCount
  }

  // ---------------------------------------------------------------- sector arithmetic

  /** Byte `i` of a fetchable sector lies on the device, and the next sector follows it. */
  lemma InSector(g: Geometry, disk: seq<Byte>, lba: nat, i: nat)
    requires Fetchable(g, disk, lba) && i < g.sectorSize
    ensures SectorStart(g, lba) + i < |disk|
    ensures SectorStart(g, lba + 1) == SectorStart(g, lba) + g.sectorSize
  {
  }

  /**
   * The sector of FAT `fat` that holds item `index` when items are `width` bytes wide and a
   * sector holds sectorSize / width of them.
   */
  function EntryLba(g: Geometry, fat: nat, index: nat, width: nat): nat
    requires 0 < width <= g.sectorSize
  {
    FatLba(g, fat, index / (g.sectorSize / width))
  }

  /** The device offset of item `index`: its slot within the sector that holds it. */
  function EntryPos(g: Geometry, fat: nat, index: nat, width: nat): nat
    requires 0 < width <= g.sectorSize
  {
    SectorStart(g, EntryLba(g, fat, index, width)) + width * (index % (g.sectorSize / width))
  }

  /** An item of a fetchable sector lies wholly on the device, inside its sector. */
  lemma EntryFits(g: Geometry, disk: seq<Byte>, fat: nat, index: nat, width: nat)
    requires 0 < width <= g.sectorSize && Fetchable(g, disk, EntryLba(g, fat, index, width))
    ensures EntryPos(g, fat, index, width) + width <= |disk|
  {
    var n := g.sectorSize / width;
    SlotInSector(g.sectorSize, width, n, index % n);
    InSector(g, disk, EntryLba(g, fat, index, width), width * (index % n) + width - 1);
  }

  /** Slot m of n = ss / width slots of `width` bytes ends inside a sector of ss bytes. */
  lemma SlotInSector(ss: nat, width: nat, n: nat, m: nat)
    requires 0 < width && n == ss / width && m < n
    ensures width * m + width <= ss
  {
    MulMono(m + 1, n, width);
    assert ss == n * width + ss % width;
  }

  /** Where sectors hold a whole number of items, item `index` sits `index` widths into its FAT. */
  lemma Linear(g: Geometry, fat: nat, index: nat, width: nat)
    requires 0 < width <= g.sectorSize && g.sectorSize % width == 0
    ensures EntryPos(g, fat, index, width) == FatStart(g, fat) + width * index
  {
    var n := g.sectorSize / width;
    var q, m := index / n, index % n;
    TimesAdd(FatLba(g, fat, 0), q, g.sectorSize);
    TimesIsProduct(q, g.sectorSize);
    Regroup(index, width, n, q, m, g.sectorSize);
  }

  /** `q * ss + width * m == width * index` when ss = width * n and q, m split index by n. */
  lemma Regroup(index: nat, width: nat, n: nat, q: nat, m: nat, ss: nat)
    requires n > 0 && q == index / n && m == index % n && ss == width * n
    ensures q * ss + width * m == width * index
  {
    assert index == n * q + m;
    assert q * (width * n) == width * (n * q);
  }

  /** On a device of whole sectors, the sector of any on-device offset can be fetched. */
  lemma SectorOf(g: Geometry, disk: seq<Byte>, lba: nat, i: nat)
    requires WholeSectors(g, disk) && i < g.sectorSize
    ensures Fetchable(g, disk, lba) <==> SectorStart(g, lba) + i < |disk|
  {
    var ss := g.sectorSize;
    var q := |disk| / ss;
    TimesIsProduct(q, ss);
    assert |disk| == Times(q, ss);
    if SectorStart(g, lba) + i < |disk| && lba + 1 < q {
      TimesLess(lba + 1, q, ss);
    } else if SectorStart(g, lba) + i < |disk| && lba >= q {
      if lba > q {
        TimesLess(q, lba, ss);
      }
      assert false;
    }
  }

  lemma MulMono(a: nat, b: nat, c: nat)
    requires a <= b
    ensures a * c <= b * c
  {
    assert b * c == a * c + (b - a) * c;
  }

  // ---------------------------------------------------------------- FAT12

  /** The byte offset of a FAT12 entry inside its FAT: one and a half bytes per entry. */
  function Offset12(entry: nat): nat
  {
    entry + entry / 2
  }

  /** A FAT12 entry from the two bytes at its offset: odd entries use the high 12 bits. */
  function Decode12(entry: nat, b0: Byte, b1: Byte): (v: nat)
    ensures v <= FAT12_END_CLUSTER
  {
    if entry % 2 == 1 then b0 / 16 + b1 * 16 else b0 + (b1 % 16) * 256
  }

  /** The new first byte of a FAT12 entry: an odd entry keeps the low nibble of its neighbour. */
  function First12(entry: nat, value: nat, old0: Byte): Byte
  {
    if entry % 2 == 1 then old0 % 16 + (value % 16) * 16 else value % 256
  }

  /** The new second byte of a FAT12 entry: an even entry keeps the high nibble of its neighbour. */
  function Second12(entry: nat, value: nat, old1: Byte): Byte
  {
    if entry % 2 == 1 then (value / 16) % 256 else (old1 / 16) * 16 + (value / 256) % 16
  }

  /** `read_fat_entry12`. */
  function Read12(g: Geometry, disk: seq<Byte>, fat: int, entry: nat): (r: Result<nat>)
    requires g.sectorSize > 0
    ensures r.Ok? ==> r.value <= FAT12_END_CLUSTER
    ensures r.Ok? ==> entry <= FAT12_MAX_CLUSTER && ValidFat(g, fat)
    ensures entry > FAT12_MAX_CLUSTER || !ValidFat(g, fat) ==> r == Err(InvalidValue)
  {
    if entry > FAT12_MAX_CLUSTER || fat < 0 || fat >= g.fatCount then Err(InvalidValue)
    else
      var ss := g.sectorSize;
      var lba := EntryLba(g, fat, Offset12(entry), 1);
      var i := Offset12(entry) % ss;
      if !Fetchable(g, disk, lba) then Err(UnknownError)
      else
        InSector(g, disk, lba, i);
        var b0 := disk[SectorStart(g, lba) + i];
        if i < ss - 1 then Ok(Decode12(entry, b0, disk[SectorStart(g, lba) + i + 1]))
        else if !Fetchable(g, disk, lba + 1) then Err(UnknownError)
        else
          InSector(g, disk, lba + 1, 0);
          Ok(Decode12(entry, b0, disk[SectorStart(g, lba + 1)]))
  }

  /** `write_fat_entry12` on the bytes of the device. */
  function Store12(g: Geometry, disk: seq<Byte>, fat: int, entry: nat, value: nat): (r: Result<seq<Byte>>)
    requires g.sectorSize > 0
    ensures r.Ok? ==> |r.value| == |disk|
    ensures r.Ok? ==> value <= FAT12_END_CLUSTER && entry <= FAT12_MAX_CLUSTER && ValidFat(g, fat)
    ensures value > FAT12_END_CLUSTER || entry > FAT12_MAX_CLUSTER || !ValidFat(g, fat) ==> r == Err(InvalidValue)
  {
    if value > FAT12_END_CLUSTER || entry > FAT12_MAX_CLUSTER || fat < 0 || fat >= g.fatCount then
      Err(InvalidValue)
    else
      var ss := g.sectorSize;
      var lba := EntryLba(g, fat, Offset12(entry), 1);
      var i := Offset12(entry) % ss;
      if !Fetchable(g, disk, lba) then Err(UnknownError)
      else
        InSector(g, disk, lba, i);
        var p0 := SectorStart(g, lba) + i;
        if i == ss - 1 then
          if !Fetchable(g, disk, lba + 1) then Err(UnknownError)
          else
            InSector(g, disk, lba + 1, 0);
            var p1 := SectorStart(g, lba + 1);
            var d := disk[p1 := Second12(entry, value, disk[p1])];
            Ok(d[p0 := First12(entry, value, d[p0])])
        else
          var d := disk[p0 + 1 := Second12(entry, value, disk[p0 + 1])];
          Ok(d[p0 := First12(entry, value, d[p0])])
  }

  /**
   * A FAT12 entry reads as if the FAT were one contiguous byte string: an entry that straddles
   * a sector boundary takes its second byte from byte 0 of the next sector.  The read succeeds
   * exactly when both bytes lie on the device.
   */
  lemma Read12Contiguous(g: Geometry, disk: seq<Byte>, fat: nat, entry: nat)
    requires WholeSectors(g, disk) && fat < g.fatCount && entry <= FAT12_MAX_CLUSTER
    ensures var p := FatStart(g, fat) + Offset12(entry);
      Read12(g, disk, fat, entry) ==
        if p + 1 < |disk| then Ok(Decode12(entry, disk[p], disk[p + 1])) else Err(UnknownError)
  {
    var ss := g.sectorSize;
    var lba := EntryLba(g, fat, Offset12(entry), 1);
    var i := Offset12(entry) % ss;
    Locate12(g, disk, fat, entry, lba, i);
  }

  /** Where the two bytes of a FAT12 entry are, in sector terms and in device terms. */
  lemma Locate12(g: Geometry, disk: seq<Byte>, fat: nat, entry: nat, lba: nat, i: nat)
    requires WholeSectors(g, disk)
    requires lba == EntryLba(g, fat, Offset12(entry), 1) && i == Offset12(entry) % g.sectorSize
    ensures i < g.sectorSize
    ensures SectorStart(g, lba) + i == FatStart(g, fat) + Offset12(entry)
    ensures Fetchable(g, disk, lba) <==> SectorStart(g, lba) + i < |disk|
    ensures i == g.sectorSize - 1 ==> SectorStart(g, lba + 1) == SectorStart(g, lba) + i + 1
    ensures i == g.sectorSize - 1 ==> (Fetchable(g, disk, lba + 1) <==> SectorStart(g, lba) + i + 1 < |disk|)
    ensures i < g.sectorSize - 1 ==> (Fetchable(g, disk, lba) <==> SectorStart(g, lba) + i + 1 < |disk|)
  {
    var ss := g.sectorSize;
    Linear(g, fat, Offset12(entry), 1);
    SectorOf(g, disk, lba, i);
    if i == ss - 1 {
      SectorOf(g, disk, lba + 1, 0);
    } else {
      SectorOf(g, disk, lba, i + 1);
    }
  }

  /** A successful FAT12 write changes the two bytes at the entry's offset and nothing else. */
  lemma Store12Contiguous(g: Geometry, disk: seq<Byte>, fat: nat, entry: nat, value: nat)
    requires WholeSectors(g, disk) && fat < g.fatCount && entry <= FAT12_MAX_CLUSTER
    requires value <= FAT12_END_CLUSTER
    ensures var p := FatStart(g, fat) + Offset12(entry);
      Store12(g, disk, fat, entry, value) ==
        if p + 1 < |disk| then
          Ok(disk[p + 1 := Second12(entry, value, disk[p + 1])][p := First12(entry, value, disk[p])])
        else Err(UnknownError)
  {
    var ss := g.sectorSize;
    var lba := EntryLba(g, fat, Offset12(entry), 1);
    var i := Offset12(entry) % ss;
    Locate12(g, disk, fat, entry, lba, i);
  }

  /** Reading back a written FAT12 entry gives the value written. */
  lemma Write12ThenRead(g: Geometry, disk: seq<Byte>, fat: nat, entry: nat, value: nat)
    requires WholeSectors(g, disk) && fat < g.fatCount
    requires Store12(g, disk, fat, entry, value).Ok?
    ensures Read12(g, Store12(g, disk, fat, entry, value).value, fat, entry) == Ok(value)
  {
    var d := Store12(g, disk, fat, entry, value).value;
    var p := FatStart(g, fat) + Offset12(entry);
    Store12Contiguous(g, disk, fat, entry, value);
    assert d == disk[p + 1 := Second12(entry, value, disk[p + 1])][p := First12(entry, value, disk[p])];
    Read12Contiguous(g, d, fat, entry);
    Packed12(entry, value, disk[p], disk[p + 1]);
  }

  /** The two patched bytes decode to the value written. */
  lemma Packed12(entry: nat, value: nat, old0: Byte, old1: Byte)
    requires value <= FAT12_END_CLUSTER
    ensures Decode12(entry, First12(entry, value, old0), Second12(entry, value, old1)) == value
  {
    if entry % 2 == 1 {
      var k := value % 16;
      assert (old0 % 16 + k * 16) / 16 == k;
      assert value == k + ((value / 16) % 256) * 16;
    } else {
      var k := (value / 256) % 16;
      assert ((old1 / 16) * 16 + k) % 16 == k;
      assert value == value % 256 + k * 256;
    }
  }

  /**
   * Writing one FAT12 entry leaves every other entry of the same FAT as it was, including the
   * neighbour that shares a byte with it, and leaves every device byte outside the entry's two
   * bytes untouched.
   */
  lemma Write12KeepsOthers(g: Geometry, disk: seq<Byte>, fat: nat, entry: nat, value: nat, other: nat)
    requires WholeSectors(g, disk) && fat < g.fatCount
    requires Store12(g, disk, fat, entry, value).Ok? && other != entry
    ensures Read12(g, Store12(g, disk, fat, entry, value).value, fat, other) == Read12(g, disk, fat, other)
    ensures var p := FatStart(g, fat) + Offset12(entry);
      forall k :: 0 <= k < |disk| && k != p && k != p + 1 ==> Store12(g, disk, fat, entry, value).value[k] == disk[k]
  {
    var p := FatStart(g, fat) + Offset12(entry);
    Store12Contiguous(g, disk, fat, entry, value);
    var d := disk[p + 1 := Second12(entry, value, disk[p + 1])][p := First12(entry, value, disk[p])];
    assert Store12(g, disk, fat, entry, value).value == d;
    if other <= FAT12_MAX_CLUSTER {
      Read12Contiguous(g, d, fat, other);
      Read12Contiguous(g, disk, fat, other);
      var q := FatStart(g, fat) + Offset12(other);
      Offset12Apart(entry, other);
      if q + 1 < |disk| {
        if other == entry + 1 && entry % 2 == 0 {
          assert d[q] == Second12(entry, value, disk[q]) && d[q + 1] == disk[q + 1];
          SharedHigh(entry, value, disk[q], disk[q + 1]);
        } else if other + 1 == entry && entry % 2 == 1 {
          assert d[q] == disk[q] && d[p] == First12(entry, value, disk[p]);
          SharedLow(entry, value, disk[q], disk[p]);
        } else {
          assert d[q] == disk[q] && d[q + 1] == disk[q + 1];
        }
      }
    }
  }

  /**
   * FAT12 entries sit 1.5 bytes apart: an even entry shares its second byte with the next
   * entry, an odd entry its first byte with the previous one, and no other two entries share
   * a byte.
   */
  lemma Offset12Apart(entry: nat, other: nat)
    requires other != entry
    ensures other == entry + 1 && entry % 2 == 0 ==> Offset12(other) == Offset12(entry) + 1
    ensures other + 1 == entry && entry % 2 == 1 ==> Offset12(other) + 1 == Offset12(entry)
    ensures !(other == entry + 1 && entry % 2 == 0) && !(other + 1 == entry && entry % 2 == 1) ==>
      Offset12(other) + 1 < Offset12(entry) || Offset12(entry) + 1 < Offset12(other)
  {
  }

  /** Writing an even entry keeps the high nibble of its second byte, which the next entry reads. */
  lemma SharedHigh(entry: nat, value: nat, b0: Byte, b1: Byte)
    requires entry % 2 == 0
    ensures Decode12(entry + 1, Second12(entry, value, b0), b1) == Decode12(entry + 1, b0, b1)
  {
  }

  /** Writing an odd entry keeps the low nibble of its first byte, which the previous entry reads. */
  lemma SharedLow(entry: nat, value: nat, b0: Byte, b1: Byte)
    requires entry % 2 == 1
    ensures Decode12(entry - 1, b0, First12(entry, value, b1)) == Decode12(entry - 1, b0, b1)
  {
  }

  // ---------------------------------------------------------------- FAT16

  /** The little-endian 16-bit value at s[i..i+2]. */
  function U16At(s: seq<Byte>, i: nat): (v: nat)
    requires i + 2 <= |s|
    ensures v <= 0xFFFF
  {
    s[i] as int + 256 * (s[i + 1] as int)
  }

  /** `read_fat_entry16`: a sector holds sectorSize / 2 entries. */
  function Read16(g: Geometry, disk: seq<Byte>, fat: int, entry: nat): (r: Result<nat>)
    requires g.sectorSize >= 2
    ensures r.Ok? ==> r.value <= FAT16_END_CLUSTER
    ensures r.Ok? ==> entry <= FAT16_MAX_CLUSTER && ValidFat(g, fat)
    ensures entry > FAT16_MAX_CLUSTER || !ValidFat(g, fat) ==> r == Err(InvalidValue)
  {
    if entry > FAT16_MAX_CLUSTER || fat < 0 || fat >= g.fatCount then Err(InvalidValue)
    else if !Fetchable(g, disk, EntryLba(g, fat, entry, 2)) then Err(UnknownError)
    else
      EntryFits(g, disk, fat, entry, 2);
      Ok(U16At(disk, EntryPos(g, fat, entry, 2)))
  }

  /** `write_fat_entry16` on the bytes of the device. */
  function Store16(g: Geometry, disk: seq<Byte>, fat: int, entry: nat, value: nat): (r: Result<seq<Byte>>)
    requires g.sectorSize >= 2
    ensures r.Ok? ==> |r.value| == |disk|
    ensures r.Ok? ==> value <= FAT16_END_CLUSTER && entry <= FAT16_MAX_CLUSTER && ValidFat(g, fat)
    ensures value > FAT16_END_CLUSTER || entry > FAT16_MAX_CLUSTER || !ValidFat(g, fat) ==> r == Err(InvalidValue)
  {
    if value > FAT16_END_CLUSTER || entry > FAT16_MAX_CLUSTER || fat < 0 || fat >= g.fatCount then
      Err(InvalidValue)
    else if !Fetchable(g, disk, EntryLba(g, fat, entry, 2)) then Err(UnknownError)
    else
      EntryFits(g, disk, fat, entry, 2);
      var p := EntryPos(g, fat, entry, 2);
      Ok(disk[p := value % 256][p + 1 := value / 256])
  }

  /** On sectors of an even size, FAT16 entry `e` is the 16-bit word at byte 2e of the FAT. */
  lemma Read16Contiguous(g: Geometry, disk: seq<Byte>, fat: nat, entry: nat)
    requires WholeSectors(g, disk) && g.sectorSize % 2 == 0 && fat < g.fatCount && entry <= FAT16_MAX_CLUSTER
    ensures var p := FatStart(g, fat) + 2 * entry;
      Read16(g, disk, fat, entry) == if p + 1 < |disk| then Ok(U16At(disk, p)) else Err(UnknownError)
    ensures var p := FatStart(g, fat) + 2 * entry;
      forall value: nat :: value <= FAT16_END_CLUSTER ==>
        Store16(g, disk, fat, entry, value) ==
          if p + 1 < |disk| then Ok(disk[p := value % 256][p + 1 := value / 256]) else Err(UnknownError)
  {
    var n := g.sectorSize / 2;
    Linear(g, fat, entry, 2);
    SectorOf(g, disk, EntryLba(g, fat, entry, 2), 2 * (entry % n) + 1);
  }

  /** Reading back a written FAT16 entry gives the value written; other entries keep theirs. */
  lemma Write16ThenRead(g: Geometry, disk: seq<Byte>, fat: nat, entry: nat, value: nat, other: nat)
    requires WholeSectors(g, disk) && g.sectorSize % 2 == 0 && fat < g.fatCount
    requires Store16(g, disk, fat, entry, value).Ok? && other != entry
    ensures Read16(g, Store16(g, disk, fat, entry, value).value, fat, entry) == Ok(value)
    ensures Read16(g, Store16(g, disk, fat, entry, value).value, fat, other) == Read16(g, disk, fat, other)
  {
    var d := Store16(g, disk, fat, entry, value).value;
    Read16Contiguous(g, disk, fat, entry);
    Read16Contiguous(g, d, fat, entry);
    if other <= FAT16_MAX_CLUSTER {
      Read16Contiguous(g, disk, fat, other);
      Read16Contiguous(g, d, fat, other);
    }
  }

  // ---------------------------------------------------------------- FAT32

  /** The whole 32-bit word of a FAT32 entry, reserved top bits included, when it can be fetched. */
  function Raw32(g: Geometry, disk: seq<Byte>, fat: nat, entry: nat): (r: Result<nat>)
    requires g.sectorSize >= 4
    ensures r.Ok? ==> r.value < U32_LIMIT
    ensures r.Ok? <==> Fetchable(g, disk, EntryLba(g, fat, entry, 4))
  {
    if !Fetchable(g, disk, EntryLba(g, fat, entry, 4)) then Err(UnknownError)
    else
      EntryFits(g, disk, fat, entry, 4);
      Ok(U32At(disk, EntryPos(g, fat, entry, 4)))
  }

  /** `read_fat_entry32`: the low 28 bits of the entry's word. */
  function Read32(g: Geometry, disk: seq<Byte>, fat: int, entry: nat): (r: Result<nat>)
    requires g.sectorSize >= 4
    ensures r.Ok? ==> r.value < FAT32_TOP
    ensures r.Ok? ==> entry <= FAT32_MAX_CLUSTER && ValidFat(g, fat)
    ensures entry > FAT32_MAX_CLUSTER || !ValidFat(g, fat) ==> r == Err(InvalidValue)
  {
    if entry > FAT32_MAX_CLUSTER || fat < 0 || fat >= g.fatCount then Err(InvalidValue)
    else
      match Raw32(g, disk, fat, entry)
      case Ok(word) => Ok(word % FAT32_TOP)
      case Err(e) => Err(e)
  }

  /**
   * `(*entry & 0xF0000000) | value`: the top four bits of the old word with a 28-bit value
   * below them.
   */
  function Masked32(word: nat, value: nat): (r: nat)
    requires word < U32_LIMIT && value < FAT32_TOP
    ensures r < U32_LIMIT
    ensures r % FAT32_TOP == value && r / FAT32_TOP == word / FAT32_TOP
  {
    (word / FAT32_TOP) * FAT32_TOP + value
  }

  /** `write_fat_entry32` on the bytes of the device: the top four bits of the word are kept. */
  function Store32(g: Geometry, disk: seq<Byte>, fat: int, entry: nat, value: nat): (r: Result<seq<Byte>>)
    requires g.sectorSize >= 4
    ensures r.Ok? ==> |r.value| == |disk|
    ensures r.Ok? ==> value <= FAT32_END_CLUSTER && entry <= FAT32_MAX_CLUSTER && ValidFat(g, fat)
    ensures value > FAT32_END_CLUSTER || entry > FAT32_MAX_CLUSTER || !ValidFat(g, fat) ==> r == Err(InvalidValue)
  {
    if value > FAT32_END_CLUSTER || entry > FAT32_MAX_CLUSTER || fat < 0 || fat >= g.fatCount then
      Err(InvalidValue)
    else if !Fetchable(g, disk, EntryLba(g, fat, entry, 4)) then Err(UnknownError)
    else
      EntryFits(g, disk, fat, entry, 4);
      var p := EntryPos(g, fat, entry, 4);
      Ok(disk[..p] + LE32(Masked32(U32At(disk, p), value)) + disk[p + 4..])
  }

  /**
   * Reading back a written FAT32 entry gives the value written, and the reserved top four bits
   * of its word are those it had.
   */
  lemma Write32ThenRead(g: Geometry, disk: seq<Byte>, fat: nat, entry: nat, value: nat)
    requires g.sectorSize >= 4 && fat < g.fatCount
    requires Store32(g, disk, fat, entry, value).Ok?
    ensures Read32(g, Store32(g, disk, fat, entry, value).value, fat, entry) == Ok(value)
    ensures Raw32(g, Store32(g, disk, fat, entry, value).value, fat, entry).Ok?
    ensures Raw32(g, Store32(g, disk, fat, entry, value).value, fat, entry).value / FAT32_TOP
      == Raw32(g, disk, fat, entry).value / FAT32_TOP
  {
    EntryFits(g, disk, fat, entry, 4);
    var p := EntryPos(g, fat, entry, 4);
    var word := Masked32(U32At(disk, p), value);
    var d := Store32(g, disk, fat, entry, value).value;
    assert d == disk[..p] + LE32(word) + disk[p + 4..];
    assert d[p..p + 4] == LE32(word);
    LE32RoundTrip(word, d, p);
  }

  /** Writing one FAT32 entry leaves the word of every other entry of the same FAT as it was. */
  lemma Write32KeepsOthers(g: Geometry, disk: seq<Byte>, fat: nat, entry: nat, value: nat, other: nat)
    requires g.sectorSize >= 4 && fat < g.fatCount
    requires Store32(g, disk, fat, entry, value).Ok? && other != entry
    ensures Raw32(g, Store32(g, disk, fat, entry, value).value, fat, other) == Raw32(g, disk, fat, other)
  {
    EntryFits(g, disk, fat, entry, 4);
    var p := EntryPos(g, fat, entry, 4);
    var w := LE32(Masked32(U32At(disk, p), value));
    assert Store32(g, disk, fat, entry, value).value == disk[..p] + w + disk[p + 4..];
    OtherWord32(g, disk, fat, entry, w, other);
  }

  /** Replacing the word of one FAT32 entry leaves the word of any other entry unchanged. */
  lemma OtherWord32(g: Geometry, disk: seq<Byte>, fat: nat, entry: nat, w: seq<Byte>, other: nat)
    requires g.sectorSize >= 4 && other != entry && |w| == 4
    requires Fetchable(g, disk, EntryLba(g, fat, entry, 4))
    ensures EntryPos(g, fat, entry, 4) + 4 <= |disk|
    ensures var p := EntryPos(g, fat, entry, 4);
      Raw32(g, disk[..p] + w + disk[p + 4..], fat, other) == Raw32(g, disk, fat, other)
  {
    EntryFits(g, disk, fat, entry, 4);
    var p := EntryPos(g, fat, entry, 4);
    if Fetchable(g, disk, EntryLba(g, fat, other, 4)) {
      EntryFits(g, disk, fat, other, 4);
      EntriesDisjoint(g, fat, entry, other, 4);
      WordElsewhere(disk, p, w, EntryPos(g, fat, other, 4));
    }
  }

  /** Replacing four bytes at p leaves a word at q that does not overlap them unchanged. */
  lemma WordElsewhere(disk: seq<Byte>, p: nat, w: seq<Byte>, q: nat)
    requires p + 4 <= |disk| && |w| == 4 && q + 4 <= |disk|
    requires q + 4 <= p || p + 4 <= q
    ensures U32At(disk[..p] + w + disk[p + 4..], q) == U32At(disk, q)
  {
    var d := disk[..p] + w + disk[p + 4..];
    assert forall k :: 0 <= k < |disk| && (k < p || p + 4 <= k) ==> d[k] == disk[k];
  }

  /** Two distinct items of the same width occupy disjoint bytes of the device. */
  lemma EntriesDisjoint(g: Geometry, fat: nat, e1: nat, e2: nat, width: nat)
    requires 0 < width <= g.sectorSize && e1 != e2
    ensures EntryPos(g, fat, e1, width) + width <= EntryPos(g, fat, e2, width) ||
      EntryPos(g, fat, e2, width) + width <= EntryPos(g, fat, e1, width)
  {
    var n := g.sectorSize / width;
    var l1, l2 := EntryLba(g, fat, e1, width), EntryLba(g, fat, e2, width);
    if l1 == l2 {
      DivModDistinct(e1, e2, n);
      if e1 % n < e2 % n {
        MulMono(e1 % n + 1, e2 % n, width);
      } else {
        MulMono(e2 % n + 1, e1 % n, width);
      }
    }
    SlotInSector(g.sectorSize, width, n, e1 % n);
    SlotInSector(g.sectorSize, width, n, e2 % n);
    SlotsDisjoint(g.sectorSize, width, l1, width * (e1 % n), l2, width * (e2 % n));
  }

  /** Distinct numbers with the same quotient have different remainders. */
  lemma DivModDistinct(e1: nat, e2: nat, n: nat)
    requires n > 0 && e1 != e2 && e1 / n == e2 / n
    ensures e1 % n != e2 % n
  {
    assert e1 == n * (e1 / n) + e1 % n && e2 == n * (e2 / n) + e2 % n;
  }

  /** Slots of `width` bytes, each inside its sector, are disjoint unless they coincide. */
  lemma SlotsDisjoint(ss: nat, width: nat, l1: nat, o1: nat, l2: nat, o2: nat)
    requires o1 + width <= ss && o2 + width <= ss && (l1 != l2 || o1 + width <= o2 || o2 + width <= o1)
    ensures Times(l1, ss) + o1 + width <= Times(l2, ss) + o2 || Times(l2, ss) + o2 + width <= Times(l1, ss) + o1
  {
    if l1 < l2 {
      TimesLess(l1, l2, ss);
    } else if l2 < l1 {
      TimesLess(l2, l1, ss);
    }
  }

  // ---------------------------------------------------------------- writers, in place

  /** `write_fat_entry12`: patches the device's bytes in place. */
  method WriteEntry12(g: Geometry, disk: array<Byte>, fat: int, entry: nat, value: nat) returns (status: Status)
    requires g.sectorSize > 0
    modifies disk
    ensures match Store12(g, old(disk[..]), fat, entry, value)
      case Ok(d) => status == Success && disk[..] == d
      case Err(e) => status == e && disk[..] == old(disk[..])
  {
    if value > FAT12_END_CLUSTER || entry > FAT12_MAX_CLUSTER || fat < 0 || fat >= g.fatCount {
      return InvalidValue;
    }
    var ss := g.sectorSize;
    var byteIdx := entry + entry / 2;
    var lba := EntryLba(g, fat, byteIdx, 1);
    byteIdx := byteIdx % ss;
    if SectorStart(g, lba + 1) > disk.Length {
      return UnknownError;
    }
    InSector(g, disk[..], lba, byteIdx);
    var p0 := SectorStart(g, lba) + byteIdx;
    if byteIdx == ss - 1 {
      if SectorStart(g, lba + 2) > disk.Length {
        return UnknownError;
      }
      InSector(g, disk[..], lba + 1, 0);
      var p1 := SectorStart(g, lba + 1);
      disk[p1] := Second12(entry, value, disk[p1]);
    } else {
      disk[p0 + 1] := Second12(entry, value, disk[p0 + 1]);
    }
    disk[p0] := First12(entry, value, disk[p0]);
    status := Success;
  }

  /** `write_fat_entry16`: patches the entry's two bytes in place. */
  method WriteEntry16(g: Geometry, disk: array<Byte>, fat: int, entry: nat, value: nat) returns (status: Status)
    requires g.sectorSize >= 2
    modifies disk
    ensures match Store16(g, old(disk[..]), fat, entry, value)
      case Ok(d) => status == Success && disk[..] == d
      case Err(e) => status == e && disk[..] == old(disk[..])
  {
    if value > FAT16_END_CLUSTER || entry > FAT16_MAX_CLUSTER || fat < 0 || fat >= g.fatCount {
      return InvalidValue;
    }
    var lba := EntryLba(g, fat, entry, 2);
    if SectorStart(g, lba + 1) > disk.Length {
      return UnknownError;
    }
    EntryFits(g, disk[..], fat, entry, 2);
    var p := EntryPos(g, fat, entry, 2);
    disk[p] := value % 256;
    disk[p + 1] := value / 256;
    status := Success;
  }

  /** `write_fat_entry32`: clears the low 28 bits of the entry's word, then ORs the value in. */
  method WriteEntry32(g: Geometry, disk: array<Byte>, fat: int, entry: nat, value: nat) returns (status: Status)
    requires g.sectorSize >= 4
    modifies disk
    ensures match Store32(g, old(disk[..]), fat, entry, value)
      case Ok(d) => status == Success && disk[..] == d
      case Err(e) => status == e && disk[..] == old(disk[..])
  {
    if value > FAT32_END_CLUSTER || entry > FAT32_MAX_CLUSTER || fat < 0 || fat >= g.fatCount {
      return InvalidValue;
    }
    var lba := EntryLba(g, fat, entry, 4);
    if SectorStart(g, lba + 1) > disk.Length {
      return UnknownError;
    }
    EntryFits(g, disk[..], fat, entry, 4);
    var p := EntryPos(g, fat, entry, 4);
    var bytes := LE32(Masked32(U32At(disk[..], p), value));
    disk[p], disk[p + 1], disk[p + 2], disk[p + 3] := bytes[0], bytes[1], bytes[2], bytes[3];
    assert disk[..] == old(disk[..p]) + bytes + old(disk[p + 4..]);
    status := Success;
  }
}
