/**
 * Helpers of the boot loader's FAT driver (boot/filesystem/fat/fat.c): UCS-2 to UTF-8
 * conversion of long-name characters, the 8.3 short name, its checksum, the maps between
 * clusters and sectors, following the cluster chain, and the file cursor of `read` and `seek`.
 *
 * Directory-entry bytes are `Byte`s; C's `char` is signed on i686, which changes no result
 * below because every byte written or summed is taken modulo 256.
 */
module FatBoot {
  import opened Common
  import Ctype
  import FT = FatTable

  // ---------------------------------------------------------------- UCS-2 to UTF-8

  /** One UTF-8 continuation byte carrying the six bits `bits`. */
  function Cont(bits: nat): Byte
    requires bits < 64
  {
    0x80 + bits
  }

  /**
   * The bytes `ucs2_to_utf8` writes for a character other than 0 and 0xFFFF: one byte below
   * 0x7F, two below 0x7FF, three otherwise.
   */
  function Utf8AsWritten(ch: nat): (r: seq<Byte>)
    requires ch < 0x1_0000
    ensures 1 <= |r| <= 3
    ensures |r| == 1 <==> ch < 0x7F
    ensures |r| == 2 <==> 0x7F <= ch < 0x7FF
  {
    if ch < 0x7F then [ch]
    else if ch < 0x7FF then [0xC0 + (ch / 64) % 32, Cont(ch % 64)]
    else [0xE0 + ch / 4096, Cont((ch / 64) % 64), Cont(ch % 64)]
  }

  /** The UTF-8 encoding of a character of the Basic Multilingual Plane (section 3 of RFC 3629). */
  function Utf8(ch: nat): (r: seq<Byte>)
    requires ch < 0x1_0000
    ensures 1 <= |r| <= 3
    ensures |r| == 1 <==> ch < 0x80
    ensures |r| == 2 <==> 0x80 <= ch < 0x800
  {
    if ch < 0x80 then [ch]
    else if ch < 0x800 then [0xC0 + ch / 64, Cont(ch % 64)]
    else [0xE0 + ch / 4096, Cont((ch / 64) % 64), Cont(ch % 64)]
  }

  /** Is the byte a continuation byte `10xxxxxx`? */
  predicate IsCont(b: Byte)
  {
    0x80 <= b < 0xC0
  }

  /**
   * The character of a well-formed UTF-8 sequence of at most three bytes, as section 4 of
   * RFC 3629 defines well-formed: the shortest form only, and no surrogate code points.
   */
  function DecodeUtf8(s: seq<Byte>): Option<nat>
  {
    if |s| == 1 && s[0] < 0x80 then Some(s[0])
    else if |s| == 2 && 0xC0 <= s[0] < 0xE0 && IsCont(s[1]) then
      var v := (s[0] as int - 0xC0) * 64 + (s[1] as int - 0x80);
      if v >= 0x80 then Some(v) else None
    else if |s| == 3 && 0xE0 <= s[0] < 0xF0 && IsCont(s[1]) && IsCont(s[2]) then
      var v := (s[0] as int - 0xE0) * 4096 + (s[1] as int - 0x80) * 64 + (s[2] as int - 0x80);
      if v >= 0x800 && !(0xD800 <= v < 0xE000) then Some(v) else None
    else None
  }

  /** Encoding then decoding gives the character back, for every non-surrogate character. */
  lemma Utf8RoundTrip(ch: nat)
    requires ch < 0x1_0000 && !(0xD800 <= ch < 0xE000)
    ensures DecodeUtf8(Utf8(ch)) == Some(ch)
  {
    if ch >= 0x800 {
      assert ch == (ch / 4096) * 4096 + ((ch / 64) % 64) * 64 + ch % 64;
    } else if ch >= 0x80 {
      assert ch == (ch / 64) * 64 + ch % 64;
    }
  }

  /**
   * `ucs2_to_utf8` agrees with RFC 3629 except at U+007F and U+07FF, where its bounds are one
   * too low: it writes U+007F as the overlong pair C1 BF and U+07FF as the overlong triple
   * E0 9F BF, neither of which is well-formed UTF-8.
   */
  lemma Utf8BoundsOffByOne(ch: nat)
    requires ch < 0x1_0000
    ensures ch != 0x7F && ch != 0x7FF ==> Utf8AsWritten(ch) == Utf8(ch)
    ensures Utf8AsWritten(0x7F) == [0xC1, 0xBF] && DecodeUtf8(Utf8AsWritten(0x7F)) == None
    ensures Utf8AsWritten(0x7FF) == [0xE0, 0x9F, 0xBF] && DecodeUtf8(Utf8AsWritten(0x7FF)) == None
  {
  }

  /**
   * `ucs2_to_utf8`: writes the encoding of `ch` at the start of `buf` and returns its length;
   * 0 and 0xFFFF (end and padding of a long name) give 0, and a buffer shorter than the
   * encoding gives -1; in both cases nothing is written.
   */
  method Ucs2ToUtf8(buf: array<Byte>, len: int, ch: nat) returns (n: int)
    requires ch < 0x1_0000 && len <= buf.Length
    modifies buf
    ensures ch == 0 || ch == 0xFFFF ==> n == 0 && buf[..] == old(buf[..])
    ensures ch != 0 && ch != 0xFFFF && len < |Utf8AsWritten(ch)| ==> n == -1 && buf[..] == old(buf[..])
    ensures ch != 0 && ch != 0xFFFF && len >= |Utf8AsWritten(ch)| ==>
      n == |Utf8AsWritten(ch)| && buf[..n] == Utf8AsWritten(ch) && buf[n..] == old(buf[n..])
  {
    if ch == 0 || ch == 0xFFFF {
      return 0;
    }
    if ch < 0x7F {
      if len < 1 {
        return -1;
      }
      buf[0] := ch;
      return 1;
    }
    if ch < 0x7FF {
      if len < 2 {
        return -1;
      }
      buf[0] := 0xC0 + (ch / 64) % 32;
      buf[1] := Cont(ch % 64);
      return 2;
    }
    if len < 3 {
      return -1;
    }
    buf[0] := 0xE0 + ch / 4096;
    buf[1] := Cont((ch / 64) % 64);
    buf[2] := Cont(ch % 64);
    return 3;
  }

  // ---------------------------------------------------------------- 8.3 names

  const SFN_NAME: nat := 8
  const SFN_EXTENSION: nat := 3
  /** `FAT_SFN_BUFLEN`: eight name characters, '.', three extension characters and the NUL. */
  const SFN_BUFLEN: nat := 13
  const SPACE: Byte := 0x20
  const DOT: Byte := 0x2E

  /** Bit `FAT_ATTR2_LCASE_NAME` (0x08) of `attribute2`. */
  predicate LowerName(attribute2: Byte)
  {
    (attribute2 / 8) % 2 == 1
  }

  /** Bit `FAT_ATTR2_LCASE_EXT` (0x10) of `attribute2`. */
  predicate LowerExt(attribute2: Byte)
  {
    (attribute2 / 16) % 2 == 1
  }

  /** The number of characters of a space-padded field before its first space. */
  function FieldLength(field: seq<Byte>): (n: nat)
    ensures n <= |field|
    ensures forall i :: 0 <= i < n ==> field[i] != SPACE
    ensures n < |field| ==> field[n] == SPACE
  {
    if field == [] || field[0] == SPACE then 0 else 1 + FieldLength(field[1..])
  }

  /** A byte as the directory entry shows it: upper-case letters lowered when `lower` holds. */
  function Shown(c: Byte, lower: bool): (r: Byte)
  {
    if lower && 'A' as int <= c <= 'Z' as int then c + 0x20 else c
  }

  /** Lowering is the C library's `tolower` on the 7-bit characters it accepts. */
  lemma ShownIsToLower(c: Byte)
    requires c < 128
    ensures Shown(c, true) == Ctype.ToLower(c)
  {
  }

  /** A field up to its first space, each byte shown as the flag says. */
  function Field(field: seq<Byte>, lower: bool): (r: seq<Byte>)
    ensures |r| == FieldLength(field)
    ensures forall i :: 0 <= i < |r| ==> r[i] == Shown(field[i], lower)
  {
    seq(FieldLength(field), i requires 0 <= i < FieldLength(field) => Shown(field[i], lower))
  }

  /**
   * The characters of a field that the loop hands to `tolower` when `lower` holds are 7-bit. The
   * entry's fields are plain `char`, signed here, so a byte of 0x80 or more reaches `tolower` as
   * a negative value and indexes before its table: undefined.
   */
  predicate Lowerable(field: seq<Byte>, lower: bool)
  {
    lower ==> forall i :: 0 <= i < FieldLength(field) ==> field[i] < 128
  }

  /** The extension as the file name shows it: '.' and the extension, or nothing when it is blank. */
  function Suffix(ext: seq<Byte>, lower: bool): (r: seq<Byte>)
    requires |ext| == SFN_EXTENSION
    ensures |r| <= 1 + SFN_EXTENSION && SPACE !in r
    ensures r == [] <==> ext[0] == SPACE
  {
    (if ext[0] != SPACE then [DOT] else []) + Field(ext, lower)
  }

  /**
   * The file name a short directory entry stands for: name, then '.' and extension if any; None
   * when a flag sends a byte of 0x80 or more to `tolower`.
   */
  function SfnName(name: seq<Byte>, ext: seq<Byte>, attribute2: Byte): (r: Option<seq<Byte>>)
    requires |name| == SFN_NAME && |ext| == SFN_EXTENSION
    ensures r.None? <==> !Lowerable(name, LowerName(attribute2)) || !Lowerable(ext, LowerExt(attribute2))
    ensures r.Some? ==> |r.value| <= SFN_NAME + 1 + SFN_EXTENSION && SPACE !in r.value
  {
    if !Lowerable(name, LowerName(attribute2)) || !Lowerable(ext, LowerExt(attribute2)) then None
    else Some(Field(name, LowerName(attribute2)) + Suffix(ext, LowerExt(attribute2)))
  }

  /** A field of `width` bytes: the text, then spaces. */
  function Pad(text: seq<Byte>, width: nat): (r: seq<Byte>)
    requires |text| <= width
    ensures |r| == width && r[..|text|] == text
  {
    text + seq(width - |text|, _ => SPACE)
  }

  /**
   * A name of up to eight characters and an extension of up to three, neither containing a
   * space, padded into a directory entry without case flags, read back as "NAME.EXT", or as
   * "NAME" when the extension is empty.
   */
  lemma SfnRoundTrip(base: seq<Byte>, ext: seq<Byte>)
    requires 1 <= |base| <= SFN_NAME && |ext| <= SFN_EXTENSION && SPACE !in base && SPACE !in ext
    ensures SfnName(Pad(base, SFN_NAME), Pad(ext, SFN_EXTENSION), 0) ==
      Some(base + (if ext == [] then [] else [DOT] + ext))
  {
    PadField(base, SFN_NAME);
    PadField(ext, SFN_EXTENSION);
    assert Pad(ext, SFN_EXTENSION)[0] != SPACE <==> ext != [] by {
      if ext != [] { assert Pad(ext, SFN_EXTENSION)[0] == ext[0]; }
    }
  }

  /**
   * A name whose first byte is 0x8E (an OEM letter) is shown as it is without the lower-case flag,
   * and is undefined with it.
   */
  lemma SfnHighByte(name: seq<Byte>, ext: seq<Byte>)
    requires name == [0x8E] + seq(SFN_NAME - 1, _ => SPACE) && ext == seq(SFN_EXTENSION, _ => SPACE)
    ensures SfnName(name, ext, 0) == Some([0x8E])
    ensures SfnName(name, ext, 0x08) == None
  {
    FieldLengthIs(name, 1);
    FieldLengthIs(ext, 0);
    assert Field(name, false) == [0x8E];
    assert Suffix(ext, false) == [];
    assert !LowerName(0) && !LowerExt(0);
    assert Field(name, LowerName(0)) + Suffix(ext, LowerExt(0)) == [0x8E];
  }

  /** The field of a padded text without spaces is the text. */
  lemma PadField(text: seq<Byte>, width: nat)
    requires |text| <= width && SPACE !in text
    ensures Field(Pad(text, width), false) == text
  {
    var p := Pad(text, width);
    assert forall i :: 0 <= i < |text| ==> p[i] == text[i] && p[i] != SPACE;
    FieldLengthIs(p, |text|);
  }

  /** A field whose first space is at n has n characters. */
  lemma {:induction false} FieldLengthIs(field: seq<Byte>, n: nat)
    requires n <= |field| && (forall i :: 0 <= i < n ==> field[i] != SPACE)
    requires n < |field| ==> field[n] == SPACE
    ensures FieldLength(field) == n
    decreases n
  {
    if n > 0 {
      FieldLengthIs(field[1..], n - 1);
    }
  }

  /**
   * `get_sfn_filename`: writes the short name of a directory entry and its NUL into `buf` and
   * returns its length, at most 12; None where a byte sent to `tolower` makes it undefined.
   */
  method SfnFilename(name: seq<Byte>, ext: seq<Byte>, attribute2: Byte, buf: array<Byte>) returns (count: Option<nat>)
    requires |name| == SFN_NAME && |ext| == SFN_EXTENSION
    requires buf.Length >= SFN_BUFLEN
    modifies buf
    ensures count.None? <==> SfnName(name, ext, attribute2).None?
    ensures count.Some? ==> count.value <= SFN_BUFLEN - 1 && buf[count.value] == 0
    ensures count.Some? ==> buf[..count.value] == SfnName(name, ext, attribute2).value
    ensures count.Some? ==> forall j :: count.value < j < buf.Length ==> buf[j] == old(buf[j])
  {
    if !Lowerable(name, LowerName(attribute2)) || !Lowerable(ext, LowerExt(attribute2)) {
      return None;
    }
    var n := PutField(name, LowerName(attribute2), buf, 0);
    n := PutSuffix(ext, LowerExt(attribute2), buf, n);
    ghost var whole := buf[..n];
    buf[n] := 0;
    assert buf[..n] == whole;
    count := Some(n);
  }

  /** The part of `get_sfn_filename` after the name: the '.' if the extension is not blank, then the extension. */
  method PutSuffix(ext: seq<Byte>, lower: bool, buf: array<Byte>, start: nat) returns (count: nat)
    requires |ext| == SFN_EXTENSION && start + 1 + SFN_EXTENSION < buf.Length
    modifies buf
    ensures count == start + |Suffix(ext, lower)|
    ensures buf[..count] == old(buf[..start]) + Suffix(ext, lower)
    ensures forall j :: count <= j < buf.Length ==> buf[j] == old(buf[j])
  {
    count := start;
    if ext[0] != SPACE {
      buf[count] := DOT;
      count := count + 1;
    }
    ghost var dotted := buf[..count];
    assert dotted == old(buf[..start]) + (if ext[0] != SPACE then [DOT] else []);
    count := PutField(ext, lower, buf, count);
  }

  /** One loop of `get_sfn_filename`: the field's characters up to its first space, from `start`. */
  method PutField(field: seq<Byte>, lower: bool, buf: array<Byte>, start: nat) returns (count: nat)
    requires start + |field| < buf.Length
    modifies buf
    ensures count == start + FieldLength(field)
    ensures buf[..count] == old(buf[..start]) + Field(field, lower)
    ensures forall j :: count <= j < buf.Length ==> buf[j] == old(buf[j])
  {
    count := start;
    var i := 0;
    while i < |field| && field[i] != SPACE
      invariant 0 <= i <= FieldLength(field) && count == start + i
      invariant buf[..count] == old(buf[..start]) + Field(field, lower)[..i]
      invariant forall j :: count <= j < buf.Length ==> buf[j] == old(buf[j])
    {
      buf[count] := Shown(field[i], lower);
      count, i := count + 1, i + 1;
    }
    assert Field(field, lower)[..i] == Field(field, lower);
  }

  // ---------------------------------------------------------------- the short-name checksum

  /** Rotation of a byte right by one bit: `((sum & 1) ? 0x80 : 0) + (sum >> 1)`. */
  function RotateRight(sum: Byte): (r: Byte)
    ensures r / 128 == sum % 2 && r % 128 == sum / 2
  {
    (sum % 2) * 128 + sum / 2
  }

  /** One step of the checksum: the sum rotated right plus the next byte, wrapping at 256. */
  function Step(sum: Byte, x: Byte): Byte
  {
    var t := RotateRight(sum) + x;
    if t < 256 then t else t - 256
  }

  /** The checksum of the bytes, each step rotating the sum right and adding the next byte. */
  function Checksum(s: seq<Byte>): (r: Byte)
  {
    if s == [] then 0 else Step(Checksum(s[..|s| - 1]), s[|s| - 1])
  }

  /** Rotation right is a bijection on bytes. */
  lemma RotateRightInjective(a: Byte, b: Byte)
    requires RotateRight(a) == RotateRight(b)
    ensures a == b
  {
  }

  /** `get_sfn_checksum`: the checksum of the FAT_SFN_BUFLEN bytes at buf. */
  method SfnChecksum(buf: array<Byte>) returns (sum: Byte)
    requires buf.Length >= SFN_BUFLEN
    ensures sum == Checksum(buf[..SFN_BUFLEN])
  {
    sum := 0;
    var k := 0;
    while k != SFN_BUFLEN
      invariant 0 <= k <= SFN_BUFLEN
      invariant sum == Checksum(buf[..k])
    {
      assert buf[..k + 1][..k] == buf[..k];
      sum := Step(sum, buf[k]);
      k := k + 1;
    }
  }

  /**
   * The FAT long-name checksum covers the 11 bytes of the 8.3 name.  `get_sfn_checksum` covers
   * FAT_SFN_BUFLEN = 13 bytes, so two buffers holding the same 8.3 name but differing in the
   * twelfth byte get different checksums.
   */
  lemma ChecksumCoversTwoMore(name: seq<Byte>, a: Byte, b: Byte, c: Byte)
    requires |name| == SFN_NAME + SFN_EXTENSION && a != b
    ensures Checksum(name + [a, c]) != Checksum(name + [b, c])
  {
    var sa, sb := name + [a], name + [b];
    ChecksumStep(name, a);
    ChecksumStep(name, b);
    StepSeparatesBytes(Checksum(name), a, b);
    ChecksumStep(sa, c);
    ChecksumStep(sb, c);
    StepSeparatesSums(Checksum(sa), Checksum(sb), c);
    assert sa + [c] == name + [a, c] && sb + [c] == name + [b, c];
  }

  /** From the same sum, different bytes give different sums. */
  lemma StepSeparatesBytes(x: Byte, a: Byte, b: Byte)
    requires a != b
    ensures Step(x, a) != Step(x, b)
  {
  }

  /** Different sums, with the same byte added, stay different. */
  lemma StepSeparatesSums(x: Byte, y: Byte, c: Byte)
    requires x != y
    ensures Step(x, c) != Step(y, c)
  {
    if RotateRight(x) == RotateRight(y) {
      RotateRightInjective(x, y);
    }
  }

  /** One more byte: one more step. */
  lemma ChecksumStep(s: seq<Byte>, x: Byte)
    ensures Checksum(s + [x]) == Step(Checksum(s), x)
  {
    assert (s + [x])[..|s|] == s;
  }

  /** The checksum of an 8.3 name as the FAT specification defines it, over its 11 bytes. */
  method SfnChecksumIntended(buf: array<Byte>) returns (sum: Byte)
    requires buf.Length >= SFN_NAME + SFN_EXTENSION
    ensures sum == Checksum(buf[..SFN_NAME + SFN_EXTENSION])
  {
    sum := 0;
    var k := 0;
    while k != SFN_NAME + SFN_EXTENSION
      invariant 0 <= k <= SFN_NAME + SFN_EXTENSION
      invariant sum == Checksum(buf[..k])
    {
      assert buf[..k + 1][..k] == buf[..k];
      sum := Step(sum, buf[k]);
      k := k + 1;
    }
  }

  // ---------------------------------------------------------------- clusters and sectors

  datatype FatType = Fat12 | Fat16 | Fat32

  /**
   * The mounted volume: the FAT geometry, the device bytes, the bytes of a cluster, and where
   * the data area begins.  On FAT12 and FAT16 the fixed root directory's sectors sit between the
   * FATs and cluster 2.
   */
  datatype Volume = Volume(
    g: FT.Geometry, disk: seq<Byte>, fatType: FatType,
    sectorsPerCluster: nat, clusterSize: nat, dataAreaBegin: nat, rootSectorCount: nat)

  /** What `mount` establishes and the helpers below rely on. */
  predicate ValidVolume(v: Volume)
  {
    v.g.sectorSize >= 4 && v.g.fatCount >= 1 && v.sectorsPerCluster >= 1 &&
    v.clusterSize == v.g.sectorSize * v.sectorsPerCluster && FT.WholeSectors(v.g, v.disk)
  }

  /** The first sector of cluster 2. */
  function ClusterBase(v: Volume): nat
  {
    v.dataAreaBegin + (if v.fatType == Fat32 then 0 else v.rootSectorCount)
  }

  /** `cluster_size`: the bytes of one cluster. */
  function ClusterSize(v: Volume): (n: nat)
    requires ValidVolume(v)
    ensures n >= 4
  {
    FT.MulMono(1, v.sectorsPerCluster, v.g.sectorSize);
    v.clusterSize
  }

  /**
   * `fatcluster_to_sector12_16` and `fatcluster_to_sector32`: computed in 32-bit unsigned
   * arithmetic, so a cluster below 2 wraps around.
   */
  function ClusterToSector(v: Volume, cluster: nat): (lba: nat)
    ensures lba < U32_LIMIT
    ensures 2 <= cluster && (cluster - 2) * v.sectorsPerCluster + ClusterBase(v) < U32_LIMIT ==>
      lba == (cluster - 2) * v.sectorsPerCluster + ClusterBase(v)
  {
    ((cluster - 2) * v.sectorsPerCluster + ClusterBase(v)) % U32_LIMIT
  }

  /** `sector_to_cluster12_16` and `sector_to_cluster32`, for a sector of the data area. */
  function SectorToCluster(v: Volume, lba: nat): (cluster: nat)
    requires v.sectorsPerCluster >= 1 && lba >= ClusterBase(v)
    ensures cluster >= 2
  {
    (lba - ClusterBase(v)) / v.sectorsPerCluster + 2
  }

  /** Every data cluster maps to a sector that maps back to it. */
  lemma ClusterSectorRoundTrip(v: Volume, cluster: nat)
    requires v.sectorsPerCluster >= 1 && cluster >= 2
    requires (cluster - 2) * v.sectorsPerCluster + ClusterBase(v) < U32_LIMIT
    ensures ClusterToSector(v, cluster) >= ClusterBase(v)
    ensures SectorToCluster(v, ClusterToSector(v, cluster)) == cluster
  {
    var k, n := cluster - 2, v.sectorsPerCluster;
    assert ClusterToSector(v, cluster) - ClusterBase(v) == k * n;
    MulDiv(k, n);
  }

  lemma MulDiv(k: nat, n: nat)
    requires n >= 1
    ensures (k * n) / n == k
  {
    DivModUnique(k * n, n, k, 0);
  }

  /** A sector of the data area lies in the cluster it maps to: the cluster's first sector is at most it. */
  lemma SectorInItsCluster(v: Volume, lba: nat)
    requires v.sectorsPerCluster >= 1 && ClusterBase(v) <= lba < U32_LIMIT
    ensures var c := SectorToCluster(v, lba);
      ClusterToSector(v, c) == lba - (lba - ClusterBase(v)) % v.sectorsPerCluster
  {
    var d := lba - ClusterBase(v);
    assert d == (d / v.sectorsPerCluster) * v.sectorsPerCluster + d % v.sectorsPerCluster;
  }

  // ---------------------------------------------------------------- the cluster chain

  /** The largest cluster number that links to a next cluster. */
  function MaxCluster(t: FatType): nat
  {
    match t
    case Fat12 => FT.FAT12_MAX_CLUSTER
    case Fat16 => FT.FAT16_MAX_CLUSTER
    case Fat32 => FT.FAT32_MAX_CLUSTER
  }

  /** The entry of `cluster` in the first FAT, as `read_fat` and the entry decode of each FAT type give it. */
  function NextOf(v: Volume, cluster: nat): (r: Result<nat>)
    requires ValidVolume(v)
    ensures cluster <= MaxCluster(v.fatType) ==> r.Ok? || r == Err(UnknownError)
    ensures r.Ok? ==> cluster <= MaxCluster(v.fatType)
  {
    match v.fatType
    case Fat12 => FT.Read12(v.g, v.disk, 0, cluster)
    case Fat16 => FT.Read16(v.g, v.disk, 0, cluster)
    case Fat32 => FT.Read32(v.g, v.disk, 0, cluster)
  }

  /** `read_cluster`: the bytes of one cluster, fetched from the sector the cluster maps to. */
  function LoadCluster(v: Volume, cluster: nat): (r: Result<seq<Byte>>)
    requires ValidVolume(v)
    ensures r.Ok? ==> |r.value| == ClusterSize(v)
    ensures r.Err? ==> r.status == UnknownError
  {
    var lba := ClusterToSector(v, cluster);
    if FT.SectorStart(v.g, lba + v.sectorsPerCluster) <= |v.disk| then
      ClusterSpan(v, lba);
      var start := FT.SectorStart(v.g, lba);
      Ok(v.disk[start .. start + ClusterSize(v)])
    else Err(UnknownError)
  }

  /** A cluster's sectors end one cluster size after the first of them begins. */
  lemma ClusterSpan(v: Volume, lba: nat)
    requires ValidVolume(v)
    ensures FT.SectorStart(v.g, lba + v.sectorsPerCluster) == FT.SectorStart(v.g, lba) + ClusterSize(v)
  {
    FT.TimesAdd(lba, v.sectorsPerCluster, v.g.sectorSize);
    FT.TimesIsProduct(v.sectorsPerCluster, v.g.sectorSize);
  }

  /**
   * What `read` and `seek` use of a mounted volume, as `mount` sets it up in `struct fat_data`:
   * the last linking cluster and the walker of the volume's FAT type (the `get_next_cluster`
   * pointer), the cluster size, and the cluster fetch of `read_cluster`.
   */
  datatype Driver = Driver(
    maxCluster: nat, clusterSize: nat, next: nat -> Result<nat>, load: nat -> Result<seq<Byte>>)

  /**
   * Every fetched cluster has the cluster size and a failed fetch reports a failure; the entry
   * of a linking cluster is read or fails to be fetched.
   */
  ghost predicate ValidDriver(d: Driver)
  {
    d.clusterSize > 0 &&
    (forall c: nat :: d.load(c).Ok? ==> |d.load(c).value| == d.clusterSize) &&
    (forall c: nat :: d.load(c).Err? ==> d.load(c).status != Success) &&
    (forall c: nat :: c <= d.maxCluster ==> d.next(c).Ok? || d.next(c) == Err(UnknownError))
  }

  /** The driver of a mounted volume: its entries come from its first FAT and its clusters from its data area. */
  function Mounted(v: Volume): (d: Driver)
    requires ValidVolume(v)
    ensures ValidDriver(d) && d.clusterSize == ClusterSize(v) && d.maxCluster == MaxCluster(v.fatType)
    ensures forall c: nat :: d.next(c) == NextOf(v, c) && d.load(c) == LoadCluster(v, c)
  {
    Driver(MaxCluster(v.fatType), ClusterSize(v),
      (c: nat) => if ValidVolume(v) then NextOf(v, c) else Err(UnknownError),
      (c: nat) => if ValidVolume(v) then LoadCluster(v, c) else Err(UnknownError))
  }

  /** Where a walk along the chain stopped, and why. */
  datatype Walk = Walk(status: Status, cluster: nat)

  /**
   * `get_next_cluster12`, `get_next_cluster16` and `get_next_cluster32`: follow `count` links
   * from `cluster`.  A start beyond the last linking cluster is refused; a failed FAT read stops
   * at the cluster whose entry could not be read; an end-of-chain mark stops the walk holding
   * the mark.
   */
  function Follow(d: Driver, cluster: nat, count: nat): (w: Walk)
    requires ValidDriver(d)
    ensures w.status == InvalidValue <==> cluster > d.maxCluster
    ensures w.status == Success ==> w.cluster <= d.maxCluster
    ensures w.status == EndOfList ==> w.cluster > d.maxCluster
    ensures w.status == Success || w.status == InvalidValue || w.status == UnknownError || w.status == EndOfList
    ensures count == 0 ==> w.cluster == cluster
    decreases count
  {
    if cluster > d.maxCluster then Walk(InvalidValue, cluster)
    else if count == 0 then Walk(Success, cluster)
    else match d.next(cluster)
      case Err(e) => Walk(e, cluster)
      case Ok(next) =>
        if next > d.maxCluster then Walk(EndOfList, next) else Follow(d, next, count - 1)
  }

  /** One link of the chain: `Follow` over a single link, spelled out. */
  function Link(d: Driver, cluster: nat): (w: Walk)
    requires ValidDriver(d)
  {
    if cluster > d.maxCluster then Walk(InvalidValue, cluster)
    else match d.next(cluster)
      case Err(e) => Walk(e, cluster)
      case Ok(next) => if next > d.maxCluster then Walk(EndOfList, next) else Walk(Success, next)
  }

  lemma LinkIsFollow(d: Driver, cluster: nat)
    requires ValidDriver(d)
    ensures Link(d, cluster) == Follow(d, cluster, 1)
  {
    if cluster <= d.maxCluster && d.next(cluster).Ok? && d.next(cluster).value <= d.maxCluster {
      assert Follow(d, d.next(cluster).value, 0) == Walk(Success, d.next(cluster).value);
    }
  }

  /** Following j links and then k more is following j + k links, unless the first walk stopped. */
  lemma {:induction false} FollowAdd(d: Driver, cluster: nat, j: nat, k: nat)
    requires ValidDriver(d)
    ensures var w := Follow(d, cluster, j);
      Follow(d, cluster, j + k) == if w.status == Success then Follow(d, w.cluster, k) else w
    decreases j
  {
    if cluster <= d.maxCluster && j > 0 {
      match d.next(cluster)
      case Err(_) =>
      case Ok(next) =>
        if next <= d.maxCluster {
          FollowAdd(d, next, j - 1, k);
          assert j + k - 1 == (j - 1) + k;
        }
    }
  }

  /** A walk that stopped stays where it stopped, however many more links are asked for. */
  lemma {:induction false} FollowStuck(d: Driver, cluster: nat, j: nat, k: nat)
    requires ValidDriver(d) && Follow(d, cluster, j).status != Success
    ensures Follow(d, Follow(d, cluster, j).cluster, k).cluster == Follow(d, cluster, j).cluster
    decreases j
  {
    if cluster <= d.maxCluster && j > 0 {
      match d.next(cluster)
      case Err(_) =>
      case Ok(next) =>
        if next <= d.maxCluster {
          FollowStuck(d, next, j - 1, k);
        }
    }
  }

  /** The cluster reached is the cluster reached in two stages, whatever the statuses. */
  lemma FollowClusterAdd(d: Driver, cluster: nat, j: nat, k: nat)
    requires ValidDriver(d)
    ensures Follow(d, cluster, j + k).cluster == Follow(d, Follow(d, cluster, j).cluster, k).cluster
  {
    FollowAdd(d, cluster, j, k);
    if Follow(d, cluster, j).status != Success {
      FollowStuck(d, cluster, j, k);
    }
  }

  /** `get_next_cluster`: the loop of the three FAT-specific walkers. */
  method GetNextCluster(d: Driver, cluster: nat, count: nat) returns (status: Status, result: nat)
    requires ValidDriver(d)
    ensures Walk(status, result) == Follow(d, cluster, count)
  {
    result := cluster;
    if result > d.maxCluster {
      return InvalidValue, result;
    }
    var left := count;
    while left > 0
      invariant result <= d.maxCluster
      invariant Follow(d, cluster, count) == Follow(d, result, left)
    {
      var entry := d.next(result);
      if entry.Err? {
        return entry.status, result;
      }
      result := entry.value;
      left := left - 1;
      if result > d.maxCluster {
        return EndOfList, result;
      }
    }
    status := Success;
  }

  // ---------------------------------------------------------------- reading a file

  /** The byte at position `pos` of the file whose chain starts at `head`, if its cluster can be reached and fetched. */
  function ByteAt(d: Driver, head: nat, pos: nat): Option<Byte>
    requires ValidDriver(d)
  {
    var w := Follow(d, head, ClusterIndex(pos, d.clusterSize));
    if w.status != Success then None
    else match d.load(w.cluster)
      case Err(_) => None
      case Ok(bytes) => Some(bytes[ClusterOffset(pos, d.clusterSize)])
  }

  /** What the loop of `read` leaves: its status, the bytes copied out, the new cursor and cluster. */
  datatype Chunk = Chunk(status: Status, data: seq<Byte>, cursor: nat, cluster: nat)

  function Min(a: nat, b: nat): nat
  {
    if a <= b then a else b
  }

  /** What one turn of the loop of `read` did: the bytes it copied, where it left the cursor and cluster, and whether the loop ends. */
  datatype Turned = Turned(status: Status, piece: seq<Byte>, cursor: nat, cluster: nat, stopped: bool)

  /**
   * One turn of the loop of `read` at `cursor` in `cluster`, with `len` bytes still wanted: fetch
   * the cluster, copy from the cursor's offset to the end of the cluster or of the request, and
   * on reaching the cluster's end step to the next cluster.  A failed fetch stops the loop with
   * its error and nothing copied; a chain that cannot be followed stops it with success.
   */
  function TurnOf(d: Driver, cursor: nat, cluster: nat, len: nat): (t: Turned)
    requires ValidDriver(d) && len > 0
    ensures t.cursor == cursor + |t.piece| && |t.piece| <= len
    ensures !t.stopped ==> t.status == Success && |t.piece| > 0
    ensures t.status != Success ==> t.stopped && t.piece == [] && t.cluster == cluster
  {
    match d.load(cluster)
    case Err(e) => Turned(e, [], cursor, cluster, true)
    case Ok(bytes) =>
      var cs := d.clusterSize;
      var off := ClusterOffset(cursor, cs);
      var n := Min(cs - off, len);
      if off + n < cs then Turned(Success, bytes[off .. off + n], cursor + n, cluster, false)
      else
        var w := Link(d, cluster);
        Turned(Success, bytes[off .. off + n], cursor + n, w.cluster, w.status != Success)
  }

  /**
   * The loop of `read` from `cursor` in `cluster`, with `copied` already copied out and `len`
   * bytes still wanted: turn after turn until the request is met or a turn stops the loop.
   */
  function ReadLoop(d: Driver, copied: seq<Byte>, cursor: nat, cluster: nat, len: nat): (r: Chunk)
    requires ValidDriver(d)
    ensures |copied| <= |r.data| <= |copied| + len
    ensures r.cursor == cursor + (|r.data| - |copied|)
    decreases len, 1
  {
    if len == 0 then Chunk(Success, copied, cursor, cluster)
    else TurnThenLoop(d, copied, cursor, cluster, len)
  }

  /** The loop once a request is still open: one turn, then the loop from where the turn left off. */
  function TurnThenLoop(d: Driver, copied: seq<Byte>, cursor: nat, cluster: nat, len: nat): (r: Chunk)
    requires ValidDriver(d) && len > 0
    ensures |copied| <= |r.data| <= |copied| + len
    ensures r.cursor == cursor + (|r.data| - |copied|)
    decreases len, 0
  {
      var t := TurnOf(d, cursor, cluster, len);
      if t.stopped then Chunk(t.status, copied + t.piece, t.cursor, t.cluster)
      else ReadLoop(d, copied + t.piece, t.cursor, t.cluster, len - |t.piece|)
  }

  /**
   * `pos / cs` and `pos % cs`, the cluster of the file a byte position falls in and its offset
   * there, counted out one cluster at a time (DivMod shows they are the quotient and remainder).
   */
  function ClusterIndex(pos: nat, cs: nat): nat
    requires cs > 0
    decreases pos
  {
    if pos < cs then 0 else ClusterIndex(pos - cs, cs) + 1
  }

  function ClusterOffset(pos: nat, cs: nat): (m: nat)
    requires cs > 0
    ensures m < cs
    decreases pos
  {
    if pos < cs then pos else ClusterOffset(pos - cs, cs)
  }

  lemma {:induction false} DivMod(pos: nat, cs: nat)
    requires cs > 0
    ensures ClusterIndex(pos, cs) == pos / cs && ClusterOffset(pos, cs) == pos % cs
    decreases pos
  {
    if pos < cs {
      DivModUnique(pos, cs, 0, pos);
    } else {
      DivMod(pos - cs, cs);
      var q, m := (pos - cs) / cs, (pos - cs) % cs;
      assert pos - cs == q * cs + m;
      assert pos == (q + 1) * cs + m;
      DivModUnique(pos, cs, q + 1, m);
    }
  }

  /** Moving inside the cluster of `cursor`, or to its end. */
  lemma {:induction false} Boundary(cursor: nat, cs: nat, n: nat)
    requires cs > 0 && n <= cs - ClusterOffset(cursor, cs)
    ensures n < cs - ClusterOffset(cursor, cs) ==>
      ClusterIndex(cursor + n, cs) == ClusterIndex(cursor, cs) && ClusterOffset(cursor + n, cs) == ClusterOffset(cursor, cs) + n
    ensures n == cs - ClusterOffset(cursor, cs) ==>
      ClusterIndex(cursor + n, cs) == ClusterIndex(cursor, cs) + 1 && ClusterOffset(cursor + n, cs) == 0
    decreases cursor
  {
    if cursor >= cs {
      Boundary(cursor - cs, cs, n);
      assert cursor + n - cs == (cursor - cs) + n;
    } else if n == cs - cursor {
      assert cursor + n - cs == 0;
    }
  }

  /** Quotient and remainder are the only pair that rebuilds `x`. */
  lemma DivModUnique(x: nat, cs: nat, q: nat, m: nat)
    requires cs > 0 && m < cs && x == q * cs + m
    ensures x / cs == q && x % cs == m
  {
    var q0, m0 := x / cs, x % cs;
    assert (q0 + 1) * cs == q0 * cs + cs && (q + 1) * cs == q * cs + cs;
    if q0 < q {
      FT.MulMono(q0 + 1, q, cs);
      assert false;
    }
    if q < q0 {
      FT.MulMono(q + 1, q0, cs);
      assert false;
    }
  }

  /**
   * A turn keeps the cluster in step with the cursor: if the cluster is the one reached from
   * the head for the cursor's cluster index, so is the cluster the turn leaves.
   */
  lemma TurnTracksChain(d: Driver, head: nat, cursor: nat, cluster: nat, len: nat)
    requires ValidDriver(d) && len > 0 && Follow(d, head, ClusterIndex(cursor, d.clusterSize)).cluster == cluster
    ensures var t := TurnOf(d, cursor, cluster, len);
      Follow(d, head, ClusterIndex(t.cursor, d.clusterSize)).cluster == t.cluster
  {
    if d.load(cluster).Ok? {
      var cs := d.clusterSize;
      Boundary(cursor, cs, Min(cs - ClusterOffset(cursor, cs), len));
      FollowClusterAdd(d, head, ClusterIndex(cursor, cs), 1);
      LinkIsFollow(d, cluster);
    }
  }

  /**
   * A turn started in step with an intact chain copies the file's own bytes, and leaves the
   * chain intact and in step, or stops where the chain cannot be followed.
   */
  lemma TurnInStep(d: Driver, head: nat, cursor: nat, cluster: nat, len: nat)
    requires ValidDriver(d) && len > 0 && Follow(d, head, ClusterIndex(cursor, d.clusterSize)) == Walk(Success, cluster)
    ensures var t := TurnOf(d, cursor, cluster, len);
      HoldsAt(d, head, cursor, t.piece) &&
      (!t.stopped ==> Follow(d, head, ClusterIndex(t.cursor, d.clusterSize)) == Walk(Success, t.cluster)) &&
      (t.stopped && t.status == Success ==> Follow(d, head, ClusterIndex(t.cursor, d.clusterSize)).status != Success)
  {
    if d.load(cluster).Ok? {
      var cs := d.clusterSize;
      var n := Min(cs - ClusterOffset(cursor, cs), len);
      PieceAt(d, head, cursor, cluster, n);
      Boundary(cursor, cs, n);
      FollowAdd(d, head, ClusterIndex(cursor, cs), 1);
      LinkIsFollow(d, cluster);
    }
  }

  /** What was copied before the loop starts stays in front of what the loop copies. */
  lemma {:induction false} ReadLoopPrefix(d: Driver, a: seq<Byte>, b: seq<Byte>, cursor: nat, cluster: nat, len: nat)
    requires ValidDriver(d)
    ensures var r := ReadLoop(d, b, cursor, cluster, len);
      ReadLoop(d, a + b, cursor, cluster, len) == Chunk(r.status, a + r.data, r.cursor, r.cluster)
    decreases len
  {
    if len > 0 {
      var t := TurnOf(d, cursor, cluster, len);
      assert (a + b) + t.piece == a + (b + t.piece);
      if !t.stopped {
        ReadLoopPrefix(d, a, b + t.piece, t.cursor, t.cluster, len - |t.piece|);
      }
    }
  }

  /**
   * One turn, then the rest of the loop: what the loop copies is the turn's piece followed by
   * what the loop copies from where the turn left off.
   */
  lemma LoopTurn(d: Driver, cursor: nat, cluster: nat, len: nat)
    requires ValidDriver(d) && len > 0
    ensures var t := TurnOf(d, cursor, cluster, len);
      var r := ReadLoop(d, [], cursor, cluster, len);
      if t.stopped then r == Chunk(t.status, t.piece, t.cursor, t.cluster)
      else var rest := ReadLoop(d, [], t.cursor, t.cluster, len - |t.piece|);
        r == Chunk(rest.status, t.piece + rest.data, rest.cursor, rest.cluster)
  {
    var t := TurnOf(d, cursor, cluster, len);
    assert [] + t.piece == t.piece;
    if !t.stopped {
      ReadLoopPrefix(d, t.piece, [], t.cursor, t.cluster, len - |t.piece|);
      assert t.piece + [] == t.piece;
    }
  }

  /** The loop keeps the cluster in step with the cursor. */
  lemma {:induction false} ReadTracksChain(d: Driver, head: nat, cursor: nat, cluster: nat, len: nat)
    requires ValidDriver(d) && Follow(d, head, ClusterIndex(cursor, d.clusterSize)).cluster == cluster
    ensures var r := ReadLoop(d, [], cursor, cluster, len);
      Follow(d, head, ClusterIndex(r.cursor, d.clusterSize)).cluster == r.cluster
    decreases len
  {
    if len > 0 {
      var t := TurnOf(d, cursor, cluster, len);
      TurnTracksChain(d, head, cursor, cluster, len);
      LoopTurn(d, cursor, cluster, len);
      if !t.stopped {
        ReadTracksChain(d, head, t.cursor, t.cluster, len - |t.piece|);
      }
    }
  }

  /** The file whose chain starts at `head` holds `bytes` from position `start` on. */
  ghost predicate HoldsAt(d: Driver, head: nat, start: nat, bytes: seq<Byte>)
    requires ValidDriver(d)
  {
    forall p :: start <= p < start + |bytes| ==> ByteAt(d, head, p) == Some(bytes[p - start])
  }

  /** Two runs the file holds back to back make one run. */
  lemma JoinRuns(d: Driver, head: nat, start: nat, piece: seq<Byte>, rest: seq<Byte>)
    requires ValidDriver(d) && HoldsAt(d, head, start, piece) && HoldsAt(d, head, start + |piece|, rest)
    ensures HoldsAt(d, head, start, piece + rest)
  {
    forall p | start <= p < start + |piece + rest|
      ensures ByteAt(d, head, p) == Some((piece + rest)[p - start])
    {
      if p >= start + |piece| {
        assert (piece + rest)[p - start] == rest[p - (start + |piece|)];
      } else {
        assert (piece + rest)[p - start] == piece[p - start];
      }
    }
  }

  /** Started in step with an intact chain, the loop copies out exactly the file's bytes. */
  lemma {:induction false} ReadContents(d: Driver, head: nat, cursor: nat, cluster: nat, len: nat)
    requires ValidDriver(d) && Follow(d, head, ClusterIndex(cursor, d.clusterSize)) == Walk(Success, cluster)
    ensures HoldsAt(d, head, cursor, ReadLoop(d, [], cursor, cluster, len).data)
    decreases len
  {
    if len > 0 {
      var t := TurnOf(d, cursor, cluster, len);
      TurnInStep(d, head, cursor, cluster, len);
      LoopTurn(d, cursor, cluster, len);
      if !t.stopped {
        var rest := ReadLoop(d, [], t.cursor, t.cluster, len - |t.piece|);
        ReadContents(d, head, t.cursor, t.cluster, len - |t.piece|);
        JoinRuns(d, head, cursor, t.piece, rest.data);
      }
    }
  }

  /** The bytes of the cursor's cluster from the cursor on are the file's bytes there. */
  lemma PieceAt(d: Driver, head: nat, cursor: nat, cluster: nat, n: nat)
    requires ValidDriver(d) && Follow(d, head, ClusterIndex(cursor, d.clusterSize)) == Walk(Success, cluster)
    requires d.load(cluster).Ok? && n <= d.clusterSize - ClusterOffset(cursor, d.clusterSize)
    ensures HoldsAt(d, head, cursor, d.load(cluster).value[ClusterOffset(cursor, d.clusterSize) .. ClusterOffset(cursor, d.clusterSize) + n])
  {
    var piece := d.load(cluster).value[ClusterOffset(cursor, d.clusterSize) .. ClusterOffset(cursor, d.clusterSize) + n];
    forall p | cursor <= p < cursor + n
      ensures ByteAt(d, head, p) == Some(piece[p - cursor])
    {
      Boundary(cursor, d.clusterSize, p - cursor);
    }
  }

  /** A successful read comes up short only where the chain cannot be followed further. */
  lemma {:induction false} ReadShort(d: Driver, head: nat, cursor: nat, cluster: nat, len: nat)
    requires ValidDriver(d) && Follow(d, head, ClusterIndex(cursor, d.clusterSize)) == Walk(Success, cluster)
    ensures var r := ReadLoop(d, [], cursor, cluster, len);
      r.status == Success && |r.data| < len ==> Follow(d, head, ClusterIndex(r.cursor, d.clusterSize)).status != Success
    decreases len
  {
    if len > 0 {
      var t := TurnOf(d, cursor, cluster, len);
      TurnInStep(d, head, cursor, cluster, len);
      LoopTurn(d, cursor, cluster, len);
      if !t.stopped {
        ReadShort(d, head, t.cursor, t.cluster, len - |t.piece|);
      }
    }
  }

  /** The length `read` clamps a request to, as the source computes it: `cursor + len` in 32 bits. */
  function ClampAsWritten(cursor: nat, len: nat, size: nat): nat
    requires cursor < size
  {
    if (cursor + len) % U32_LIMIT >= size then size - cursor else len
  }

  /** The clamp `read` evidently intends: never past the end of the file. */
  function Clamp(cursor: nat, len: nat, size: nat): (n: nat)
    requires cursor < size
    ensures n <= size - cursor && n <= len
    ensures n == len || n == size - cursor
  {
    if cursor + len >= size then size - cursor else len
  }

  /** The 32-bit sum wraps: from cursor 1 of a 10-byte file a request of 2^32 - 1 bytes is not clamped. */
  lemma ClampWraps()
    ensures ClampAsWritten(1, U32_LIMIT - 1, 10) == U32_LIMIT - 1 > 10 - 1
  {
  }

  /** Without a wrap of `cursor + len` the source's clamp is the intended one. */
  lemma ClampAgrees(cursor: nat, len: nat, size: nat)
    requires cursor < size && cursor + len < U32_LIMIT
    ensures ClampAsWritten(cursor, len, size) == Clamp(cursor, len, size)
  {
  }

  /** An open FAT file: its chain's head and size, the byte cursor and the cluster holding it. */
  class FatFile {
    const d: Driver
    const head: nat
    const size: nat
    var cursor: nat
    var currentCluster: nat

    /** The cursor lies within the file and the current cluster is the one the chain reaches for it. */
    ghost predicate Valid()
      reads this
    {
      ValidDriver(d) && size < U32_LIMIT && cursor <= size &&
      Follow(d, head, ClusterIndex(cursor, d.clusterSize)).cluster == currentCluster
    }

    /** `open`: the head cluster is `(high << 16) | low` from the directory entry, the cursor 0. */
    constructor Open(vol: Volume, high: nat, low: nat, fileSize: nat)
      requires ValidVolume(vol) && high < 0x1_0000 && low < 0x1_0000 && fileSize < U32_LIMIT
      ensures Valid()
      ensures d == Mounted(vol) && head == high * 0x1_0000 + low && size == fileSize
      ensures cursor == 0 && currentCluster == head
    {
      d, head, size := Mounted(vol), high * 0x1_0000 + low, fileSize;
      cursor, currentCluster := 0, high * 0x1_0000 + low;
    }

    /** `tell`: the cursor. */
    method Tell() returns (pos: nat)
      requires Valid()
      ensures pos == cursor && pos <= size
    {
      pos := cursor;
    }

    /**
     * `read` of up to `len` bytes: END_OF_FILE at or past the end; otherwise the loop from the
     * cursor over the request clamped to the end of the file.  `data` is what was copied out,
     * also when a cluster fetch fails part way.
     */
    method Read(len: nat) returns (status: Status, data: seq<Byte>)
      requires Valid() && len < U32_LIMIT
      modifies this
      ensures Valid()
      ensures old(cursor) >= size ==>
        status == EndOfFile && data == [] && cursor == old(cursor) && currentCluster == old(currentCluster)
      ensures old(cursor) < size ==>
        Chunk(status, data, cursor, currentCluster) == ReadLoop(d, [], old(cursor), old(currentCluster), Clamp(old(cursor), len, size))
    {
      if cursor >= size {
        return EndOfFile, [];
      }
      var want: nat := len;
      if cursor + len >= size {
        want := size - cursor;
      }
      ReadTracksChain(d, head, cursor, currentCluster, want);
      status, data := CopyOut(want);
    }

    /**
     * `read` with the clamp as the source computes it, `cursor + len` in 32 bits: a request whose
     * sum wraps is not clamped, and the loop copies on past the end of the file for as long as the
     * chain goes.
     */
    method ReadAsWritten(len: nat) returns (status: Status, data: seq<Byte>)
      requires Valid() && len < U32_LIMIT
      modifies this
      ensures old(cursor) >= size ==>
        status == EndOfFile && data == [] && cursor == old(cursor) && currentCluster == old(currentCluster)
      ensures old(cursor) < size ==>
        Chunk(status, data, cursor, currentCluster) == ReadLoop(d, [], old(cursor), old(currentCluster), ClampAsWritten(old(cursor), len, size))
    {
      if cursor >= size {
        return EndOfFile, [];
      }
      var want: nat := len;
      if (cursor + len) % U32_LIMIT >= size {
        want := size - cursor;
      }
      status, data := CopyOut(want);
    }

    /** The loop of `read`: copy `want` bytes cluster by cluster from the cursor. */
    method CopyOut(want: nat) returns (status: Status, data: seq<Byte>)
      requires ValidDriver(d)
      modifies this
      ensures Chunk(status, data, cursor, currentCluster) == ReadLoop(d, [], old(cursor), old(currentCluster), want)
    {
      var pos, cluster, left: nat := cursor, currentCluster, want;
      ghost var whole := ReadLoop(d, [], pos, cluster, left);
      status, data := Success, [];
      var stopped := false;
      while left > 0 && !stopped
        invariant !stopped ==> whole == ReadLoop(d, data, pos, cluster, left) && status == Success
        invariant stopped ==> whole == Chunk(status, data, pos, cluster)
        decreases left, !stopped
      {
        var piece;
        status, piece, pos, cluster, stopped := Turn(pos, cluster, left);
        data := data + piece;
        left := left - |piece|;
      }
      cursor, currentCluster := pos, cluster;
    }

    /** The body of the loop of `read`: one turn. */
    method Turn(pos: nat, cluster: nat, left: nat)
      returns (status: Status, piece: seq<Byte>, nextPos: nat, nextCluster: nat, stopped: bool)
      requires ValidDriver(d) && left > 0
      ensures Turned(status, piece, nextPos, nextCluster, stopped) == TurnOf(d, pos, cluster, left)
    {
      var cs := d.clusterSize;
      var offset := pos % cs;
      DivMod(pos, cs);
      var n := Min(cs - offset, left);
      var bytes := d.load(cluster);
      if bytes.Err? {
        return bytes.status, [], pos, cluster, true;
      }
      piece := bytes.value[offset .. offset + n];
      status, nextPos, nextCluster, stopped := Success, pos + n, cluster, false;
      if offset + n == cs {
        var st;
        st, nextCluster := GetNextCluster(d, cluster, 1);
        LinkIsFollow(d, cluster);
        stopped := st != Success;
      }
    }

    /**
     * `seek`: the target is the offset from the start, the cursor or the end (origins 0, 1, 2);
     * a negative target or another origin is refused; a target past the end is clamped to it.
     * The current cluster is found by walking the chain from the head; if the walk fails nothing
     * changes.
     */
    method Seek(offset: int, origin: int) returns (status: Status)
      requires Valid()
      modifies this
      ensures Valid()
      ensures SeekTarget(offset, origin, old(cursor), size).None? ==>
        status == InvalidValue && cursor == old(cursor) && currentCluster == old(currentCluster)
      ensures SeekTarget(offset, origin, old(cursor), size).Some? ==>
        var target := SeekTarget(offset, origin, old(cursor), size).value;
        var w := Follow(d, head, target / d.clusterSize);
        status == w.status &&
        if w.status == Success then cursor == target && currentCluster == w.cluster
        else cursor == old(cursor) && currentCluster == old(currentCluster)
    {
      var target := SeekTarget(offset, origin, cursor, size);
      if target.None? {
        return InvalidValue;
      }
      var newCursor := target.value;
      var cluster;
      status, cluster := GetNextCluster(d, head, newCursor / d.clusterSize);
      DivMod(newCursor, d.clusterSize);
      if status != Success {
        return;
      }
      currentCluster := cluster;
      cursor := newCursor;
    }
  }

  /** Where `seek` puts the cursor, or None when it refuses. */
  function SeekTarget(offset: int, origin: int, cursor: nat, size: nat): (r: Option<nat>)
    ensures r.Some? ==> r.value <= size
    ensures r.Some? && origin == 0 && offset <= size ==> r.value == offset
    ensures r.None? <==> (origin !in {0, 1, 2} || (origin == 0 && offset < 0) ||
      (origin == 1 && cursor + offset < 0) || (origin == 2 && size + offset < 0))
  {
    var target := if origin == 0 then offset else if origin == 1 then cursor + offset else size + offset;
    if origin !in {0, 1, 2} || target < 0 then None
    else if target > size then Some(size)
    else Some(target)
  }
}
