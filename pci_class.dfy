/**
 * PCI class, subclass and programming-interface names (boot/pci/class.c).
 *
 * The names live in a three-level table: every container is a list of entries sorted by key,
 * and an entry may point to the container of the next level. `binary_search` looks a key up in
 * one container; the three name lookups chain it from the class level down.
 *
 * A C `NULL` child pointer is `Null`. The lookups dereference the child of the entry they found
 * without checking it, so looking below an entry whose child is `Null` is undefined behaviour:
 * SubclassName and InterfaceName require that it does not happen, and SubclassNameChecked and
 * InterfaceNameChecked are the versions that treat a missing child as "no name".
 */
module PciClass {
  import opened Common

  datatype Entry = Entry(key: Byte, name: string, child: Child)

  /** The `child` pointer of an entry: `NULL` or the container of the next level. */
  datatype Child = Null | Container(entries: seq<Entry>)

  /** Keys never decrease: what binary_search relies on. */
  predicate Sorted(t: seq<Entry>)
  {
    forall i, j :: 0 <= i <= j < |t| ==> t[i].key <= t[j].key
  }

  /** Keys strictly increase: every key names at most one entry. */
  predicate Strict(t: seq<Entry>)
  {
    forall i, j :: 0 <= i < j < |t| ==> t[i].key < t[j].key
  }

  predicate Adjacent(t: seq<Entry>)
  {
    forall i :: 0 <= i < |t| - 1 ==> t[i].key < t[i + 1].key
  }

  predicate HasKey(t: seq<Entry>, key: Byte)
  {
    exists i :: 0 <= i < |t| && t[i].key == key
  }

  predicate KeyWithin(t: seq<Entry>, key: Byte, lo: nat, hi: nat)
    requires lo <= hi < |t|
  {
    exists i :: lo <= i <= hi && t[i].key == key
  }

  /** Reference lookup: the first entry with the key, by a linear scan. */
  function FirstWithKey(t: seq<Entry>, key: Byte): (r: Option<nat>)
    ensures r.Some? ==> r.value < |t| && t[r.value].key == key
    ensures r.Some? ==> forall j :: 0 <= j < r.value ==> t[j].key != key
    ensures r.None? <==> !HasKey(t, key)
  {
    if |t| == 0 then None
    else if t[0].key == key then Some(0)
    else
      match FirstWithKey(t[1..], key)
      case None =>
        assert forall i :: 1 <= i < |t| ==> t[i] == t[1..][i - 1];
        None
      case Some(i) => Some(i + 1)
  }

  function Find(t: seq<Entry>, key: Byte): (r: Option<Entry>)
  {
    match FirstWithKey(t, key)
    case None => None
    case Some(i) => Some(t[i])
  }

  /** In a container with distinct keys, the entry with a key is the one the reference finds. */
  lemma StrictFind(t: seq<Entry>, key: Byte, i: nat)
    requires Strict(t) && i < |t| && t[i].key == key
    ensures FirstWithKey(t, key) == Some(i) && Find(t, key) == Some(t[i])
  {
    assert HasKey(t, key);
  }

  /** Strictly increasing neighbours make the whole container strictly increasing. */
  lemma {:induction false} AdjacentStrict(t: seq<Entry>)
    requires Adjacent(t)
    ensures Strict(t)
  {
    if |t| > 1 {
      AdjacentStrict(t[1..]);
      forall i, j | 0 <= i < j < |t|
        ensures t[i].key < t[j].key
      {
        if i > 0 {
          assert t[i] == t[1..][i - 1] && t[j] == t[1..][j - 1];
        } else if j > 1 {
          assert t[1] == t[1..][0] && t[j] == t[1..][j - 1];
        }
      }
    }
  }

  /**
   * The loop of `binary_search` between `start` and `end`: the index it returns, or None. It
   * halves the range until a probe hits the key, and on a two-entry range tries both ends.
   */
  function Bisect(t: seq<Entry>, key: Byte, start: nat, end: nat): (r: Option<nat>)
    requires start <= end < |t|
    ensures r.Some? ==> start <= r.value <= end && t[r.value].key == key
    ensures Sorted(t) && KeyWithin(t, key, start, end) ==> r.Some?
    decreases end - start
  {
    var half := (start + end) / 2;
    if start == end && t[half].key != key then None
    else if start == half then
      if t[start].key == key then Some(start)
      else if t[end].key == key then Some(end)
      else None
    else if t[half].key > key then Bisect(t, key, start, half)
    else if t[half].key < key then Bisect(t, key, half, end)
    else Some(half)
  }

  /** `binary_search` on a whole container: nothing in an empty one, otherwise the loop over all of it. */
  function BinaryFind(t: seq<Entry>, key: Byte): (r: Option<nat>)
    ensures r.Some? ==> r.value < |t| && t[r.value].key == key
    ensures Sorted(t) ==> (r.None? <==> !HasKey(t, key))
  {
    if |t| < 1 then None else Bisect(t, key, 0, |t| - 1)
  }

  /** `binary_search`: an entry with the key, or `NULL`. */
  method BinarySearch(t: seq<Entry>, key: Byte) returns (r: Option<nat>)
    ensures r == BinaryFind(t, key)
  {
    if |t| < 1 {
      return None;
    }
    var start, end := 0, |t| - 1;
    r := None;
    while r.None?
      invariant 0 <= start <= end < |t|
      invariant r.None? ==> Bisect(t, key, start, end) == BinaryFind(t, key)
      invariant r.Some? ==> r == BinaryFind(t, key)
      decreases end - start, if r.None? then 1 else 0
    {
      var half := (start + end) / 2;
      if start == end && t[half].key != key {
        return None;
      } else if start == half {
        if t[start].key == key {
          return Some(start);
        } else if t[end].key == key {
          return Some(end);
        } else {
          return None;
        }
      } else if t[half].key > key {
        end := half;
      } else if t[half].key < key {
        start := half;
      } else {
        r := Some(half);
      }
    }
  }

  /** A subclassCode container: distinct keys, and so has every interfaceCode container below it. */
  predicate SubclassTable(t: seq<Entry>)
  {
    Strict(t) && forall i :: 0 <= i < |t| && t[i].child.Container? ==> Strict(t[i].child.entries)
  }

  /** The classCode container: distinct keys, and every subclassCode container below it well formed. */
  predicate ClassTable(t: seq<Entry>)
  {
    Strict(t) && forall i :: 0 <= i < |t| && t[i].child.Container? ==> SubclassTable(t[i].child.entries)
  }

  /** The entries below an entry, reading a `NULL` child as an empty container. */
  function Below(e: Entry): (r: seq<Entry>)
    ensures e.child.Null? ==> r == []
  {
    if e.child.Container? then e.child.entries else []
  }

  /** The name of a class code, looked up in the class container by the reference scan. */
  function ClassSpec(classes: seq<Entry>, classCode: Byte): (r: Option<string>)
    ensures r.Some? <==> HasKey(classes, classCode)
  {
    match Find(classes, classCode)
    case None => None
    case Some(c) => Some(c.name)
  }

  function SubclassSpec(classes: seq<Entry>, classCode: Byte, subclassCode: Byte): (r: Option<string>)
    ensures r.Some? ==> ClassSpec(classes, classCode).Some?
  {
    match Find(classes, classCode)
    case None => None
    case Some(c) =>
      match Find(Below(c), subclassCode)
      case None => None
      case Some(s) => Some(s.name)
  }

  function InterfaceSpec(classes: seq<Entry>, classCode: Byte, subclassCode: Byte, interfaceCode: Byte): (r: Option<string>)
    ensures r.Some? ==> SubclassSpec(classes, classCode, subclassCode).Some?
  {
    match Find(classes, classCode)
    case None => None
    case Some(c) =>
      match Find(Below(c), subclassCode)
      case None => None
      case Some(s) =>
        match Find(Below(s), interfaceCode)
        case None => None
        case Some(f) => Some(f.name)
  }

  /** The entry `binary_search` returns from a container. */
  function Lookup(t: seq<Entry>, key: Byte): (r: Option<Entry>)
    ensures r.Some? ==> r.value in t && r.value.key == key
    ensures Sorted(t) ==> (r.None? <==> !HasKey(t, key))
  {
    match BinaryFind(t, key)
    case None => None
    case Some(i) => Some(t[i])
  }

  /** In a container with distinct keys, `binary_search` finds what the reference scan finds. */
  lemma StrictLookup(t: seq<Entry>, key: Byte)
    requires Strict(t)
    ensures Lookup(t, key) == Find(t, key)
  {
    var i := BinaryFind(t, key);
    if i.Some? {
      StrictFind(t, key, i.value);
    }
  }

  /** The name the class lookup returns. */
  function ClassLookup(classes: seq<Entry>, classCode: Byte): (r: Option<string>)
    ensures Sorted(classes) ==> (r.Some? <==> HasKey(classes, classCode))
  {
    match Lookup(classes, classCode)
    case None => None
    case Some(c) => Some(c.name)
  }

  /** The name the subclass lookup returns, a `NULL` child read as an empty container. */
  function SubclassLookup(classes: seq<Entry>, classCode: Byte, subclassCode: Byte): (r: Option<string>)
    ensures r.Some? ==> ClassLookup(classes, classCode).Some?
  {
    match Lookup(classes, classCode)
    case None => None
    case Some(c) =>
      match Lookup(Below(c), subclassCode)
      case None => None
      case Some(s) => Some(s.name)
  }

  /** The name the interface lookup returns, a `NULL` child read as an empty container. */
  function InterfaceLookup(classes: seq<Entry>, classCode: Byte, subclassCode: Byte, interfaceCode: Byte): (r: Option<string>)
    ensures r.Some? ==> SubclassLookup(classes, classCode, subclassCode).Some?
  {
    match Lookup(classes, classCode)
    case None => None
    case Some(c) =>
      match Lookup(Below(c), subclassCode)
      case None => None
      case Some(s) =>
        match Lookup(Below(s), interfaceCode)
        case None => None
        case Some(f) => Some(f.name)
  }

  /**
   * On a well-formed table the three lookups name what the reference scans name: binary search
   * is then only a faster way to find the entry with the key.
   */
  lemma LookupsAgree(classes: seq<Entry>, classCode: Byte, subclassCode: Byte, interfaceCode: Byte)
    requires ClassTable(classes)
    ensures ClassLookup(classes, classCode) == ClassSpec(classes, classCode)
    ensures SubclassLookup(classes, classCode, subclassCode) == SubclassSpec(classes, classCode, subclassCode)
    ensures InterfaceLookup(classes, classCode, subclassCode, interfaceCode)
         == InterfaceSpec(classes, classCode, subclassCode, interfaceCode)
  {
    StrictLookup(classes, classCode);
    var c := Find(classes, classCode);
    if c.Some? {
      var sub := Below(c.value);
      assert Strict(sub);
      StrictLookup(sub, subclassCode);
      var s := Find(sub, subclassCode);
      if s.Some? {
        assert s.value in sub;
        assert Strict(Below(s.value));
        StrictLookup(Below(s.value), interfaceCode);
      }
    }
  }

  /** The class entry, when there is one, has a child container to search. */
  predicate SubclassDefined(classes: seq<Entry>, classCode: Byte)
  {
    match Lookup(classes, classCode)
    case None => true
    case Some(c) => c.child.Container?
  }

  /** The class and subclass entries, where they exist, have child containers to search. */
  predicate InterfaceDefined(classes: seq<Entry>, classCode: Byte, subclassCode: Byte)
  {
    match Lookup(classes, classCode)
    case None => true
    case Some(c) =>
      c.child.Container? &&
      match Lookup(c.child.entries, subclassCode)
      case None => true
      case Some(s) => s.child.Container?
  }

  /** `binary_search` returning the entry itself. */
  method Search(t: seq<Entry>, key: Byte) returns (r: Option<Entry>)
    ensures r == Lookup(t, key)
  {
    var i := BinarySearch(t, key);
    if i.None? {
      return None;
    }
    return Some(t[i.value]);
  }

  /** `_bus_pci_device_get_class_name`. */
  method ClassName(classes: seq<Entry>, classCode: Byte) returns (r: Option<string>)
    ensures r == ClassLookup(classes, classCode)
  {
    var c := Search(classes, classCode);
    if c.None? {
      return None;
    }
    return Some(c.value.name);
  }

  /** `_bus_pci_device_get_subclass_name`, which searches the class entry's child unchecked. */
  method SubclassName(classes: seq<Entry>, classCode: Byte, subclassCode: Byte) returns (r: Option<string>)
    requires SubclassDefined(classes, classCode)
    ensures r == SubclassLookup(classes, classCode, subclassCode)
  {
    var c := Search(classes, classCode);
    if c.None? {
      return None;
    }
    var s := Search(c.value.child.entries, subclassCode);
    if s.None? {
      return None;
    }
    return Some(s.value.name);
  }

  /** `_bus_pci_device_get_interface_name`, which searches both children unchecked. */
  method InterfaceName(classes: seq<Entry>, classCode: Byte, subclassCode: Byte, interfaceCode: Byte)
    returns (r: Option<string>)
    requires InterfaceDefined(classes, classCode, subclassCode)
    ensures r == InterfaceLookup(classes, classCode, subclassCode, interfaceCode)
  {
    var c := Search(classes, classCode);
    if c.None? {
      return None;
    }
    var s := Search(c.value.child.entries, subclassCode);
    if s.None? {
      return None;
    }
    var f := Search(s.value.child.entries, interfaceCode);
    if f.None? {
      return None;
    }
    return Some(f.value.name);
  }

  /** The subclass lookup with a `NULL` child read as "no name". */
  method SubclassNameChecked(classes: seq<Entry>, classCode: Byte, subclassCode: Byte) returns (r: Option<string>)
    ensures r == SubclassLookup(classes, classCode, subclassCode)
  {
    var c := Search(classes, classCode);
    if c.None? || c.value.child.Null? {
      return None;
    }
    var s := Search(c.value.child.entries, subclassCode);
    if s.None? {
      return None;
    }
    return Some(s.value.name);
  }

  /** The interface lookup with a `NULL` child at either level read as "no name". */
  method InterfaceNameChecked(classes: seq<Entry>, classCode: Byte, subclassCode: Byte, interfaceCode: Byte)
    returns (r: Option<string>)
    ensures r == InterfaceLookup(classes, classCode, subclassCode, interfaceCode)
  {
    var c := Search(classes, classCode);
    if c.None? || c.value.child.Null? {
      return None;
    }
    var s := Search(c.value.child.entries, subclassCode);
    if s.None? || s.value.child.Null? {
      return None;
    }
    var f := Search(s.value.child.entries, interfaceCode);
    if f.None? {
      return None;
    }
    return Some(f.value.name);
  }

  const InterfaceVendorSpecific: seq<Entry> := [
    Entry(0x00, "Vendor-specific interface", Null)
  ]

  const Subclass00: seq<Entry> := [
    Entry(0x00, "Non-VGA unclassified device", Container(InterfaceVendorSpecific)),
    Entry(0x01, "VGA compatible unclassified device", Container(InterfaceVendorSpecific))
  ]

  const Interface0100: seq<Entry> := [
    Entry(0x00, "Vendor-specific interface", Null),
    Entry(0x11, "SCSI storage device - SOP target port using PQI", Null),
    Entry(0x12, "SCSI controller - SOP target port using PQI", Null),
    Entry(0x13, "SCSI storage device and controller - SOP target port using PQI", Null),
    Entry(0x21, "SCSI storage device - SOP target port using NVMe queueing interface", Null)
  ]

  const Interface0105: seq<Entry> := [
    Entry(0x20, "Single stepping ADMA interface", Null),
    Entry(0x30, "Continuous operation ADMA interface", Null)
  ]

  const Interface0106: seq<Entry> := [
    Entry(0x00, "Vendor-specific interface", Null),
    Entry(0x01, "AHCI interface", Null),
    Entry(0x02, "Serial Storage Bus interface", Null)
  ]

  const Interface0107: seq<Entry> := [
    Entry(0x00, "Vendor-specific interface", Null),
    Entry(0x01, "Obsolete", Null)
  ]

  const Interface0108: seq<Entry> := [
    Entry(0x00, "Vendor-specific interface", Null),
    Entry(0x01, "NVMHCI interface", Null),
    Entry(0x02, "NVMe I/O controller", Null),
    Entry(0x03, "NVMe administrative controller", Null)
  ]

  const Interface0109: seq<Entry> := [
    Entry(0x00, "Vendor-specific interface", Null),
    Entry(0x01, "UFSHCI interface", Null)
  ]

  const Subclass01: seq<Entry> := [
    Entry(0x00, "SCSI storage controller", Container(Interface0100)),
    Entry(0x01, "IDE interface", Null),
    Entry(0x02, "Floppy disk controller", Container(InterfaceVendorSpecific)),
    Entry(0x03, "IPI bus controller", Container(InterfaceVendorSpecific)),
    Entry(0x04, "RAID bus controller", Container(InterfaceVendorSpecific)),
    Entry(0x05, "ATA controller", Container(Interface0105)),
    Entry(0x06, "SATA controller", Container(Interface0106)),
    Entry(0x07, "Serial Attached SCSI controller", Container(Interface0107)),
    Entry(0x08, "Non-Volatile memory controller", Container(Interface0108)),
    Entry(0x09, "Universal Flash Storage controller", Container(Interface0109)),
    Entry(0x80, "Mass storage controller", Container(InterfaceVendorSpecific))
  ]

  const Subclass02: seq<Entry> := [
    Entry(0x00, "Ethernet controller", Container(InterfaceVendorSpecific)),
    Entry(0x01, "Token Ring controller", Container(InterfaceVendorSpecific)),
    Entry(0x02, "FDDI controller", Container(InterfaceVendorSpecific)),
    Entry(0x03, "ATM controller", Container(InterfaceVendorSpecific)),
    Entry(0x04, "ISDN controller", Container(InterfaceVendorSpecific)),
    Entry(0x05, "WorldFip controller", Container(InterfaceVendorSpecific)),
    Entry(0x06, "PICMG 2.14 multi computing", Null),
    Entry(0x07, "InfiniBand controller", Container(InterfaceVendorSpecific)),
    Entry(0x08, "Host fabric controller", Container(InterfaceVendorSpecific)),
    Entry(0x80, "Other network controller", Container(InterfaceVendorSpecific))
  ]

  const Interface0300: seq<Entry> := [
    Entry(0x00, "VGA-compatible interface", Null),
    Entry(0x01, "8514-compatible interface", Null)
  ]

  const Subclass03: seq<Entry> := [
    Entry(0x00, "Display controller", Container(Interface0300)),
    Entry(0x01, "XGA controller", Container(InterfaceVendorSpecific)),
    Entry(0x02, "3D controller", Container(InterfaceVendorSpecific)),
    Entry(0x80, "Other display controller", Container(InterfaceVendorSpecific))
  ]

  const Interface0403: seq<Entry> := []

  const Subclass04: seq<Entry> := [
    Entry(0x00, "Video device", Container(InterfaceVendorSpecific)),
    Entry(0x01, "Audio device", Container(InterfaceVendorSpecific)),
    Entry(0x02, "Computer telephony device", Container(InterfaceVendorSpecific)),
    Entry(0x03, "Intel HD Audio device", Container(Interface0403)),
    Entry(0x80, "Other multimedia device", Container(InterfaceVendorSpecific))
  ]

  const Subclass05: seq<Entry> := [
    Entry(0x00, "RAM", Container(InterfaceVendorSpecific)),
    Entry(0x01, "Flash", Container(InterfaceVendorSpecific)),
    Entry(0x80, "Other memory controller", Container(InterfaceVendorSpecific))
  ]

  const Interface0604: seq<Entry> := []

  const Interface0609: seq<Entry> := []

  const Interface060B: seq<Entry> := []

  const Subclass06: seq<Entry> := [
    Entry(0x00, "Host bridge", Container(InterfaceVendorSpecific)),
    Entry(0x01, "ISA bridge", Container(InterfaceVendorSpecific)),
    Entry(0x02, "EISA bridge", Container(InterfaceVendorSpecific)),
    Entry(0x03, "MCA bridge", Container(InterfaceVendorSpecific)),
    Entry(0x04, "PCI-to-PCI bridge", Container(Interface0604)),
    Entry(0x05, "PCMCIA bridge", Container(InterfaceVendorSpecific)),
    Entry(0x06, "NuBus bridge", Container(InterfaceVendorSpecific)),
    Entry(0x07, "CardBus bridge", Container(InterfaceVendorSpecific)),
    Entry(0x08, "RACEway bridge", Container(InterfaceVendorSpecific)),
    Entry(0x09, "Semi-transparent PCI-to-PCI bridge", Container(Interface0609)),
    Entry(0x0A, "InfiniBand-to-PCI host bridge", Container(InterfaceVendorSpecific)),
    Entry(0x0B, "Advanced Switching to PCI host bridge", Container(Interface060B)),
    Entry(0x80, "Other bridge device", Container(InterfaceVendorSpecific))
  ]

  const Interface0700: seq<Entry> := []

  const Interface0701: seq<Entry> := []

  const Interface0703: seq<Entry> := []

  const Subclass07: seq<Entry> := [
    Entry(0x00, "Serial port controller", Container(Interface0700)),
    Entry(0x01, "Parallel port controller", Container(Interface0701)),
    Entry(0x02, "Multiport serial port controller", Container(InterfaceVendorSpecific)),
    Entry(0x03, "Modem controller", Container(Interface0703)),
    Entry(0x04, "GPIB controller", Container(InterfaceVendorSpecific)),
    Entry(0x05, "Smart Card", Container(InterfaceVendorSpecific)),
    Entry(0x80, "Other communications device", Container(InterfaceVendorSpecific))
  ]

  const Interface0800: seq<Entry> := []

  const Interface0801: seq<Entry> := []

  const Interface0802: seq<Entry> := []

  const Interface0803: seq<Entry> := []

  const Subclass08: seq<Entry> := [
    Entry(0x00, "Interrupt controller", Container(Interface0800)),
    Entry(0x01, "DMA controller", Container(Interface0801)),
    Entry(0x02, "System timer", Container(Interface0802)),
    Entry(0x03, "RTC controller", Container(Interface0803)),
    Entry(0x04, "Generic PCI hot-plug controller", Container(InterfaceVendorSpecific)),
    Entry(0x05, "SD host controller", Container(InterfaceVendorSpecific)),
    Entry(0x06, "IOMMU", Container(InterfaceVendorSpecific)),
    Entry(0x07, "Root Complex Event Collector", Container(InterfaceVendorSpecific)),
    Entry(0x80, "Other system peripheral", Container(InterfaceVendorSpecific))
  ]

  const Interface0904: seq<Entry> := []

  const Subclass09: seq<Entry> := [
    Entry(0x00, "Keyboard controller", Container(InterfaceVendorSpecific)),
    Entry(0x01, "Digitizer", Container(InterfaceVendorSpecific)),
    Entry(0x02, "Mouse controller", Container(InterfaceVendorSpecific)),
    Entry(0x03, "Scanner controller", Container(InterfaceVendorSpecific)),
    Entry(0x04, "Gameport controller", Container(Interface0904)),
    Entry(0x80, "Other input controller", Container(InterfaceVendorSpecific))
  ]

  const Subclass0A: seq<Entry> := [
    Entry(0x00, "Generic docking station", Container(InterfaceVendorSpecific)),
    Entry(0x80, "Other docking station", Container(InterfaceVendorSpecific))
  ]

  const Subclass0B: seq<Entry> := [
    Entry(0x00, "386", Container(InterfaceVendorSpecific)),
    Entry(0x01, "486", Container(InterfaceVendorSpecific)),
    Entry(0x02, "Pentium", Container(InterfaceVendorSpecific)),
    Entry(0x10, "Alpha", Container(InterfaceVendorSpecific)),
    Entry(0x20, "PowerPC", Container(InterfaceVendorSpecific)),
    Entry(0x30, "MIPS", Container(InterfaceVendorSpecific)),
    Entry(0x40, "Co-processor", Container(InterfaceVendorSpecific)),
    Entry(0x80, "Other processors", Container(InterfaceVendorSpecific))
  ]

  const Interface0C00: seq<Entry> := []

  const Interface0C03: seq<Entry> := []

  const Interface0C07: seq<Entry> := []

  const Subclass0C: seq<Entry> := [
    Entry(0x00, "IEEE1394", Container(Interface0C00)),
    Entry(0x01, "ACCESS.bus", Container(InterfaceVendorSpecific)),
    Entry(0x02, "SSA", Container(InterfaceVendorSpecific)),
    Entry(0x03, "USB", Container(Interface0C03)),
    Entry(0x04, "Fibre Channel", Container(InterfaceVendorSpecific)),
    Entry(0x05, "SMBus", Container(InterfaceVendorSpecific)),
    Entry(0x06, "InfiniBand (deprecated)", Container(InterfaceVendorSpecific)),
    Entry(0x07, "IPMI", Container(Interface0C07)),
    Entry(0x08, "SERCOS", Container(InterfaceVendorSpecific)),
    Entry(0x09, "CANbus", Container(InterfaceVendorSpecific)),
    Entry(0x0A, "MIPI I3C host controller", Container(InterfaceVendorSpecific)),
    Entry(0x80, "Other serial bus controllers", Container(InterfaceVendorSpecific))
  ]

  const Interface0D01: seq<Entry> := []

  /** The wireless subclasses as the source lists them: every key is 0x00. */
  const Subclass0DAsWritten: seq<Entry> := [
    Entry(0x00, "iRDA compatible controller", Container(InterfaceVendorSpecific)),
    Entry(0x00, "CIR or UWB Radio controller", Container(Interface0D01)),
    Entry(0x00, "RF controller", Container(InterfaceVendorSpecific)),
    Entry(0x00, "Bluetooth", Container(InterfaceVendorSpecific)),
    Entry(0x00, "Broadband", Container(InterfaceVendorSpecific)),
    Entry(0x00, "Ethernet (5 GHz)", Container(InterfaceVendorSpecific)),
    Entry(0x00, "Ethernet (2.4 GHz)", Container(InterfaceVendorSpecific)),
    Entry(0x00, "Cellular controller/modem", Container(InterfaceVendorSpecific)),
    Entry(0x00, "Cellular controller/modem plus Ethernet", Container(InterfaceVendorSpecific)),
    Entry(0x00, "Other wireless controllers", Container(InterfaceVendorSpecific))
  ]

  /** The wireless subclasses with the subclass codes their names stand for. */
  const Subclass0D: seq<Entry> := [
    Entry(0x00, "iRDA compatible controller", Container(InterfaceVendorSpecific)),
    Entry(0x01, "CIR or UWB Radio controller", Container(Interface0D01)),
    Entry(0x10, "RF controller", Container(InterfaceVendorSpecific)),
    Entry(0x11, "Bluetooth", Container(InterfaceVendorSpecific)),
    Entry(0x12, "Broadband", Container(InterfaceVendorSpecific)),
    Entry(0x20, "Ethernet (5 GHz)", Container(InterfaceVendorSpecific)),
    Entry(0x21, "Ethernet (2.4 GHz)", Container(InterfaceVendorSpecific)),
    Entry(0x40, "Cellular controller/modem", Container(InterfaceVendorSpecific)),
    Entry(0x41, "Cellular controller/modem plus Ethernet", Container(InterfaceVendorSpecific)),
    Entry(0x80, "Other wireless controllers", Container(InterfaceVendorSpecific))
  ]

  const Interface0E00: seq<Entry> := []

  const Subclass0E: seq<Entry> := [
    Entry(0x00, "Intelligent I/O controller", Container(Interface0E00))
  ]

  const Subclass0F: seq<Entry> := [
    Entry(0x01, "TV", Container(InterfaceVendorSpecific)),
    Entry(0x02, "Audio", Container(InterfaceVendorSpecific)),
    Entry(0x03, "Voice", Container(InterfaceVendorSpecific)),
    Entry(0x04, "Data", Container(InterfaceVendorSpecific)),
    Entry(0x80, "Other satellite communications controller", Container(InterfaceVendorSpecific))
  ]

  const Subclass10: seq<Entry> := [
    Entry(0x00, "Network and computing encryption and decryption controller", Container(InterfaceVendorSpecific)),
    Entry(0x10, "Entertainment encryption and decryption controller", Container(InterfaceVendorSpecific)),
    Entry(0x80, "Other encryption and decryption controller", Container(InterfaceVendorSpecific))
  ]

  const Subclass11: seq<Entry> := [
    Entry(0x00, "DPIO Modules", Container(InterfaceVendorSpecific)),
    Entry(0x01, "Performance counters", Container(InterfaceVendorSpecific)),
    Entry(0x10, "Communications synchronization plus time and frequency test/measurement", Container(InterfaceVendorSpecific)),
    Entry(0x20, "Management card", Container(InterfaceVendorSpecific)),
    Entry(0x80, "Other data acquisition/signal processing controllers", Container(InterfaceVendorSpecific))
  ]

  const Subclass12: seq<Entry> := [
    Entry(0x00, "Processing accelerator", Container(InterfaceVendorSpecific))
  ]

  const Subclass13: seq<Entry> := [
    Entry(0x00, "Non-essential instrumentation", Container(InterfaceVendorSpecific))
  ]

  const ClassNames: seq<Entry> := [
    Entry(0x00, "Unclassified device", Container(Subclass00)),
    Entry(0x01, "Mass storage controller", Container(Subclass01)),
    Entry(0x02, "Network controller", Container(Subclass02)),
    Entry(0x03, "Display controller", Container(Subclass03)),
    Entry(0x04, "Multimedia controller", Container(Subclass04)),
    Entry(0x05, "Memory controller", Container(Subclass05)),
    Entry(0x06, "Bridge", Container(Subclass06)),
    Entry(0x07, "Communication controller", Container(Subclass07)),
    Entry(0x08, "Generic system peripheral", Container(Subclass08)),
    Entry(0x09, "Input device controller", Container(Subclass09)),
    Entry(0x0A, "Docking station", Container(Subclass0A)),
    Entry(0x0B, "Processor", Container(Subclass0B)),
    Entry(0x0C, "Serial bus controller", Container(Subclass0C)),
    Entry(0x0D, "Wireless controller", Container(Subclass0D)),
    Entry(0x0E, "Intelligent controller", Container(Subclass0E)),
    Entry(0x0F, "Satellite communications controller", Container(Subclass0F)),
    Entry(0x10, "Encryption controller", Container(Subclass10)),
    Entry(0x11, "Signal processing controller", Container(Subclass11)),
    Entry(0x12, "Processing accelerators", Container(Subclass12)),
    Entry(0x13, "Non-essential instrumentation", Container(Subclass13)),
    Entry(0xFF, "Unassigneed class", Null)
  ]

  /** The class table as the source lists it: the wireless class's subclasses all keyed 0x00. */
  const ClassNamesAsWritten: seq<Entry> :=
    ClassNames[13 := Entry(0x0D, "Wireless controller", Container(Subclass0DAsWritten))]

  lemma Subclass00WellFormed()
    ensures SubclassTable(Subclass00)
  {
    AdjacentStrict(Subclass00);
    AdjacentStrict(InterfaceVendorSpecific);
  }

  lemma Subclass01WellFormed()
    ensures SubclassTable(Subclass01)
  {
    AdjacentStrict(Subclass01);
    MassStorageInterfacesStrict();
    AdjacentStrict(InterfaceVendorSpecific);
  }

  lemma MassStorageInterfacesStrict()
    ensures Strict(Interface0100) && Strict(Interface0105) && Strict(Interface0106)
    ensures Strict(Interface0107) && Strict(Interface0108) && Strict(Interface0109)
  {
    AdjacentStrict(Interface0100);
    AdjacentStrict(Interface0105);
    AdjacentStrict(Interface0106);
    AdjacentStrict(Interface0107);
    AdjacentStrict(Interface0108);
    AdjacentStrict(Interface0109);
  }

  lemma Subclass02WellFormed()
    ensures SubclassTable(Subclass02)
  {
    AdjacentStrict(Subclass02);
    AdjacentStrict(InterfaceVendorSpecific);
  }

  lemma Subclass03WellFormed()
    ensures SubclassTable(Subclass03)
  {
    AdjacentStrict(Subclass03);
    AdjacentStrict(Interface0300);
    AdjacentStrict(InterfaceVendorSpecific);
  }

  lemma Subclass04WellFormed()
    ensures SubclassTable(Subclass04)
  {
    AdjacentStrict(Subclass04);
    AdjacentStrict(Interface0403);
    AdjacentStrict(InterfaceVendorSpecific);
  }

  lemma Subclass05WellFormed()
    ensures SubclassTable(Subclass05)
  {
    AdjacentStrict(Subclass05);
    AdjacentStrict(InterfaceVendorSpecific);
  }

  lemma Subclass06WellFormed()
    ensures SubclassTable(Subclass06)
  {
    AdjacentStrict(Subclass06);
    AdjacentStrict(Interface0604);
    AdjacentStrict(Interface0609);
    AdjacentStrict(Interface060B);
    AdjacentStrict(InterfaceVendorSpecific);
  }

  lemma Subclass07WellFormed()
    ensures SubclassTable(Subclass07)
  {
    AdjacentStrict(Subclass07);
    AdjacentStrict(Interface0700);
    AdjacentStrict(Interface0701);
    AdjacentStrict(Interface0703);
    AdjacentStrict(InterfaceVendorSpecific);
  }

  lemma Subclass08WellFormed()
    ensures SubclassTable(Subclass08)
  {
    AdjacentStrict(Subclass08);
    AdjacentStrict(Interface0800);
    AdjacentStrict(Interface0801);
    AdjacentStrict(Interface0802);
    AdjacentStrict(Interface0803);
    AdjacentStrict(InterfaceVendorSpecific);
  }

  lemma Subclass09WellFormed()
    ensures SubclassTable(Subclass09)
  {
    AdjacentStrict(Subclass09);
    AdjacentStrict(Interface0904);
    AdjacentStrict(InterfaceVendorSpecific);
  }

  lemma Subclass0AWellFormed()
    ensures SubclassTable(Subclass0A)
  {
    AdjacentStrict(Subclass0A);
    AdjacentStrict(InterfaceVendorSpecific);
  }

  lemma Subclass0BWellFormed()
    ensures SubclassTable(Subclass0B)
  {
    AdjacentStrict(Subclass0B);
    AdjacentStrict(InterfaceVendorSpecific);
  }

  lemma Subclass0CWellFormed()
    ensures SubclassTable(Subclass0C)
  {
    AdjacentStrict(Subclass0C);
    AdjacentStrict(Interface0C00);
    AdjacentStrict(Interface0C03);
    AdjacentStrict(Interface0C07);
    AdjacentStrict(InterfaceVendorSpecific);
  }

  lemma Subclass0DWellFormed()
    ensures SubclassTable(Subclass0D)
  {
    AdjacentStrict(Subclass0D);
    AdjacentStrict(Interface0D01);
    AdjacentStrict(InterfaceVendorSpecific);
  }

  lemma Subclass0EWellFormed()
    ensures SubclassTable(Subclass0E)
  {
    AdjacentStrict(Subclass0E);
    AdjacentStrict(Interface0E00);
  }

  lemma Subclass0FWellFormed()
    ensures SubclassTable(Subclass0F)
  {
    AdjacentStrict(Subclass0F);
    AdjacentStrict(InterfaceVendorSpecific);
  }

  lemma Subclass10WellFormed()
    ensures SubclassTable(Subclass10)
  {
    AdjacentStrict(Subclass10);
    AdjacentStrict(InterfaceVendorSpecific);
  }

  lemma Subclass11WellFormed()
    ensures SubclassTable(Subclass11)
  {
    AdjacentStrict(Subclass11);
    AdjacentStrict(InterfaceVendorSpecific);
  }

  lemma Subclass12WellFormed()
    ensures SubclassTable(Subclass12)
  {
    AdjacentStrict(Subclass12);
    AdjacentStrict(InterfaceVendorSpecific);
  }

  lemma Subclass13WellFormed()
    ensures SubclassTable(Subclass13)
  {
    AdjacentStrict(Subclass13);
    AdjacentStrict(InterfaceVendorSpecific);
  }

  lemma LowClassesWellFormed()
    ensures forall i :: 0 <= i < 7 && ClassNames[i].child.Container? ==> SubclassTable(ClassNames[i].child.entries)
  {
    Subclass00WellFormed();
    Subclass01WellFormed();
    Subclass02WellFormed();
    Subclass03WellFormed();
    Subclass04WellFormed();
    Subclass05WellFormed();
    Subclass06WellFormed();
  }

  lemma MiddleClassesWellFormed()
    ensures forall i :: 7 <= i < 14 && ClassNames[i].child.Container? ==> SubclassTable(ClassNames[i].child.entries)
  {
    Subclass07WellFormed();
    Subclass08WellFormed();
    Subclass09WellFormed();
    Subclass0AWellFormed();
    Subclass0BWellFormed();
    Subclass0CWellFormed();
    Subclass0DWellFormed();
  }

  lemma HighClassesWellFormed()
    ensures forall i :: 14 <= i < |ClassNames| && ClassNames[i].child.Container? ==> SubclassTable(ClassNames[i].child.entries)
  {
    Subclass0EWellFormed();
    Subclass0FWellFormed();
    Subclass10WellFormed();
    Subclass11WellFormed();
    Subclass12WellFormed();
    Subclass13WellFormed();
  }

  lemma ClassKeysStrict()
    ensures Strict(ClassNames)
  {
    LowClassKeys();
    HighClassKeys();
    AdjacentStrict(ClassNames);
  }

  lemma LowClassKeys()
    ensures forall i :: 0 <= i < 10 ==> ClassNames[i].key < ClassNames[i + 1].key
  {
  }

  lemma HighClassKeys()
    ensures |ClassNames| == 21
    ensures forall i :: 10 <= i < 20 ==> ClassNames[i].key < ClassNames[i + 1].key
  {
  }

  /** The class table of the source (with the wireless subclass codes restored) is well formed. */
  lemma TableWellFormed()
    ensures ClassTable(ClassNames)
  {
    ClassKeysStrict();
    LowClassesWellFormed();
    MiddleClassesWellFormed();
    HighClassesWellFormed();
  }
  /** As written, every wireless subclass has key 0x00, so no other subclass code is found there. */
  lemma WirelessKeysAsWritten(subclassCode: Byte)
    requires subclassCode != 0x00
    ensures |Subclass0DAsWritten| == 10 && !HasKey(Subclass0DAsWritten, subclassCode)
  {
  }

  /** A subclass entry reached through its class entry is the one the reference lookup names. */
  lemma SubclassAt(classes: seq<Entry>, i: nat, j: nat)
    requires ClassTable(classes) && i < |classes| && classes[i].child.Container?
    requires j < |classes[i].child.entries|
    ensures SubclassSpec(classes, classes[i].key, classes[i].child.entries[j].key)
      == Some(classes[i].child.entries[j].name)
  {
    StrictFind(classes, classes[i].key, i);
    StrictFind(classes[i].child.entries, classes[i].child.entries[j].key, j);
  }

  /** The interface lookup below an entry whose child is `NULL` is not defined. */
  lemma NullSubclassChild(classes: seq<Entry>, i: nat, j: nat)
    requires ClassTable(classes) && i < |classes| && classes[i].child.Container?
    requires j < |classes[i].child.entries| && classes[i].child.entries[j].child.Null?
    ensures !InterfaceDefined(classes, classes[i].key, classes[i].child.entries[j].key)
  {
    StrictFind(classes, classes[i].key, i);
    StrictFind(classes[i].child.entries, classes[i].child.entries[j].key, j);
  }

  /** The subclass lookup below a class entry whose child is `NULL`. */
  lemma NullClassChild(classes: seq<Entry>, i: nat, subclassCode: Byte)
    requires ClassTable(classes) && i < |classes| && classes[i].child.Null?
    ensures !SubclassDefined(classes, classes[i].key)
    ensures SubclassSpec(classes, classes[i].key, subclassCode).None?
  {
    StrictFind(classes, classes[i].key, i);
  }

  /** The class 0xFF entry has a `NULL` child: the unchecked subclass lookup reads through it, the
      checked one finds nothing. */
  lemma UnassignedClassUndefined(subclassCode: Byte)
    ensures !SubclassDefined(ClassNames, 0xFF)
    ensures SubclassSpec(ClassNames, 0xFF, subclassCode).None?
  {
    TableWellFormed();
    NullClassChild(ClassNames, 20, subclassCode);
  }

  /** The IDE subclass entry (class 0x01, subclass 0x01) has a `NULL` child. */
  lemma IdeInterfaceUndefined()
    ensures !InterfaceDefined(ClassNames, 0x01, 0x01)
  {
    TableWellFormed();
    NullSubclassChild(ClassNames, 1, 1);
  }

  /** The PICMG 2.14 subclass entry (class 0x02, subclass 0x06) has a `NULL` child too. */
  lemma PicmgInterfaceUndefined()
    ensures !InterfaceDefined(ClassNames, 0x02, 0x06)
  {
    TableWellFormed();
    NullSubclassChild(ClassNames, 2, 6);
  }

  /** The source's class container has the same keys as the corrected one, so they are distinct. */
  lemma AsWrittenClassKeysStrict()
    ensures Strict(ClassNamesAsWritten)
    ensures ClassNamesAsWritten[13].key == 0x0D && ClassNamesAsWritten[13].child == Container(Subclass0DAsWritten)
  {
    ClassKeysStrict();
    assert forall i :: 0 <= i < |ClassNames| ==> ClassNamesAsWritten[i].key == ClassNames[i].key;
  }

  /** Below a class entry of a container with distinct keys, the subclass lookup searches its child. */
  lemma SubclassLookupBelow(classes: seq<Entry>, i: nat, subclassCode: Byte)
    requires Strict(classes) && i < |classes|
    ensures SubclassLookup(classes, classes[i].key, subclassCode) ==
      match Lookup(Below(classes[i]), subclassCode)
      case None => None
      case Some(s) => Some(s.name)
  {
    StrictLookup(classes, classes[i].key);
    StrictFind(classes, classes[i].key, i);
  }

  /**
   * `binary_search` over the source's wireless subclasses probes the middle of the ten entries
   * first and finds key 0x00 there, in the "Broadband" entry; no other key is found.
   */
  lemma WirelessSearchAsWritten(subclassCode: Byte)
    requires subclassCode != 0x00
    ensures Lookup(Subclass0DAsWritten, 0x00) == Some(Subclass0DAsWritten[4])
    ensures Subclass0DAsWritten[4].name == "Broadband"
    ensures Lookup(Subclass0DAsWritten, subclassCode) == None
  {
    WirelessKeysAsWritten(subclassCode);
  }

  /**
   * Looking up wireless subclass 0x00 in the source's table names it "Broadband", not "iRDA
   * compatible controller", and every other wireless subclass code has no name.
   */
  lemma WirelessLookupAsWritten(subclassCode: Byte)
    requires subclassCode != 0x00
    ensures SubclassLookup(ClassNamesAsWritten, 0x0D, 0x00) == Some("Broadband")
    ensures SubclassLookup(ClassNamesAsWritten, 0x0D, subclassCode) == None
  {
    AsWrittenClassKeysStrict();
    SubclassLookupBelow(ClassNamesAsWritten, 13, 0x00);
    SubclassLookupBelow(ClassNamesAsWritten, 13, subclassCode);
    WirelessSearchAsWritten(subclassCode);
  }

  /** `binary_search` over the restored wireless subclasses finds each code's own entry. */
  lemma WirelessSearchRestored()
    ensures Lookup(Subclass0D, 0x00) == Some(Subclass0D[0]) && Subclass0D[0].name == "iRDA compatible controller"
    ensures Lookup(Subclass0D, 0x01) == Some(Subclass0D[1]) && Subclass0D[1].name == "CIR or UWB Radio controller"
    ensures Lookup(Subclass0D, 0x11) == Some(Subclass0D[3]) && Subclass0D[3].name == "Bluetooth"
  {
    AdjacentStrict(Subclass0D);
    StrictLookup(Subclass0D, 0x00);
    StrictFind(Subclass0D, 0x00, 0);
    StrictLookup(Subclass0D, 0x01);
    StrictFind(Subclass0D, 0x01, 1);
    StrictLookup(Subclass0D, 0x11);
    StrictFind(Subclass0D, 0x11, 3);
  }

  /**
   * With the codes restored, wireless subclass 0x00 is "iRDA compatible controller", 0x01 "CIR or
   * UWB Radio controller" and 0x11 "Bluetooth".
   */
  lemma WirelessLookupRestored()
    ensures SubclassLookup(ClassNames, 0x0D, 0x00) == Some("iRDA compatible controller")
    ensures SubclassLookup(ClassNames, 0x0D, 0x01) == Some("CIR or UWB Radio controller")
    ensures SubclassLookup(ClassNames, 0x0D, 0x11) == Some("Bluetooth")
  {
    ClassKeysStrict();
    assert ClassNames[13].key == 0x0D && ClassNames[13].child == Container(Subclass0D);
    SubclassLookupBelow(ClassNames, 13, 0x00);
    SubclassLookupBelow(ClassNames, 13, 0x01);
    SubclassLookupBelow(ClassNames, 13, 0x11);
    WirelessSearchRestored();
  }
}
