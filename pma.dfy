/**
 * The boot loader's physical frame allocator (boot/mm/mm.c).
 *
 * The frames between a base and an inclusive limit frame number are described by a bitmap
 * holding two bits per frame, four frames per byte: FREE, ALLOCATED or RESERVED. Two counters
 * track the frames that are not RESERVED (`available`) and the frames that are FREE (`free`).
 * Allocation takes the first run of enough FREE frames; freeing turns ALLOCATED frames back into
 * FREE ones. A separate bump cursor hands out virtual page numbers.
 *
 * The model keeps the bitmap in an array of bytes and reads and writes it through the same
 * two-bit fields as the source; `frames` is the sequence of frame states it encodes, and every
 * operation is specified by a function of that sequence.
 */
module Pma {
  import opened Common

  const PAGE_SIZE: nat := 4096
  /** Physical addresses are 32-bit, so frame numbers are below 2^20. */
  const PFN_LIMIT: nat := 0x10_0000

  const PBM_FREE: nat := 0
  const PBM_ALLOCATED: nat := 1
  const PBM_RESERVED: nat := 2

  /** The virtual page number `alloc_virt_page` starts from. */
  const FIRST_VIRT_PAGE: nat := 0x400

  // ---------------------------------------------------------------------------------------------
  // Two-bit fields

  /** `(idx & 3) * 2`: where the two bits of frame `slot` (0..3) sit within its byte. */
  function Shift(slot: nat): (s: bv8)
    requires slot < 4
    ensures s <= 6
  {
    if slot == 0 then 0 else if slot == 1 then 2 else if slot == 2 then 4 else 6
  }

  /** The two bits of frame `slot` within a byte. */
  function Field(b: bv8, slot: nat): bv8
    requires slot < 4
  {
    (b >> Shift(slot)) & 3
  }

  /** A byte with the two bits of frame `slot` cleared and then set to `x`. */
  function SetField(b: bv8, slot: nat, x: bv8): bv8
    requires slot < 4
  {
    (b & !(3 << Shift(slot))) | (x << Shift(slot))
  }

  /** Setting a field gives it the new value and leaves the other three fields of the byte alone. */
  lemma FieldOfSetField(b: bv8, slot: nat, x: bv8, other: nat)
    requires slot < 4 && x < 4 && other < 4
    ensures Field(SetField(b, slot, x), other) == if other == slot then x else Field(b, other)
  {
    if slot == 0 {
      if other == 0 {} else if other == 1 {} else if other == 2 {} else {}
    } else if slot == 1 {
      if other == 0 {} else if other == 1 {} else if other == 2 {} else {}
    } else if slot == 2 {
      if other == 0 {} else if other == 1 {} else if other == 2 {} else {}
    } else {
      if other == 0 {} else if other == 1 {} else if other == 2 {} else {}
    }
  }

  /** `PBM_GET` on one byte, as a frame state. */
  function Slot(b: bv8, slot: nat): (v: nat)
    requires slot < 4
    ensures v < 4
  {
    Field(b, slot) as nat
  }

  /** `PBM_SET` on one byte. */
  function SetSlot(b: bv8, slot: nat, v: nat): bv8
    requires slot < 4 && v < 4
  {
    SetField(b, slot, v as bv8)
  }

  /** Setting a frame state within a byte, then reading it back. */
  lemma SlotOfSetSlot(b: bv8, slot: nat, v: nat, other: nat)
    requires slot < 4 && v < 4 && other < 4
    ensures Slot(SetSlot(b, slot, v), other) == if other == slot then v else Slot(b, other)
  {
    FieldOfSetField(b, slot, v as bv8, other);
  }

  /** `PBM_GET(idx)` on a whole bitmap: byte `idx / 4`, field `idx % 4`. */
  function Get(bm: seq<bv8>, idx: nat): (v: nat)
    requires idx / 4 < |bm|
    ensures v < 4
  {
    Slot(bm[idx / 4], idx % 4)
  }

  /** `PBM_SET(idx, v)` on a whole bitmap. */
  function Set(bm: seq<bv8>, idx: nat, v: nat): (r: seq<bv8>)
    requires idx / 4 < |bm| && v < 4
    ensures |r| == |bm|
  {
    bm[idx / 4 := SetSlot(bm[idx / 4], idx % 4, v)]
  }

  /** Setting one frame's field changes that frame's state and no other. */
  lemma GetOfSet(bm: seq<bv8>, idx: nat, v: nat, j: nat)
    requires idx / 4 < |bm| && j / 4 < |bm| && v < 4
    ensures Get(Set(bm, idx, v), j) == if j == idx then v else Get(bm, j)
  {
    if j / 4 == idx / 4 {
      SlotOfSetSlot(bm[idx / 4], idx % 4, v, j % 4);
    }
  }

  /** A zero byte describes four FREE frames. */
  lemma GetOfZero(bm: seq<bv8>, j: nat)
    requires j / 4 < |bm| && bm[j / 4] == 0
    ensures Get(bm, j) == PBM_FREE
  {
  }

  // ---------------------------------------------------------------------------------------------
  // Frame states

  /** Every frame holds one of the three states. */
  predicate Settled(st: seq<nat>)
  {
    forall i | 0 <= i < |st| :: st[i] <= PBM_RESERVED
  }

  /** The number of frames among `lo..hi-1` in state `v`. */
  function CountIn(st: seq<nat>, lo: nat, hi: nat, v: nat): (n: nat)
    requires lo <= hi <= |st|
    ensures n <= hi - lo
    decreases hi
  {
    if hi == lo then 0 else CountIn(st, lo, hi - 1, v) + (if st[hi - 1] == v then 1 else 0)
  }

  /** The number of frames in state `v`. */
  function Count(st: seq<nat>, v: nat): (n: nat)
    ensures n <= |st|
  {
    CountIn(st, 0, |st|, v)
  }

  /** Changing one frame's state moves it from one count to another. */
  lemma {:induction false} CountInUpdate(st: seq<nat>, lo: nat, hi: nat, i: nat, x: nat, v: nat)
    requires lo <= hi <= |st| && i < |st|
    ensures CountIn(st[i := x], lo, hi, v) + (if lo <= i < hi && st[i] == v then 1 else 0)
         == CountIn(st, lo, hi, v) + (if lo <= i < hi && x == v then 1 else 0)
    decreases hi
  {
    if hi > lo {
      CountInUpdate(st, lo, hi - 1, i, x, v);
    }
  }

  /** Changing one frame's state, over the whole sequence. */
  lemma CountUpdate(st: seq<nat>, i: nat, x: nat, v: nat)
    requires i < |st|
    ensures Count(st[i := x], v) + (if st[i] == v then 1 else 0)
         == Count(st, v) + (if x == v then 1 else 0)
  {
    CountInUpdate(st, 0, |st|, i, x, v);
  }

  /** No frame is counted both FREE and RESERVED. */
  lemma {:induction false} CountsDisjoint(st: seq<nat>, hi: nat)
    requires hi <= |st|
    ensures CountIn(st, 0, hi, PBM_FREE) + CountIn(st, 0, hi, PBM_RESERVED) <= hi
    decreases hi
  {
    if hi > 0 {
      CountsDisjoint(st, hi - 1);
    }
  }

  /** `st` with the frames `lo..hi-1` set to `v`. */
  function Assign(st: seq<nat>, lo: int, hi: int, v: nat): (r: seq<nat>)
    ensures |r| == |st|
  {
    seq(|st|, k requires 0 <= k < |st| => if lo <= k < hi then v else st[k])
  }

  /** `st` with the ALLOCATED frames among `lo..hi-1` made FREE. */
  function Release(st: seq<nat>, lo: int, hi: int): (r: seq<nat>)
    ensures |r| == |st|
  {
    seq(|st|, k requires 0 <= k < |st| =>
      if lo <= k < hi && st[k] == PBM_ALLOCATED then PBM_FREE else st[k])
  }

  /** One more frame of an assignment. */
  lemma AssignStep(st: seq<nat>, lo: int, i: nat, v: nat)
    requires lo <= i < |st|
    ensures Assign(st, lo, i + 1, v) == Assign(st, lo, i, v)[i := v]
  {
  }

  /** An empty release changes nothing. */
  lemma ReleaseNothing(st: seq<nat>)
    ensures Release(st, 0, 0) == st
  {
  }

  /** One more frame of a release. */
  lemma ReleaseStep(st: seq<nat>, lo: int, i: nat)
    requires lo <= i < |st|
    ensures Release(st, lo, i + 1) ==
      if st[i] == PBM_ALLOCATED then Release(st, lo, i)[i := PBM_FREE] else Release(st, lo, i)
  {
  }

  /** The frames `s..s+c-1` are all FREE. */
  predicate RunFree(st: seq<nat>, s: int, c: nat)
  {
    0 <= s && s + c <= |st| && forall j | s <= j < s + c :: st[j] == PBM_FREE
  }

  /** Some run of `c` frames is FREE. */
  predicate HasRun(st: seq<nat>, c: nat)
  {
    exists s | 0 <= s <= |st| :: RunFree(st, s, c)
  }

  /** `s` starts the first run of `c` FREE frames. */
  predicate FirstFit(st: seq<nat>, s: int, c: nat)
  {
    RunFree(st, s, c) && forall t | 0 <= t < s :: !RunFree(st, t, c)
  }

  /** No run of `c` FREE frames ends at or before frame `e`. */
  predicate NoRunBefore(st: seq<nat>, c: nat, e: int)
  {
    forall t | 0 <= t && t + c <= e :: !RunFree(st, t, c)
  }

  /** A run with a non-FREE frame inside it is not FREE. */
  lemma BrokenRun(st: seq<nat>, t: int, c: nat, j: int)
    requires t <= j < t + c && 0 <= j < |st| && st[j] != PBM_FREE
    ensures !RunFree(st, t, c)
  {
  }

  /**
   * The state of the search of `mm_pma_allocate_frame` after `i` frames: the last `run` of them
   * are FREE and the one before is not, and no run of `c` FREE frames ends among them.
   */
  predicate Scanned(st: seq<nat>, c: nat, i: nat, run: nat)
  {
    run <= i <= |st| && RunFree(st, i - run, run) &&
    (run == i || st[i - run - 1] != PBM_FREE) &&
    (c > 0 ==> NoRunBefore(st, c, i))
  }

  /** A frame that is not FREE ends the current run. */
  lemma ScanBusy(st: seq<nat>, c: nat, i: nat, run: nat)
    requires Scanned(st, c, i, run) && i < |st| && st[i] != PBM_FREE
    ensures Scanned(st, c, i + 1, 0)
  {
    forall t | 0 <= t && t + c == i + 1 && c > 0
      ensures !RunFree(st, t, c)
    {
      BrokenRun(st, t, c, i);
    }
  }

  /** A FREE frame that leaves the run short of `c` extends it. */
  lemma ScanFree(st: seq<nat>, c: nat, i: nat, run: nat)
    requires Scanned(st, c, i, run) && i < |st| && st[i] == PBM_FREE && run + 1 < c
    ensures Scanned(st, c, i + 1, run + 1)
  {
    forall t | 0 <= t && t + c == i + 1
      ensures !RunFree(st, t, c)
    {
      BrokenRun(st, t, c, i - run - 1);
    }
  }

  /** A FREE frame that brings the run to `c` completes the first fit. */
  lemma ScanFound(st: seq<nat>, c: nat, i: nat, run: nat)
    requires Scanned(st, c, i, run) && i < |st| && st[i] == PBM_FREE && run + 1 >= c
    requires run < c || run == 0
    ensures run + 1 == c ==> FirstFit(st, i - run, c)
    ensures RunFree(st, i - run, run + 1)
  {
  }

  /** A search that reaches the end with a run short of `c` has seen every window. */
  lemma ScanExhausted(st: seq<nat>, c: nat, run: nat)
    requires Scanned(st, c, |st|, run) && run < c
    ensures !HasRun(st, c)
  {
  }

  // ---------------------------------------------------------------------------------------------
  // Frame ranges

  /** The frames `mm_pma_init` describes: the base frame through the inclusive limit frame. */
  function FrameCount(basePaddr: nat, limitPaddr: nat): (n: nat)
    requires basePaddr <= limitPaddr
    ensures n >= 1
    ensures basePaddr / PAGE_SIZE + n - 1 == limitPaddr / PAGE_SIZE
  {
    limitPaddr / PAGE_SIZE - basePaddr / PAGE_SIZE + 1
  }

  /** `pma_frame_desc_count` as the source computes it. */
  function FrameCountAsWritten(basePaddr: nat, limitPaddr: nat): nat
    requires basePaddr <= limitPaddr
  {
    limitPaddr / PAGE_SIZE - basePaddr / PAGE_SIZE
  }

  /** The bytes of a bitmap for `n` frames: four frames per byte, rounded up. */
  function BitmapSize(n: nat): (size: nat)
    ensures n <= 4 * size < n + 4
  {
    (n + 3) / 4
  }

  /**
   * The limit frame falls outside the frames the source counts: its index is the frame count
   * itself, which `mm_pma_allocate_frame` never reaches but `mm_pma_mark_reserved` and
   * `mm_pma_free_frame` accept. Counting it, it is the last frame described.
   */
  lemma LimitFrameIndex(basePaddr: nat, limitPaddr: nat)
    requires basePaddr <= limitPaddr
    ensures limitPaddr / PAGE_SIZE - basePaddr / PAGE_SIZE == FrameCountAsWritten(basePaddr, limitPaddr)
    ensures limitPaddr / PAGE_SIZE - basePaddr / PAGE_SIZE < FrameCount(basePaddr, limitPaddr)
    ensures (limitPaddr / PAGE_SIZE - basePaddr / PAGE_SIZE) / 4
          < BitmapSize(FrameCount(basePaddr, limitPaddr))
  {
  }

  /**
   * With the boot loader's usual range, 1 MiB through the last byte of a 16 MiB + 1 MiB region,
   * the source's bitmap is 0x400 bytes and the limit frame's field lies in byte 0x400, just past
   * it: reserving the limit frame writes outside the bitmap and lowers both counters for a frame
   * they never counted.
   */
  lemma LimitFrameOutsideBitmap(basePaddr: nat, limitPaddr: nat)
    requires basePaddr == 0x10_0000 && limitPaddr == 0x110_0FFF
    ensures FrameCountAsWritten(basePaddr, limitPaddr) == 0x1000
    ensures BitmapSize(FrameCountAsWritten(basePaddr, limitPaddr)) == 0x400
    ensures (limitPaddr / PAGE_SIZE - basePaddr / PAGE_SIZE) / 4 == 0x400
  {
  }

  /**
   * The last index `mm_pma_mark_reserved` visits, in the source's unsigned arithmetic, once the
   * range is clamped to `[basePfn, limitPfn]`.
   */
  function LastReservedIndexAsWritten(basePfn: nat, limitPfn: nat, basePaddr: nat, limitPaddr: nat): (r: nat)
    ensures r < U32_LIMIT
  {
    var limitPage := if limitPaddr / PAGE_SIZE > limitPfn then limitPfn else limitPaddr / PAGE_SIZE;
    (limitPage - basePfn) % U32_LIMIT
  }

  /**
   * When usable memory starts at 2 MiB, a reserved range from 1 MiB through the last byte below
   * 2 MiB (the boot code clips reserved ranges to start at 1 MiB, not at the base) lies wholly
   * below the base frame. The source's loop bound then wraps to 2^32 - 1, which a 32-bit index
   * never exceeds: the loop walks past any bitmap of at most 2^18 bytes and does not stop.
   */
  lemma ReserveBelowBaseRunsAway(basePfn: nat, limitPfn: nat, basePaddr: nat, limitPaddr: nat)
    requires basePfn == 0x200 && limitPfn == 0x7FFF
    requires basePaddr == 0x10_0000 && limitPaddr == 0x1F_FFFF
    ensures LastReservedIndexAsWritten(basePfn, limitPfn, basePaddr, limitPaddr) == U32_LIMIT - 1
    ensures LastReservedIndexAsWritten(basePfn, limitPfn, basePaddr, limitPaddr) / 4 >= BitmapSize(PFN_LIMIT)
  {
  }

  /** The number of frames `mm_pma_free_frame` visits from `pfn`, as the source clamps it. */
  function FreeSpanAsWritten(pfn: nat, count: nat, limitPfn: nat): int
    requires pfn <= limitPfn
  {
    if pfn + count > limitPfn + 1 then count - (limitPfn + 1 - pfn) else count
  }

  /** The number of frames from `pfn` that a free of `count` frames can reach: no further than the limit. */
  function FreeSpan(pfn: nat, count: nat, limitPfn: nat): (n: nat)
    requires pfn <= limitPfn
    ensures n <= count && pfn + n <= limitPfn + 1
    ensures pfn + count <= limitPfn + 1 ==> n == count
    ensures pfn + count > limitPfn + 1 ==> pfn + n == limitPfn + 1
  {
    if pfn + count > limitPfn + 1 then limitPfn + 1 - pfn else count
  }

  /**
   * Freeing 30 frames from ten frames before the limit visits 20 frames under the source's clamp,
   * ten of them past the limit, where the clamp meant to stop after ten.
   */
  lemma FreeClampOverruns(pfn: nat, count: nat, limitPfn: nat)
    requires limitPfn == 0x1FF && pfn == 0x1F6 && count == 30
    ensures FreeSpanAsWritten(pfn, count, limitPfn) == 20
    ensures pfn + FreeSpanAsWritten(pfn, count, limitPfn) == limitPfn + 1 + 10
    ensures FreeSpan(pfn, count, limitPfn) == 10
  {
  }

  /** The first frame index `mm_pma_mark_reserved` visits: the range's first page, raised to the base frame. */
  function ReserveLo(basePfn: nat, basePaddr: nat): nat
  {
    (if basePaddr / PAGE_SIZE < basePfn then basePfn else basePaddr / PAGE_SIZE) - basePfn
  }

  /** One past the last frame index `mm_pma_mark_reserved` visits: the range's last page, lowered to the limit frame. */
  function ReserveHi(basePfn: nat, limitPfn: nat, limitPaddr: nat): int
  {
    (if limitPaddr / PAGE_SIZE > limitPfn then limitPfn else limitPaddr / PAGE_SIZE) - basePfn + 1
  }

  /** The first frame index `mm_pma_free_frame` visits; a `pfn` outside the frames visits none. */
  function FreeLo(basePfn: nat, limitPfn: nat, pfn: nat): nat
  {
    if pfn < basePfn || pfn > limitPfn then 0 else pfn - basePfn
  }

  /** One past the last frame index `mm_pma_free_frame` visits: it stops at the limit frame. */
  function FreeHi(basePfn: nat, limitPfn: nat, pfn: nat, count: nat): (hi: nat)
    requires basePfn <= limitPfn
    ensures FreeLo(basePfn, limitPfn, pfn) <= hi <= limitPfn + 1 - basePfn
    ensures pfn < basePfn || pfn > limitPfn ==> hi == FreeLo(basePfn, limitPfn, pfn)
  {
    if pfn < basePfn || pfn > limitPfn then 0 else pfn - basePfn + FreeSpan(pfn, count, limitPfn)
  }

  /** Where a search for zero frames stops: the first FREE frame, or frame 0 when none is FREE. */
  predicate ZeroFit(st: seq<nat>, s: nat)
  {
    if exists j | 0 <= j < |st| :: st[j] == PBM_FREE
    then s < |st| && st[s] == PBM_FREE && forall j | 0 <= j < s :: st[j] != PBM_FREE
    else s == 0
  }

  // ---------------------------------------------------------------------------------------------
  // The allocator

  class FrameAllocator {
    /** `pma_frame_desc_count`, `pma_base_pfn`, `pma_limit_pfn` and `pma_bitmap`. */
    const frameCount: nat
    const basePfn: nat
    const limitPfn: nat
    const bitmap: array<bv8>
    /** `pma_available_frames` and `pma_free_frames`. */
    var available: nat
    var free: nat
    /** The static cursor of `alloc_virt_page`. */
    var allocVpn: nat
    /** The frame states the bitmap encodes. */
    ghost var frames: seq<nat>

    /** The bitmap holds a field for each frame from the base through the inclusive limit. */
    predicate Shaped()
    {
      bitmap.Length == BitmapSize(frameCount) && 0 < frameCount &&
      basePfn + frameCount == limitPfn + 1 && limitPfn < PFN_LIMIT
    }

    /** The bitmap encodes `frames`, the state of every frame in order from the base frame. */
    ghost predicate Encoded()
      reads this, bitmap
    {
      Shaped() && |frames| == frameCount &&
      forall i {:trigger Get(bitmap[..], i)} | 0 <= i < frameCount :: frames[i] == Get(bitmap[..], i)
    }

    /** The counters agree with the bitmap. */
    ghost predicate Valid()
      reads this, bitmap
    {
      Encoded() && Settled(frames) &&
      free == Count(frames, PBM_FREE) &&
      available == frameCount - Count(frames, PBM_RESERVED)
    }

    /**
     * `mm_pma_init`: describe the frames `basePaddr / PAGE_SIZE` through `limitPaddr / PAGE_SIZE`
     * as FREE, then reserve the frames from the base through the end of the bitmap, which is
     * placed at `bitmapPaddr`.
     */
    constructor (basePaddr: nat, limitPaddr: nat, bitmapPaddr: nat)
      requires basePaddr <= limitPaddr < U32_LIMIT
      ensures Valid() && fresh(bitmap)
      ensures basePfn == basePaddr / PAGE_SIZE && limitPfn == limitPaddr / PAGE_SIZE
      ensures frameCount == FrameCount(basePaddr, limitPaddr)
      ensures frames == Assign(seq(frameCount, _ => PBM_FREE), 0,
                                 ReserveHi(basePfn, limitPfn, bitmapPaddr + BitmapSize(frameCount) - 1), PBM_RESERVED)
      ensures allocVpn == FIRST_VIRT_PAGE
    {
      var n := FrameCount(basePaddr, limitPaddr);
      frameCount := n;
      basePfn := basePaddr / PAGE_SIZE;
      limitPfn := limitPaddr / PAGE_SIZE;
      bitmap := new bv8[BitmapSize(n)](_ => 0);
      available := n;
      free := n;
      allocVpn := FIRST_VIRT_PAGE;
      frames := seq(n, _ => PBM_FREE);
      new;
      forall i | 0 <= i < frameCount
        ensures frames[i] == Get(bitmap[..], i)
      {
        GetOfZero(bitmap[..], i);
      }
      AllFree(frames, frameCount);
      var _ := MarkReserved(basePaddr, bitmapPaddr + BitmapSize(frameCount) - 1);
    }

    /** A sequence of FREE frames counts them all FREE and none RESERVED. */
    static lemma {:induction false} AllFree(st: seq<nat>, hi: nat)
      requires hi <= |st|
      requires forall i | 0 <= i < |st| :: st[i] == PBM_FREE
      ensures CountIn(st, 0, hi, PBM_FREE) == hi && CountIn(st, 0, hi, PBM_RESERVED) == 0
      decreases hi
    {
      if hi > 0 {
        AllFree(st, hi - 1);
      }
    }

    /** Write one frame's field. */
    method SetFrame(i: nat, v: nat)
      requires Encoded() && i < frameCount && v <= PBM_RESERVED
      modifies this`frames, bitmap
      ensures Encoded()
      ensures frames == old(frames)[i := v]
    {
      ghost var bm := bitmap[..];
      bitmap[i / 4] := SetSlot(bitmap[i / 4], i % 4, v);
      assert bitmap[..] == Set(bm, i, v);
      frames := frames[i := v];
      forall j | 0 <= j < frameCount
        ensures frames[j] == Get(bitmap[..], j)
      {
        assert old(frames)[j] == Get(bm, j);
        GetOfSet(bm, i, v, j);
      }
    }

    /** Read one frame's field. */
    method GetFrame(i: nat) returns (v: nat)
      requires Encoded() && i < frameCount
      ensures v == frames[i]
    {
      v := Slot(bitmap[i / 4], i % 4);
      assert v == Get(bitmap[..], i);
    }

    /**
     * `mm_pma_mark_reserved`: clamp the range to the described frames and reserve each of its
     * frames. A frame that was not yet RESERVED lowers `available`, and lowers `free` when it
     * was FREE.
     */
    method MarkReserved(basePaddr: nat, limitPaddr: nat) returns (status: Status)
      requires Valid()
      modifies this`free, this`available, this`frames, bitmap
      ensures Valid() && status == Success
      ensures frames == Assign(old(frames), ReserveLo(basePfn, basePaddr), ReserveHi(basePfn, limitPfn, limitPaddr), PBM_RESERVED)
    {
      var basePage := basePaddr / PAGE_SIZE;
      var limitPage := limitPaddr / PAGE_SIZE;
      if basePage < basePfn {
        basePage := basePfn;
      }
      if limitPage > limitPfn {
        limitPage := limitPfn;
      }
      status := Success;
      if limitPage < basePage {
        return;
      }
      ReserveRange(basePage - basePfn, limitPage - basePfn + 1);
    }

    /** The loop of `mm_pma_mark_reserved`: reserve the frames `lo..hi-1`. */
    method ReserveRange(lo: nat, hi: nat)
      requires Valid() && lo < hi <= frameCount
      modifies this`free, this`available, this`frames, bitmap
      ensures Valid()
      ensures frames == Assign(old(frames), lo, hi, PBM_RESERVED)
      ensures free == old(free) - CountIn(old(frames), lo, hi, PBM_FREE)
      ensures available == old(available) - ((hi - lo) - CountIn(old(frames), lo, hi, PBM_RESERVED))
    {
      ghost var st0 := frames;
      ghost var free0, available0 := free, available;
      var i := lo;
      while i < hi
        invariant lo <= i <= hi
        invariant ReservedUpTo(st0, free0, available0, lo, i)
      {
        ReserveFrame(st0, free0, available0, lo, i);
        i := i + 1;
      }
    }

    /**
     * The state of `mm_pma_mark_reserved` after the frames `lo..i-1` of `st0`: those frames are
     * RESERVED, and the counters have dropped by the frames that were FREE and that were not
     * RESERVED among them.
     */
    ghost predicate ReservedUpTo(st0: seq<nat>, free0: nat, available0: nat, lo: nat, i: nat)
      reads this, bitmap
    {
      Valid() && lo <= i <= frameCount && |st0| == frameCount &&
      frames == Assign(st0, lo, i, PBM_RESERVED) &&
      free + CountIn(st0, lo, i, PBM_FREE) == free0 &&
      available + (i - lo) == available0 + CountIn(st0, lo, i, PBM_RESERVED)
    }

    /** One iteration of the `mm_pma_mark_reserved` loop. */
    method ReserveFrame(ghost st0: seq<nat>, ghost free0: nat, ghost available0: nat, ghost lo: nat, i: nat)
      requires ReservedUpTo(st0, free0, available0, lo, i) && i < frameCount
      modifies this`free, this`available, this`frames, bitmap
      ensures ReservedUpTo(st0, free0, available0, lo, i + 1)
    {
      AssignStep(st0, lo, i, PBM_RESERVED);
      var state := GetFrame(i);
      if state == PBM_RESERVED {
        return;
      }
      ghost var st := frames;
      CountUpdate(st, i, PBM_RESERVED, PBM_FREE);
      CountUpdate(st, i, PBM_RESERVED, PBM_RESERVED);
      if state == PBM_FREE {
        free := free - 1;
      }
      available := available - 1;
      SetFrame(i, PBM_RESERVED);
    }

    /** `mm_pma_get_available_frame_count`: the frames that are not RESERVED. */
    function AvailableFrameCount(): (n: nat)
      reads this, bitmap
      requires Valid()
      ensures n == frameCount - Count(frames, PBM_RESERVED)
    {
      available
    }

    /** `mm_pma_get_free_frame_count`: the FREE frames, never more than the available ones. */
    function FreeFrameCount(): (n: nat)
      reads this, bitmap
      requires Valid()
      ensures n == Count(frames, PBM_FREE)
      ensures n <= AvailableFrameCount()
    {
      CountsDisjoint(frames, frameCount);
      free
    }

    /**
     * `mm_pma_allocate_frame`: find the first run of `count` FREE frames, mark it ALLOCATED and
     * lower `free` by `count`; with no such run, fail and change nothing.
     */
    method AllocateFrame(count: nat) returns (status: Status, pfn: nat)
      requires Valid()
      modifies this`free, this`frames, bitmap
      ensures Valid()
      ensures status == Success || status == InsufficientMemory
      ensures status == Success <==> HasRun(old(frames), count)
      ensures status == Success ==>
        basePfn <= pfn && pfn - basePfn + count <= frameCount &&
        (count > 0 ==> FirstFit(old(frames), pfn - basePfn, count)) &&
        (count == 0 ==> ZeroFit(old(frames), pfn - basePfn)) &&
        frames == Assign(old(frames), pfn - basePfn, pfn - basePfn + count, PBM_ALLOCATED) &&
        free == old(free) - count
      ensures status != Success ==> frames == old(frames) && free == old(free)
    {
      var found, start := FindRun(count);
      if !found {
        return InsufficientMemory, 0;
      }
      ghost var st0 := frames;
      var i := start;
      while i < start + count
        invariant start <= i <= start + count
        invariant Valid()
        invariant frames == Assign(st0, start, i, PBM_ALLOCATED)
        invariant free == old(free) - (i - start)
      {
        ghost var st := frames;
        AssignStep(st0, start, i, PBM_ALLOCATED);
        assert st[i] == PBM_FREE;
        CountUpdate(st, i, PBM_ALLOCATED, PBM_FREE);
        CountUpdate(st, i, PBM_ALLOCATED, PBM_RESERVED);
        SetFrame(i, PBM_ALLOCATED);
        free := free - 1;
        i := i + 1;
      }
      status, pfn := Success, basePfn + start;
    }

    /**
     * The search loop of `mm_pma_allocate_frame`: walk the frames counting the FREE frames in a
     * row, and stop as soon as the run reaches `count`.
     */
    method FindRun(count: nat) returns (found: bool, start: nat)
      requires Valid()
      ensures found <==> HasRun(frames, count)
      ensures found ==> start + count <= frameCount && (count > 0 ==> FirstFit(frames, start, count))
      ensures count == 0 ==> found && ZeroFit(frames, start)
    {
      ghost var st := frames;
      var freeCount := 0;
      start := 0;
      var i := 0;
      while i < frameCount
        invariant Scanned(st, count, i, freeCount) && start <= i
        invariant freeCount > 0 ==> start == i - freeCount
        invariant freeCount < count || freeCount == 0
        invariant count == 0 ==> start == 0 && forall j | 0 <= j < i :: st[j] != PBM_FREE
      {
        var state := GetFrame(i);
        if state != PBM_FREE {
          ScanBusy(st, count, i, freeCount);
          freeCount := 0;
          i := i + 1;
          continue;
        }
        if freeCount == 0 {
          start := i;
        }
        if freeCount + 1 >= count {
          ScanFound(st, count, i, freeCount);
          freeCount := freeCount + 1;
          break;
        }
        ScanFree(st, count, i, freeCount);
        freeCount := freeCount + 1;
        i := i + 1;
      }
      found := freeCount >= count;
      if !found {
        ScanExhausted(st, count, freeCount);
      } else if count == 0 {
        assert RunFree(st, 0, 0);
        if i == frameCount {
          assert !exists j | 0 <= j < |st| :: st[j] == PBM_FREE;
        }
      }
    }
    /**
     * `mm_pma_free_frame`: ignore a `pfn` outside the described frames; otherwise clamp the run
     * at the limit frame and turn each of its ALLOCATED frames FREE, raising `free` by one each.
     */
    method FreeFrame(pfn: nat, count: nat)
      requires Valid()
      modifies this`free, this`frames, bitmap
      ensures Valid()
      ensures pfn < basePfn || pfn > limitPfn ==> frames == old(frames) && free == old(free)
      ensures frames == Release(old(frames), FreeLo(basePfn, limitPfn, pfn), FreeHi(basePfn, limitPfn, pfn, count))
      ensures free == old(free) + CountIn(old(frames), FreeLo(basePfn, limitPfn, pfn), FreeHi(basePfn, limitPfn, pfn, count), PBM_ALLOCATED)
    {
      if pfn < basePfn || pfn > limitPfn {
        ReleaseNothing(frames);
        return;
      }
      var n := count;
      if pfn + n > limitPfn + 1 {
        n := limitPfn + 1 - pfn;
      }
      assert n == FreeSpan(pfn, count, limitPfn);
      ReleaseRange(pfn - basePfn, pfn - basePfn + n);
    }

    /** The loop of `mm_pma_free_frame`: free the ALLOCATED frames among `lo..hi-1`. */
    method ReleaseRange(lo: nat, hi: nat)
      requires Valid() && lo <= hi <= frameCount
      modifies this`free, this`frames, bitmap
      ensures Valid()
      ensures frames == Release(old(frames), lo, hi)
      ensures free == old(free) + CountIn(old(frames), lo, hi, PBM_ALLOCATED)
    {
      ghost var st0 := frames;
      ghost var free0 := free;
      var i := lo;
      while i < hi
        invariant lo <= i <= hi
        invariant ReleasedUpTo(st0, free0, lo, i)
      {
        ReleaseFrame(st0, free0, lo, i);
        i := i + 1;
      }
    }

    /**
     * The state of `mm_pma_free_frame` after the frames `lo..i-1` of `st0`: the ALLOCATED ones
     * are FREE, and `free` has risen by their number.
     */
    ghost predicate ReleasedUpTo(st0: seq<nat>, free0: nat, lo: nat, i: nat)
      reads this, bitmap
    {
      Valid() && lo <= i <= frameCount && |st0| == frameCount &&
      frames == Release(st0, lo, i) &&
      free == free0 + CountIn(st0, lo, i, PBM_ALLOCATED)
    }

    /** One iteration of the `mm_pma_free_frame` loop. */
    method ReleaseFrame(ghost st0: seq<nat>, ghost free0: nat, ghost lo: nat, i: nat)
      requires ReleasedUpTo(st0, free0, lo, i) && i < frameCount
      modifies this`free, this`frames, bitmap
      ensures ReleasedUpTo(st0, free0, lo, i + 1)
    {
      ReleaseStep(st0, lo, i);
      var state := GetFrame(i);
      if state != PBM_ALLOCATED {
        return;
      }
      ghost var st := frames;
      CountUpdate(st, i, PBM_FREE, PBM_FREE);
      CountUpdate(st, i, PBM_FREE, PBM_RESERVED);
      SetFrame(i, PBM_FREE);
      free := free + 1;
    }

    /** `alloc_virt_page`: hand out the cursor and advance it by `pageCount`, in 32-bit arithmetic. */
    method AllocVirtPage(pageCount: nat) returns (vpn: nat)
      modifies this`allocVpn
      ensures vpn == old(allocVpn)
      ensures allocVpn == (old(allocVpn) + pageCount) % U32_LIMIT
    {
      vpn := allocVpn;
      allocVpn := (allocVpn + pageCount) % U32_LIMIT;
    }
  }
}
