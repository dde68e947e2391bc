/**
 * The physical frame allocator of boot/mm/mm.c as the source computes it, next to the corrected
 * `Pma.FrameAllocator`.
 *
 * The source counts one frame fewer than it describes (the limit frame has no place in the
 * bitmap), reserves a range that starts below the base frame with a loop whose unsigned bound
 * has wrapped, and clamps a free that runs past the limit frame by subtracting where it meant to
 * assign. Each operation here follows the source's 32-bit unsigned arithmetic; a run that touches
 * a field past the bitmap's last byte, or a loop that cannot end, is undefined and gives `None`.
 */
module PmaAsWritten {
  import opened Common
  import opened Pma

  /**
   * The allocator's globals: `fields` holds every two-bit field of the bitmap's bytes, four per
   * byte, so it runs up to three fields past the `frameCount` frames the source counts.
   */
  datatype State = State(fields: seq<nat>, frameCount: nat, basePfn: nat, limitPfn: nat, available: nat, free: nat)

  /** What every operation keeps: the bitmap's size, the frame range and 32-bit counters. */
  predicate Shaped(st: State)
  {
    |st.fields| == 4 * BitmapSize(st.frameCount) &&
    st.basePfn + st.frameCount == st.limitPfn && st.limitPfn < PFN_LIMIT &&
    Settled(st.fields) && st.available < U32_LIMIT && st.free < U32_LIMIT
  }

  /**
   * `mm_pma_init`: count `limit / PAGE_SIZE - base / PAGE_SIZE` frames, clear the bitmap, and
   * reserve from the base through the bitmap's last byte at `bitmapPaddr`.
   */
  function Init(basePaddr: nat, limitPaddr: nat, bitmapPaddr: nat): (r: Option<State>)
    requires basePaddr <= limitPaddr < U32_LIMIT && bitmapPaddr < U32_LIMIT
    ensures r.Some? ==> Shaped(r.value) && r.value.frameCount == FrameCountAsWritten(basePaddr, limitPaddr)
    ensures r.Some? ==> r.value.basePfn == basePaddr / PAGE_SIZE && r.value.limitPfn == limitPaddr / PAGE_SIZE
  {
    var n := FrameCountAsWritten(basePaddr, limitPaddr);
    var st := State(seq(4 * BitmapSize(n), _ => PBM_FREE), n, basePaddr / PAGE_SIZE, limitPaddr / PAGE_SIZE, n, n);
    MarkReserved(st, basePaddr, (bitmapPaddr + BitmapSize(n) + U32_LIMIT - 1) % U32_LIMIT)
  }

  /**
   * `mm_pma_mark_reserved`: clamp the pages to `[basePfn, limitPfn]` and reserve the indices from
   * the first through the last, the last computed in 32 bits. A last index at or past the bitmap's
   * fields (the limit frame when the count is a multiple of four, or a range below the base whose
   * bound wrapped) writes outside the bitmap.
   */
  function MarkReserved(st: State, basePaddr: nat, limitPaddr: nat): (r: Option<State>)
    requires Shaped(st)
    ensures r.Some? ==> Shaped(r.value)
    ensures r.Some? ==> r.value.frameCount == st.frameCount && r.value.basePfn == st.basePfn && r.value.limitPfn == st.limitPfn
  {
    var lo := ReserveLo(st.basePfn, basePaddr);
    var last := LastReservedIndexAsWritten(st.basePfn, st.limitPfn, basePaddr, limitPaddr);
    if lo > last then Some(st)
    else if last >= |st.fields| then None
    else
      var n := last + 1 - lo;
      Some(st.(fields := Assign(st.fields, lo, last + 1, PBM_RESERVED),
               free := (st.free - CountIn(st.fields, lo, last + 1, PBM_FREE)) % U32_LIMIT,
               available := (st.available - (n - CountIn(st.fields, lo, last + 1, PBM_RESERVED))) % U32_LIMIT))
  }

  /**
   * `mm_pma_free_frame`: ignore a `pfn` outside the frames; when `pfn + count` (in 32 bits) runs
   * past the limit frame, lower `count` by the frames up to the limit; then free the ALLOCATED
   * fields from `pfn - basePfn` up to that index plus `count`, the end computed in 32 bits.
   */
  function FreeFrame(st: State, pfn: nat, count: nat): (r: Option<State>)
    requires Shaped(st) && pfn < U32_LIMIT && count < U32_LIMIT
    ensures r.Some? ==> Shaped(r.value)
    ensures r.Some? ==> r.value.frameCount == st.frameCount && r.value.basePfn == st.basePfn && r.value.limitPfn == st.limitPfn
    ensures pfn < st.basePfn || pfn > st.limitPfn ==> r == Some(st)
  {
    if pfn < st.basePfn || pfn > st.limitPfn then Some(st)
    else
      var n := if (pfn + count) % U32_LIMIT > st.limitPfn + 1 then (count - (st.limitPfn + 1 - pfn)) % U32_LIMIT else count;
      var start := pfn - st.basePfn;
      var end := (start + n) % U32_LIMIT;
      if end <= start then Some(st)
      else if end > |st.fields| then None
      else
        Some(st.(fields := Release(st.fields, start, end),
                 free := (st.free + CountIn(st.fields, start, end, PBM_ALLOCATED)) % U32_LIMIT))
  }

  /**
   * The search loop of `mm_pma_allocate_frame` from frame `i` with `run` FREE frames in a row
   * begun at `start`: the run and start it ends with. It stops at the first run that reaches
   * `count` and never looks past the `n` counted frames.
   */
  function Search(fields: seq<nat>, n: nat, count: nat, i: nat, run: nat, start: nat): (r: (nat, nat))
    requires n <= |fields| && i <= n
    decreases n - i
  {
    if i == n then (run, start)
    else if fields[i] != PBM_FREE then Search(fields, n, count, i + 1, 0, start)
    else
      var s := if run == 0 then i else start;
      if run + 1 >= count then (run + 1, s) else Search(fields, n, count, i + 1, run + 1, s)
  }

  /** What `mm_pma_allocate_frame` returns and leaves behind. */
  datatype Allocation = Allocation(status: Status, pfn: nat, state: State)

  /**
   * `mm_pma_allocate_frame`: search the counted frames for `count` FREE frames in a row, mark
   * them ALLOCATED and lower `free` by `count` in 32 bits.
   */
  function AllocateFrame(st: State, count: nat): (a: Allocation)
    requires Shaped(st) && count < U32_LIMIT
    ensures Shaped(a.state)
    ensures a.status == Success || a.status == InsufficientMemory
    ensures a.status == Success ==> st.basePfn <= a.pfn && a.pfn - st.basePfn + count <= st.frameCount
    ensures a.status != Success ==> a.state == st
  {
    var (run, start) := Search(st.fields, st.frameCount, count, 0, 0, 0);
    if run < count then Allocation(InsufficientMemory, 0, st)
    else
      SearchBounds(st.fields, st.frameCount, count, 0, 0, 0);
      Allocation(Success, st.basePfn + start,
                 st.(fields := Assign(st.fields, start, start + count, PBM_ALLOCATED),
                     free := (st.free - count) % U32_LIMIT))
  }

  /** A run the search ends with that reaches `count` lies within the counted frames. */
  lemma {:induction false} SearchBounds(fields: seq<nat>, n: nat, count: nat, i: nat, run: nat, start: nat)
    requires n <= |fields| && i <= n && run <= i && start <= i && (run > 0 ==> start == i - run)
    ensures var (r, s) := Search(fields, n, count, i, run, start);
      r >= count ==> s + count <= n
    decreases n - i
  {
    if i < n {
      if fields[i] != PBM_FREE {
        SearchBounds(fields, n, count, i + 1, 0, start);
      } else if run + 1 < count {
        SearchBounds(fields, n, count, i + 1, run + 1, if run == 0 then i else start);
      }
    }
  }

  /**
   * The search finds a run of `count` FREE frames exactly when the counted frames hold one, and
   * then the first; for zero frames it stops at the first FREE frame, or keeps index 0.
   */
  lemma {:induction false} SearchFrom(fields: seq<nat>, n: nat, count: nat, i: nat, run: nat, start: nat)
    requires n <= |fields| && Scanned(fields[..n], count, i, run)
    requires run > 0 ==> start == i - run
    requires run < count || run == 0
    requires count == 0 ==> start == 0 && forall j | 0 <= j < i :: fields[j] != PBM_FREE
    ensures var (r, s) := Search(fields, n, count, i, run, start);
      (r >= count <==> HasRun(fields[..n], count)) &&
      (r >= count && count > 0 ==> FirstFit(fields[..n], s, count)) &&
      (count == 0 ==> ZeroFit(fields[..n], s))
    decreases n - i
  {
    var st := fields[..n];
    if i == n {
      if run < count {
        ScanExhausted(st, count, run);
      } else {
        assert RunFree(st, i - run, run);
        assert RunFree(st, i - count, count);
      }
      if count == 0 {
        assert !exists j | 0 <= j < |st| :: st[j] == PBM_FREE;
      }
    } else if fields[i] != PBM_FREE {
      ScanBusy(st, count, i, run);
      SearchFrom(fields, n, count, i + 1, 0, start);
    } else {
      var s := if run == 0 then i else start;
      if run + 1 >= count {
        ScanFound(st, count, i, run);
        assert RunFree(st, s, count);
      } else {
        ScanFree(st, count, i, run);
        SearchFrom(fields, n, count, i + 1, run + 1, s);
      }
    }
  }

  /**
   * The search is the corrected allocator's first fit, over the frames the source counts: it
   * succeeds exactly when they hold `count` FREE frames in a row and takes the first such run.
   */
  lemma AllocateFirstFit(st: State, count: nat)
    requires Shaped(st) && count < U32_LIMIT
    ensures var a := AllocateFrame(st, count);
      (a.status == Success <==> HasRun(st.fields[..st.frameCount], count)) &&
      (a.status == Success && count > 0 ==> FirstFit(st.fields[..st.frameCount], a.pfn - st.basePfn, count)) &&
      (a.status == Success && count == 0 ==> ZeroFit(st.fields[..st.frameCount], a.pfn - st.basePfn)) &&
      (a.status == Success ==> a.state.fields == Assign(st.fields, a.pfn - st.basePfn, a.pfn - st.basePfn + count, PBM_ALLOCATED))
  {
    SearchFrom(st.fields, st.frameCount, count, 0, 0, 0);
  }

  /**
   * The limit frame is never handed out: every allocation ends before it, since the search stops
   * at the frames the source counts.
   */
  lemma LimitFrameNeverAllocated(st: State, count: nat)
    requires Shaped(st) && count < U32_LIMIT
    ensures var a := AllocateFrame(st, count);
      a.status == Success ==> a.pfn + count <= st.limitPfn
  {
  }

  /**
   * Within its bitmap and from the base frame up, `mm_pma_mark_reserved` reserves the clamped
   * range as the corrected allocator does and lowers the counters by the frames it turned.
   */
  lemma MarkReservedAgrees(st: State, basePaddr: nat, limitPaddr: nat)
    requires Shaped(st)
    requires basePaddr / PAGE_SIZE <= limitPaddr / PAGE_SIZE
    requires st.basePfn <= basePaddr / PAGE_SIZE <= st.limitPfn
    requires ReserveHi(st.basePfn, st.limitPfn, limitPaddr) <= |st.fields|
    ensures var lo, hi := ReserveLo(st.basePfn, basePaddr), ReserveHi(st.basePfn, st.limitPfn, limitPaddr);
      0 <= lo < hi &&
      MarkReserved(st, basePaddr, limitPaddr) ==
        Some(st.(fields := Assign(st.fields, lo, hi, PBM_RESERVED),
                 free := (st.free - CountIn(st.fields, lo, hi, PBM_FREE)) % U32_LIMIT,
                 available := (st.available - ((hi - lo) - CountIn(st.fields, lo, hi, PBM_RESERVED))) % U32_LIMIT))
  {
    var limitPage := if limitPaddr / PAGE_SIZE > st.limitPfn then st.limitPfn else limitPaddr / PAGE_SIZE;
    assert (limitPage - st.basePfn) % U32_LIMIT == limitPage - st.basePfn;
  }

  /**
   * With a frame count that is a multiple of four, the limit frame's field lies just past the
   * bitmap, so reserving the limit frame, which the source's callers describe as usable memory,
   * writes outside it.
   */
  lemma ReserveLimitFrameOutside(st: State)
    requires Shaped(st) && st.frameCount % 4 == 0
    ensures MarkReserved(st, st.limitPfn * PAGE_SIZE, st.limitPfn * PAGE_SIZE) == None
  {
    assert (st.limitPfn * PAGE_SIZE) / PAGE_SIZE == st.limitPfn;
  }

  /**
   * Usable memory from 2 MiB and a reserved range from 1 MiB through the last byte below 2 MiB:
   * the range lies wholly below the base frame, the loop bound wraps to 2^32 - 1 and the loop
   * runs out of the bitmap, where the corrected allocator reserves nothing.
   */
  lemma ReserveBelowBaseUndefined(st: State)
    requires Shaped(st) && st.basePfn == 0x200
    ensures MarkReserved(st, 0x10_0000, 0x1F_FFFF) == None
    ensures ReserveHi(st.basePfn, st.limitPfn, 0x1F_FFFF) <= ReserveLo(st.basePfn, 0x10_0000)
  {
  }

  /**
   * Without a clamp, within its bitmap, `mm_pma_free_frame` frees the range the corrected
   * allocator frees and raises `free` by the ALLOCATED frames in it.
   */
  lemma FreeFrameAgrees(st: State, pfn: nat, count: nat)
    requires Shaped(st) && count < U32_LIMIT
    requires st.basePfn <= pfn && pfn + count <= st.limitPfn + 1 && 0 < count
    requires pfn - st.basePfn + count <= |st.fields|
    ensures var lo, hi := FreeLo(st.basePfn, st.limitPfn, pfn), FreeHi(st.basePfn, st.limitPfn, pfn, count);
      FreeFrame(st, pfn, count) ==
        Some(st.(fields := Release(st.fields, lo, hi),
                 free := (st.free + CountIn(st.fields, lo, hi, PBM_ALLOCATED)) % U32_LIMIT))
  {
    assert (pfn + count) % U32_LIMIT == pfn + count;
    assert FreeSpan(pfn, count, st.limitPfn) == count;
    assert (pfn - st.basePfn + count) % U32_LIMIT == pfn - st.basePfn + count;
  }

  /**
   * With the limit frame at 0x1FF, freeing twelve frames from 0x1F6 frees only the first two of
   * the ten frames up to the limit: the clamp lowers the count by ten where it meant to lower it
   * to ten. The corrected allocator frees all ten.
   */
  lemma FreeClampFreesTooFew(st: State)
    requires Shaped(st) && st.limitPfn == 0x1FF && st.basePfn <= 0x1F6
    ensures var r := FreeFrame(st, 0x1F6, 12);
      r.Some? && r.value.fields == Release(st.fields, 0x1F6 - st.basePfn, 0x1F6 - st.basePfn + 2)
    ensures FreeHi(st.basePfn, st.limitPfn, 0x1F6, 12) == 0x1F6 - st.basePfn + 10
  {
  }

  /**
   * Freeing thirty frames from the same place frees twenty, past the limit frame and past the
   * bitmap's last byte.
   */
  lemma FreeClampOverrunsBitmap(st: State)
    requires Shaped(st) && st.limitPfn == 0x1FF && st.basePfn <= 0x1F6
    ensures FreeFrame(st, 0x1F6, 30) == None
  {
  }
}
