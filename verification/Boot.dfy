/** Building the frame allocator and the first heap arena from the physical memory map. */
module Boot {
  import opened Machine
  import opened Numbers
  import opened Regions
  import opened FrameSpec
  import opened Frames
  import opened Blocks
  import opened Canonical
  import opened HeapSpec
  import opened HeapLemmas
  import opened Heap

  const INITIAL_HEAP_SIZE := 0x10_0000
  /**
   * The linker script starts the kernel at 1 MiB, puts a guard page and a stack of
   * two pages behind it, and ends both at 64 MiB at the latest.
   */
  const KERNEL_ORIGIN := 0x10_0000
  const KERNEL_CEILING := 0x400_0000
  const LEAST_STACK_END := KERNEL_ORIGIN + 3 * FRAME_SIZE

  /** All bytes of [start, p) are usable and none is reserved. */
  ghost predicate Reaches(usable: seq<Region>, reserved: seq<Region>, start: int, p: int) {
    start < p && RangeUsable(usable, reserved, start, p - start)
  }

  /** Where the two bitmaps start, the bytes of each, and where the heap begins behind them. */
  datatype Layout = Layout(start: int, bytes: int, begin: int)

  /** The least aligned addresses and sizes that hold one bit a frame, twice. */
  ghost predicate IsLayout(l: Layout, stackEnd: int, frames: int) {
    && l.start % 16 == 0 && stackEnd <= l.start < stackEnd + 16
    && l.bytes % 16 == 0 && 8 * (l.bytes - 16) < frames <= 8 * l.bytes
    && l.begin == l.start + 2 * l.bytes && l.begin % 16 == 0
  }

  method ComputeLayout(stackEnd: int, frames: int) returns (l: Layout)
    requires LEAST_STACK_END <= stackEnd <= KERNEL_CEILING && 0 <= frames <= LIMIT_FRAMES
    ensures IsLayout(l, stackEnd, frames) && 0 <= l.bytes
  {
    var bytes := AlignUp((frames + 7) / 8, 16);
    var start := AlignUp(stackEnd, 16);
    AlignUp16((frames + 7) / 8);
    AlignUp16(stackEnd);
    l := EndLayout(start, bytes);
  }

  method EndLayout(start: int, bytes: int) returns (l: Layout)
    requires start % 16 == 0 && bytes % 16 == 0 && 0 <= start <= U32_MAX / 4 && 0 <= bytes <= LIMIT_FRAMES
    ensures l == Layout(start, bytes, start + 2 * bytes) && l.begin % 16 == 0
  {
    if bytes > (U32_MAX - start) / 2 {
      assert false;
    }
    SumAligned(start, bytes);
    AlignUp16(start + bytes * 2);
    l := Layout(start, bytes, AlignUp(start + bytes * 2, 16));
  }

  lemma SumAligned(a: int, b: int)
    requires a % 16 == 0 && b % 16 == 0
    ensures (a + b * 2) % 16 == 0
  {
  }

  lemma MultipleUnique(a: int, b: int)
    requires a % 16 == 0 && b % 16 == 0 && -16 < a - b < 16
    ensures a == b
  {
    assert a == 16 * (a / 16) && b == 16 * (b / 16);
  }

  lemma LayoutUnique(l: Layout, m: Layout, stackEnd: int, frames: int)
    requires IsLayout(l, stackEnd, frames) && IsLayout(m, stackEnd, frames)
    ensures l == m
  {
    MultipleUnique(l.start, m.start);
    MultipleUnique(l.bytes, m.bytes);
  }

  /** A page boundary up to which the bitmaps and a heap of at most 1 MiB can extend. */
  ghost predicate HeapCanEndAt(usable: seq<Region>, reserved: seq<Region>, l: Layout, p: int) {
    && p % FRAME_SIZE == 0
    && l.begin + GRANULE + MIN_ALLOCATION < p <= l.begin + INITIAL_HEAP_SIZE
    && Reaches(usable, reserved, l.start, p)
  }

  ghost predicate HeapFits(usable: seq<Region>, reserved: seq<Region>, l: Layout) {
    exists p :: HeapCanEndAt(usable, reserved, l, p)
  }

  /** Frames needed to address everything below h. */
  function FramesBelow(h: int): int { (h + FRAME_SIZE - 1) / FRAME_SIZE }

  /** The highest usable address, but no more than the limit. */
  ghost predicate Highest(usable: seq<Region>, h: int) {
    && (forall k :: 0 <= k < |usable| ==> Min(usable[k].End(), PHYSICAL_LIMIT) <= h)
    && 0 <= h <= PHYSICAL_LIMIT
    && (h == 0 || exists k :: 0 <= k < |usable| && h == Min(usable[k].End(), PHYSICAL_LIMIT))
  }

  method HighestAddress(usable: RegionTable) returns (highest: int)
    requires usable.Valid()
    ensures Highest(usable.View(), highest)
  {
    ghost var table := usable.View();
    highest := 0;
    var i := 0;
    while i < usable.count
      invariant 0 <= i <= usable.count && 0 <= highest
      invariant forall k :: 0 <= k < i ==> table[k].End() <= highest
      invariant highest == 0 || exists k :: 0 <= k < i && highest == table[k].End()
    {
      var r := usable.regions[i];
      assert r == table[i];
      var end := SaturatedEnd(r.base, r.length);
      if end > highest { highest := end; }
      i := i + 1;
    }
    if highest > PHYSICAL_LIMIT { highest := PHYSICAL_LIMIT; }
  }

  /** No 16-byte boundary above both end and limit can be reached. */
  ghost predicate NoneBeyond(usable: seq<Region>, reserved: seq<Region>, start: int, end: int, limit: int) {
    forall p :: p % GRANULE == 0 && end < p <= U32_MAX && Reaches(usable, reserved, start, p) ==> p <= limit
  }

  /**
   * The farthest 16-byte boundary the usable, unreserved range starting at the
   * metadata can reach; nothing is found only if it cannot get past the metadata.
   */
  method FindHeapRegion(usable: RegionTable, reserved: RegionTable, start: int, end: int)
    returns (found: bool, limit: int)
    requires usable.Valid() && reserved.Valid()
    requires 0 <= start < end <= U32_MAX && end % GRANULE == 0
    ensures found ==> end < limit <= U32_MAX && Reaches(usable.View(), reserved.View(), start, limit)
    ensures found ==> NoneBeyond(usable.View(), reserved.View(), start, end, limit)
    ensures !found ==> NoneBeyond(usable.View(), reserved.View(), start, end, end)
  {
    ghost var table, holes := usable.View(), reserved.View();
    limit := 0;
    var i := 0;
    while i < usable.count
      invariant 0 <= i <= usable.count
      invariant forall k :: 0 <= k < i ==> !(table[k].base <= start && end <= table[k].End())
    {
      var r := usable.regions[i];
      assert r == table[i];
      var regionEnd := SaturatedEnd(r.base, r.length);
      if start >= r.base && end <= regionEnd {
        found, limit := ClipToReserved(usable, reserved, start, end, i, Min(regionEnd, U32_MAX));
        return;
      }
      i := i + 1;
    }
    found := false;
    forall p | end < p ensures !Reaches(table, holes, start, p) {
      if Reaches(table, holes, start, p) {
        IntervalInOneRegion(table, start, p);
      }
    }
  }

  /** The second loop of the search: cut the region at the first reservation behind the metadata. */
  method ClipToReserved(usable: RegionTable, reserved: RegionTable, start: int, end: int, i: int, regionEnd: int)
    returns (found: bool, limit: int)
    requires usable.Valid() && reserved.Valid()
    requires 0 <= start < end <= U32_MAX && end % GRANULE == 0
    requires 0 <= i < usable.count && usable.View()[i].base <= start && end <= usable.View()[i].End()
    requires regionEnd == Min(usable.View()[i].End(), U32_MAX)
    ensures found ==> end < limit <= U32_MAX && Reaches(usable.View(), reserved.View(), start, limit)
    ensures found ==> NoneBeyond(usable.View(), reserved.View(), start, end, limit)
    ensures !found ==> NoneBeyond(usable.View(), reserved.View(), start, end, end)
  {
    ghost var table, holes := usable.View(), reserved.View();
    limit := regionEnd;
    forall p | end < p <= U32_MAX && Reaches(table, holes, start, p) ensures p <= limit {
      WithinRegion(table, holes, start, p, i);
    }
    var j := 0;
    while j < reserved.count
      invariant 0 <= j <= reserved.count && end <= limit <= regionEnd
      invariant forall k :: 0 <= k < j ==> holes[k].End() <= start || limit <= holes[k].base
      invariant NoneBeyond(table, holes, start, end, limit)
    {
      var r := reserved.regions[j];
      assert r == holes[j];
      var reservedStart := r.base;
      var reservedEnd := SaturatedEnd(r.base, r.length);
      if reservedStart < end && reservedEnd > start {
        forall p | end < p ensures !Reaches(table, holes, start, p) {
          assert InRegion(holes[j], Max(start, reservedStart));
          assert Contains(holes, Max(start, reservedStart));
        }
        return false, limit;
      }
      if reservedStart >= end && reservedStart < limit {
        assert InRegion(holes[j], reservedStart);
        assert Contains(holes, reservedStart);
        NarrowAligns(reservedStart);
        limit := NarrowAlignDown(reservedStart);
      }
      j := j + 1;
    }
    found := end < limit;
    if found {
      forall x | start <= x < limit ensures Contains(table, x) && !Contains(holes, x) {
        assert InRegion(table[i], x);
      }
    }
  }

  lemma WithinRegion(table: seq<Region>, holes: seq<Region>, start: int, p: int, i: int)
    requires Normalized(table) && 0 <= i < |table| && table[i].base <= start < table[i].End()
    requires Reaches(table, holes, start, p)
    ensures p <= table[i].End()
  {
    GapAfter(table, i);
    assert !(start <= table[i].End() < p);
  }

  /** Frame f and the region share a byte. */
  ghost predicate Meets(r: Region, f: int) {
    r.base < FRAME_SIZE * (f + 1) && FRAME_SIZE * f < r.End()
  }

  ghost predicate MeetsAny(reserved: seq<Region>, n: int, f: int) {
    exists k :: 0 <= k < n && k < |reserved| && Meets(reserved[k], f)
  }

  /** A frame is wholly usable and meets no reservation iff its byte range is usable. */
  lemma FrameRange(usable: seq<Region>, reserved: seq<Region>, f: int)
    requires Normalized(usable) && Normalized(reserved) && 0 <= f
    ensures FrameUsable(usable, f) && !MeetsAny(reserved, |reserved|, f)
            <==> RangeUsable(usable, reserved, FRAME_SIZE * f, FRAME_SIZE)
  {
    var lo, hi := FRAME_SIZE * f, FRAME_SIZE * (f + 1);
    IntervalInOneRegion(usable, lo, hi);
    if k :| 0 <= k < |reserved| && Meets(reserved[k], f) {
      var x := Max(lo, reserved[k].base);
      assert InRegion(reserved[k], x);
      assert Contains(reserved, x);
    }
    if MeetsAny(reserved, |reserved|, f) {
    } else {
      forall x | lo <= x < hi ensures !Contains(reserved, x) {
        forall k | 0 <= k < |reserved| ensures !InRegion(reserved[k], x) {
          assert !Meets(reserved[k], f);
        }
      }
    }
  }

  /** The kind of a frame after n reserved regions were applied. */
  ghost function BootKind(usable: seq<Region>, reserved: seq<Region>, n: int, limit: int, f: int): Kind {
    if !FrameUsable(usable, f) then Unmanaged
    else if FRAME_SIZE * f < limit || MeetsAny(reserved, n, f) then Reserved
    else Free
  }

  ghost predicate BootKinds(usable: seq<Region>, reserved: seq<Region>, n: int, limit: int, kinds: seq<Kind>) {
    forall f :: 0 <= f < |kinds| ==> kinds[f] == BootKind(usable, reserved, n, limit, f)
  }

  lemma RangeIsMeeting(r: Region, f: int)
    requires WellFormed(r) && 0 <= f < LIMIT_FRAMES
    ensures RangeFirst(r.base) <= f < RangeLast(r.base, r.length) <==> Meets(r, f)
  {
  }

  /** Reserves the memory below the heap limit and every reserved region. */
  method ReserveAll(frames: FrameAllocator, reserved: RegionTable, limit: int)
    requires frames.Valid() && reserved.Valid() && 0 < limit <= PHYSICAL_LIMIT && limit % FRAME_SIZE == 0
    requires frames as object != reserved && reserved.regions as object != frames.frameBitmap
    requires reserved.regions as object != frames.reservedBitmap
    requires forall f :: 0 <= f < frames.state.Size() ==> frames.state.kinds[f] == Free || frames.state.kinds[f] == Unmanaged
    modifies frames`freeFrameCount, frames`allocatedFrameCount, frames`reservedFrameCount, frames`state,
             frames.frameBitmap, frames.reservedBitmap
    ensures frames.Valid() && frames.state == old(frames.state).(kinds := frames.state.kinds)
    ensures frames.state.Size() == old(frames.state).Size()
    ensures BootKinds(frames.usable.View(), reserved.View(), reserved.count, limit, frames.state.kinds)
  {
    ReserveBelow(frames, reserved, limit);
    ReserveRegions(frames, reserved, limit);
  }

  method ReserveBelow(frames: FrameAllocator, reserved: RegionTable, limit: int)
    requires frames.Valid() && reserved.Valid() && 0 < limit <= PHYSICAL_LIMIT && limit % FRAME_SIZE == 0
    requires frames as object != reserved && reserved.regions as object != frames.frameBitmap
    requires reserved.regions as object != frames.reservedBitmap
    requires forall f :: 0 <= f < frames.state.Size() ==> frames.state.kinds[f] == Free || frames.state.kinds[f] == Unmanaged
    modifies frames`freeFrameCount, frames`allocatedFrameCount, frames`reservedFrameCount, frames`state,
             frames.frameBitmap, frames.reservedBitmap
    ensures frames.Valid() && frames.state == old(frames.state).(kinds := frames.state.kinds)
    ensures frames.state.Size() == old(frames.state).Size()
    ensures BootKinds(frames.usable.View(), reserved.View(), 0, limit, frames.state.kinds)
  {
    ghost var table, was := frames.usable.View(), frames.state;
    forall f | 0 <= f < was.Size() ensures was.kinds[f] == if FrameUsable(table, f) then Free else Unmanaged {
      assert was.kinds[f] != Unmanaged <==> FrameUsable(table, f);
    }
    frames.ReserveRange(0, limit);
  }

  method ReserveRegions(frames: FrameAllocator, reserved: RegionTable, limit: int)
    requires frames.Valid() && reserved.Valid()
    requires frames as object != reserved && reserved.regions as object != frames.frameBitmap
    requires reserved.regions as object != frames.reservedBitmap
    requires BootKinds(frames.usable.View(), reserved.View(), 0, limit, frames.state.kinds)
    modifies frames`freeFrameCount, frames`allocatedFrameCount, frames`reservedFrameCount, frames`state,
             frames.frameBitmap, frames.reservedBitmap
    ensures frames.Valid() && frames.state == old(frames.state).(kinds := frames.state.kinds)
    ensures frames.state.Size() == old(frames.state).Size()
    ensures BootKinds(frames.usable.View(), reserved.View(), reserved.count, limit, frames.state.kinds)
  {
    ghost var table, holes, was := frames.usable.View(), reserved.View(), frames.state;
    var i := 0;
    while i < reserved.count
      invariant 0 <= i <= reserved.count && reserved.Valid() && reserved.View() == holes
      invariant frames.Valid() && frames.usable.View() == table
      invariant frames.state == was.(kinds := frames.state.kinds) && frames.state.Size() == was.Size()
      invariant BootKinds(table, holes, i, limit, frames.state.kinds)
    {
      ReserveNext(frames, reserved, i, limit);
      i := i + 1;
    }
  }

  method ReserveNext(frames: FrameAllocator, reserved: RegionTable, i: int, ghost limit: int)
    requires frames.Valid() && reserved.Valid() && 0 <= i < reserved.count
    requires frames as object != reserved && reserved.regions as object != frames.frameBitmap
    requires reserved.regions as object != frames.reservedBitmap
    requires BootKinds(frames.usable.View(), reserved.View(), i, limit, frames.state.kinds)
    modifies frames`freeFrameCount, frames`allocatedFrameCount, frames`reservedFrameCount, frames`state,
             frames.frameBitmap, frames.reservedBitmap
    ensures frames.Valid() && frames.state == old(frames.state).(kinds := frames.state.kinds)
    ensures frames.state.Size() == old(frames.state).Size()
    ensures BootKinds(frames.usable.View(), reserved.View(), i + 1, limit, frames.state.kinds)
  {
    var r := reserved.regions[i];
    assert r == reserved.View()[i];
    ghost var before := frames.state.kinds;
    frames.ReserveRange(r.base, r.length);
    BootKindStep(frames.usable.View(), reserved.View(), i, limit, before, frames.state.kinds);
  }

  lemma BootKindStep(table: seq<Region>, holes: seq<Region>, i: int, limit: int, kinds: seq<Kind>, kinds': seq<Kind>)
    requires Normalized(holes) && 0 <= i < |holes| && |kinds| <= LIMIT_FRAMES
    requires BootKinds(table, holes, i, limit, kinds)
    requires ReservedOver(kinds, RangeFirst(holes[i].base), RangeLast(holes[i].base, holes[i].length), kinds')
    ensures BootKinds(table, holes, i + 1, limit, kinds')
  {
    forall f | 0 <= f < |kinds| ensures
      (RangeFirst(holes[i].base) <= f < RangeLast(holes[i].base, holes[i].length) || MeetsAny(holes, i, f))
      <==> MeetsAny(holes, i + 1, f)
    {
      RangeIsMeeting(holes[i], f);
    }
  }

  /** Every frame below the limit is reserved or unmanaged. */
  ghost predicate SecuredBelow(kinds: seq<Kind>, limit: int) {
    forall f {:trigger Secured(kinds, f)} :: 0 <= f && FRAME_SIZE * f < limit ==> Secured(kinds, f)
  }

  lemma BootKindsSecure(usable: seq<Region>, reserved: seq<Region>, n: int, limit: int, kinds: seq<Kind>)
    requires BootKinds(usable, reserved, n, limit, kinds)
    ensures SecuredBelow(kinds, limit)
  {
  }

  /** The first arena is one free block over secured memory. */
  lemma FirstArena(f: FrameState, m: seq<Granule>, lo: int, hi: int, peak: int, failures: int)
    requires f.Wf() && |m| == GRANULES && 0 < lo && lo + 1 < hi <= GRANULES
    requires SecuredBelow(f.kinds, GRANULE * hi)
    requires m[lo] == Granule(GRANULE * (hi - lo - 1), 0, BLOCK_MAGIC, 1)
    requires 0 <= peak && 0 <= failures <= U64_MAX && f.ready
    ensures var b := Block(lo, hi - lo - 1, true);
            Kernel(f, m, [b], [Arena(lo, hi)], peak, failures).Inv() && Mass([b]) == hi - lo && Payload([b], false) == 0
  {
    var b, a := Block(lo, hi - lo - 1, true), Arena(lo, hi);
    SumsOne(b);
    SortedOne(b);
    forall i ensures Parted([b], i) && HeaderAt(m, [b], i) && Apart([a], i, i) {
    }
    assert [] + [a] == [a];
    forall g ensures Covers([b], g) <==> InArenas([a], g) {
      CoversOne(b, g);
      InArenasAppend([], a, g);
    }
    assert ArenaMass([a], 0) == 0;
    forall g {:trigger InArenas([a], g)} | InArenas([a], g) ensures Secured(f.kinds, g / FRAME_GRANULES) {
      InArenasAppend([], a, g);
    }
  }

  lemma GranulesBetween(begin: int, limit: int)
    requires begin % GRANULE == 0 && limit % FRAME_SIZE == 0
    ensures (limit - begin) / GRANULE == limit / GRANULE - begin / GRANULE
    ensures GRANULE * (limit / GRANULE) == limit && GRANULE * (begin / GRANULE) == begin
  {
    assert limit == GRANULE * (256 * (limit / FRAME_SIZE)) && begin == GRANULE * (begin / GRANULE);
  }

  /** Writes the first header and opens the allocators. */
  method OpenHeap(heap: KernelHeap, begin: int, limit: int)
    requires heap.frames.Valid() && heap.frames as object != heap
    requires heap.mem as object != heap.frames.frameBitmap && heap.mem as object != heap.frames.reservedBitmap
    requires heap.mem as object != heap.frames.usable.regions && heap.mem.Length == GRANULES
    requires 0 <= heap.usedHighWater && 0 <= heap.allocationFailures <= U64_MAX && heap.usedBytes == 0
    requires begin % GRANULE == 0 && limit % FRAME_SIZE == 0 && 0 < begin && begin + 2 * GRANULE < limit <= PHYSICAL_LIMIT
    requires SecuredBelow(heap.frames.state.kinds, limit)
    modifies heap, heap.mem, heap.frames`initialized, heap.frames`state
    ensures heap.Valid() && heap.frames.state == old(heap.frames.state).(ready := true)
    ensures heap.blocks == [Block(begin / GRANULE, (limit - begin) / GRANULE - 1, true)]
    ensures heap.arenas == [Arena(begin / GRANULE, limit / GRANULE)]
  {
    OpenFrames(heap.frames, limit);
    var first, last := begin / GRANULE, limit / GRANULE;
    GranulesBetween(begin, limit);
    WriteFirstBlock(heap, first, last);
    FirstArena(heap.frames.state, heap.mem[..], first, last, heap.usedHighWater, heap.allocationFailures);
  }

  method OpenFrames(frames: FrameAllocator, limit: int)
    requires frames.Valid() && 0 < limit && SecuredBelow(frames.state.kinds, limit)
    modifies frames`initialized, frames`state
    ensures frames.Valid() && frames.state == old(frames.state).(ready := true)
  {
    assert Secured(frames.state.kinds, 0);
    frames.initialized := true;
    frames.state := frames.state.(ready := true);
  }

  method WriteFirstBlock(heap: KernelHeap, first: int, last: int)
    requires heap.mem.Length == GRANULES && 0 < first && first + 2 < last <= GRANULES && heap.usedBytes == 0
    modifies heap, heap.mem
    ensures heap.mem[first] == Granule(GRANULE * (last - first - 1), 0, BLOCK_MAGIC, 1)
    ensures heap.freeList == GRANULE * first && heap.arenaCount == 1 && heap.backingBytes == GRANULE * (last - first)
    ensures heap.blocks == [Block(first, last - first - 1, true)] && heap.arenas == [Arena(first, last)]
    ensures heap.usedBytes == 0 && heap.usedHighWater == old(heap.usedHighWater)
    ensures heap.allocationFailures == old(heap.allocationFailures)
  {
    heap.freeList := GRANULE * first;
    heap.mem[first] := Granule(AlignDown(GRANULE * last - GRANULE * first - GRANULE, GRANULE), 0, BLOCK_MAGIC, 1);
    heap.arenaCount := 1;
    heap.backingBytes := GRANULE * last - GRANULE * first;
    heap.blocks := [Block(first, last - first - 1, true)];
    heap.arenas := [Arena(first, last)];
  }

  /** The page boundary that ends the first heap: as far as the region and 1 MiB allow. */
  function HeapEnd(begin: int, regionEnd: int): int {
    AlignDown(Min(begin + INITIAL_HEAP_SIZE, regionEnd), FRAME_SIZE)
  }

  /** The metadata sits where the linker puts the end of the stack. */
  ghost predicate LowLayout(l: Layout) {
    LEAST_STACK_END <= l.start <= l.begin <= KERNEL_CEILING + 0x10_0000 && l.begin % GRANULE == 0 && l.start < l.begin
  }

  lemma ReachesLess(usable: seq<Region>, reserved: seq<Region>, start: int, p: int, q: int)
    requires Reaches(usable, reserved, start, p) && start < q <= p
    ensures Reaches(usable, reserved, start, q)
  {
  }

  /** The last page boundary at or below an address. */
  lemma PageBelow(value: int, p: int)
    requires 0 <= value
    ensures AlignDown(value, FRAME_SIZE) % FRAME_SIZE == 0 && AlignDown(value, FRAME_SIZE) <= value
    ensures p % FRAME_SIZE == 0 && p <= value ==> p <= AlignDown(value, FRAME_SIZE)
  {
    var n := value / FRAME_SIZE;
    assert value == FRAME_SIZE * n + value % FRAME_SIZE;
    assert AlignDown(value, FRAME_SIZE) == FRAME_SIZE * n;
    if p % FRAME_SIZE == 0 && p <= value {
      assert p == FRAME_SIZE * (p / FRAME_SIZE);
    }
  }

  lemma PageIsGranule(p: int)
    requires p % FRAME_SIZE == 0
    ensures p % GRANULE == 0
  {
    assert p == GRANULE * (256 * (p / FRAME_SIZE));
  }

  /** The heap cannot end beyond what the search found. */
  lemma EndsWithin(usable: seq<Region>, reserved: seq<Region>, l: Layout, limit: int, p: int)
    requires LowLayout(l) && NoneBeyond(usable, reserved, l.start, l.begin, limit)
    requires HeapCanEndAt(usable, reserved, l, p)
    ensures p <= limit
  {
    PageIsGranule(p);
    assert l.begin < p <= U32_MAX;
    assert Reaches(usable, reserved, l.start, p);
  }

  /** No boundary the heap can extend to is above the heap end. */
  lemma NoneAboveHeapEnd(usable: seq<Region>, reserved: seq<Region>, l: Layout, regionEnd: int, p: int)
    requires LowLayout(l) && l.begin < regionEnd <= U32_MAX
    requires NoneBeyond(usable, reserved, l.start, l.begin, regionEnd) && HeapCanEndAt(usable, reserved, l, p)
    ensures p <= HeapEnd(l.begin, regionEnd)
  {
    EndsWithin(usable, reserved, l, regionEnd, p);
    assert p % FRAME_SIZE == 0 && p <= l.begin + INITIAL_HEAP_SIZE;
    PageBelow(Min(l.begin + INITIAL_HEAP_SIZE, regionEnd), p);
  }

  /** The heap end is the greatest boundary the heap can extend to, if there is one at all. */
  lemma HeapEndIsGreatest(usable: seq<Region>, reserved: seq<Region>, l: Layout, regionEnd: int)
    requires LowLayout(l) && l.begin < regionEnd <= U32_MAX
    requires Reaches(usable, reserved, l.start, regionEnd)
    requires NoneBeyond(usable, reserved, l.start, l.begin, regionEnd)
    ensures var end := HeapEnd(l.begin, regionEnd);
            && (end > l.begin + GRANULE + MIN_ALLOCATION ==> HeapCanEndAt(usable, reserved, l, end))
            && (forall p :: HeapCanEndAt(usable, reserved, l, p) ==> p <= end)
  {
    var end := HeapEnd(l.begin, regionEnd);
    PageBelow(Min(l.begin + INITIAL_HEAP_SIZE, regionEnd), 0);
    if end > l.begin + GRANULE + MIN_ALLOCATION {
      ReachesLess(usable, reserved, l.start, regionEnd, end);
    }
    forall p | HeapCanEndAt(usable, reserved, l, p) ensures p <= end {
      NoneAboveHeapEnd(usable, reserved, l, regionEnd, p);
    }
  }

  lemma NoHeapEnd(usable: seq<Region>, reserved: seq<Region>, l: Layout)
    requires LowLayout(l) && NoneBeyond(usable, reserved, l.start, l.begin, l.begin)
    ensures !HeapFits(usable, reserved, l)
  {
    forall p ensures !HeapCanEndAt(usable, reserved, l, p) {
      if HeapCanEndAt(usable, reserved, l, p) {
        EndsWithin(usable, reserved, l, l.begin, p);
      }
    }
  }

  /** Usable memory below the limit, so the boundary is a frame of the table. */
  lemma HeapBelowLimit(usable: seq<Region>, reserved: seq<Region>, l: Layout, p: int)
    requires LowLayout(l) && HeapCanEndAt(usable, reserved, l, p)
    ensures 0 < l.begin < p <= PHYSICAL_LIMIT
  {
  }

  /** Free are exactly the frames at or above the limit all of whose bytes are usable and unreserved. */
  ghost predicate FreeExactly(usable: seq<Region>, reserved: seq<Region>, limit: int, kinds: seq<Kind>) {
    forall f :: 0 <= f < LIMIT_FRAMES ==>
      (f < |kinds| && kinds[f] == Free
       <==> FRAME_SIZE * f >= limit && RangeUsable(usable, reserved, FRAME_SIZE * f, FRAME_SIZE))
  }

  /** Managed are exactly the frames all of whose bytes are usable, reserved or not. */
  ghost predicate ManagedExactly(usable: seq<Region>, kinds: seq<Kind>) {
    forall f :: 0 <= f < |kinds| ==> (kinds[f] != Unmanaged <==> RangeUsable(usable, [], FRAME_SIZE * f, FRAME_SIZE))
  }

  /** The state of both allocators right after a successful initialisation. */
  ghost predicate Booted(k: Kernel, usable: seq<Region>, reserved: seq<Region>, l: Layout, limit: int) {
    && k.Inv() && k.frames.ready && k.frames.hint == 1
    && HeapCanEndAt(usable, reserved, l, limit) && (forall p :: HeapCanEndAt(usable, reserved, l, p) ==> p <= limit)
    && FreeExactly(usable, reserved, limit, k.frames.kinds) && ManagedExactly(usable, k.frames.kinds)
    && Count(k.frames.kinds, Allocated) == 0
    && k.blocks == [Block(l.begin / GRANULE, (limit - l.begin) / GRANULE - 1, true)]
    && k.arenas == [Arena(l.begin / GRANULE, limit / GRANULE)]
  }

  lemma BootKindsFree(usable: seq<Region>, reserved: seq<Region>, h: int, limit: int, kinds: seq<Kind>)
    requires Normalized(usable) && Normalized(reserved) && Highest(usable, h)
    requires |kinds| == FramesBelow(h) && limit % FRAME_SIZE == 0
    requires BootKinds(usable, reserved, |reserved|, limit, kinds)
    ensures FreeExactly(usable, reserved, limit, kinds) && ManagedExactly(usable, kinds)
    ensures Count(kinds, Allocated) == 0
  {
    forall f | 0 <= f < |kinds|
      ensures kinds[f] != Unmanaged <==> RangeUsable(usable, [], FRAME_SIZE * f, FRAME_SIZE)
    {
      FrameRange(usable, [], f);
    }
    forall f | 0 <= f < LIMIT_FRAMES ensures
      (f < |kinds| && kinds[f] == Free
       <==> FRAME_SIZE * f >= limit && RangeUsable(usable, reserved, FRAME_SIZE * f, FRAME_SIZE))
    {
      FrameRange(usable, reserved, f);
      if FrameUsable(usable, f) {
        var k :| 0 <= k < |usable| && CoversFrame(usable[k], f);
        assert Min(usable[k].End(), PHYSICAL_LIMIT) <= h;
      }
    }
    NoneAllocated(kinds);
  }

  /** Finds the region that is to hold the bitmaps and the heap. */
  method Locate(usable: RegionTable, reserved: RegionTable, l: Layout) returns (found: bool, regionEnd: int)
    requires usable.Valid() && reserved.Valid() && LowLayout(l)
    ensures !found ==> !HeapFits(usable.View(), reserved.View(), l)
    ensures found ==> l.begin + GRANULE + MIN_ALLOCATION < regionEnd <= U32_MAX
                      && Reaches(usable.View(), reserved.View(), l.start, regionEnd)
                      && NoneBeyond(usable.View(), reserved.View(), l.start, l.begin, regionEnd)
  {
    found, regionEnd := FindHeapRegion(usable, reserved, l.start, l.begin);
    if !found {
      NoHeapEnd(usable.View(), reserved.View(), l);
    } else if regionEnd - l.begin <= GRANULE + MIN_ALLOCATION {
      HeapEndIsGreatest(usable.View(), reserved.View(), l, regionEnd);
      found := false;
    }
  }

  /** Fills the bitmaps: free are the wholly usable frames above the limit that meet no reservation. */
  method BuildFrames(frames: FrameAllocator, reserved: RegionTable, highest: int, bytes: nat, limit: int)
    requires frames.Valid() && reserved.Valid() && reserved as object != frames
    requires FramesBelow(highest) <= 8 * bytes && Highest(frames.usable.View(), highest)
    requires 0 < limit <= PHYSICAL_LIMIT && limit % FRAME_SIZE == 0
    modifies frames
    ensures frames.Valid() && fresh(frames.frameBitmap) && fresh(frames.reservedBitmap)
    ensures frames.frameBitmap.Length == bytes && frames.state.Size() == FramesBelow(highest) && frames.state.hint == 1
    ensures SecuredBelow(frames.state.kinds, limit) && Count(frames.state.kinds, Allocated) == 0
    ensures FreeExactly(frames.usable.View(), reserved.View(), limit, frames.state.kinds)
    ensures ManagedExactly(frames.usable.View(), frames.state.kinds)
  {
    ghost var table, holes := frames.usable.View(), reserved.View();
    frames.SetUp(FramesBelow(highest), bytes);
    frames.ReleaseUsable();
    ReserveAll(frames, reserved, limit);
    BootKindsSecure(table, holes, reserved.count, limit, frames.state.kinds);
    BootKindsFree(table, holes, highest, limit, frames.state.kinds);
  }

  /** Builds the frame allocator and opens the heap in the region found. */
  method Build(heap: KernelHeap, reserved: RegionTable, highest: int, l: Layout, limit: int)
    requires heap.Valid() && !heap.frames.initialized && reserved.Valid() && 0 <= heap.usedHighWater
    requires reserved as object != heap && reserved as object != heap.frames && reserved.regions as object != heap.mem
    requires heap as object != heap.frames && heap as object != heap.frames.usable
    requires LowLayout(l) && 0 <= l.bytes && FramesBelow(highest) <= 8 * l.bytes
    requires Highest(heap.frames.usable.View(), highest)
    requires HeapCanEndAt(heap.frames.usable.View(), reserved.View(), l, limit)
    requires forall p :: HeapCanEndAt(heap.frames.usable.View(), reserved.View(), l, p) ==> p <= limit
    modifies heap, heap.mem, heap.frames
    ensures heap.Valid() && Booted(heap.State(), heap.frames.usable.View(), reserved.View(), l, limit)
    ensures heap.frames.frameBitmap.Length == l.bytes && heap.frames.state.Size() == FramesBelow(highest)
    ensures fresh(heap.frames.frameBitmap) && fresh(heap.frames.reservedBitmap)
  {
    HeapBelowLimit(heap.frames.usable.View(), reserved.View(), l, limit);
    BuildFrames(heap.frames, reserved, highest, l.bytes, limit);
    OpenHeap(heap, l.begin, limit);
  }

  /**
   * Builds both allocators. It succeeds exactly when the bitmaps and a heap of
   * more than two granules, ending at a page boundary, lie in usable memory
   * free of reservations; the heap then extends as far as it can, up to 1 MiB.
   */
  method Initialize(heap: KernelHeap, reserved: RegionTable, stackEnd: int)
    returns (ok: bool, l: Layout, limit: int)
    requires heap.Valid() && !heap.frames.initialized && reserved.Valid() && 0 <= heap.usedHighWater
    requires reserved as object != heap && reserved as object != heap.frames && reserved.regions as object != heap.mem
    requires heap as object != heap.frames && heap as object != heap.frames.usable
    requires LEAST_STACK_END <= stackEnd <= KERNEL_CEILING
    modifies heap, heap.mem, heap.frames
    ensures forall h :: Highest(heap.frames.usable.View(), h) ==> IsLayout(l, stackEnd, FramesBelow(h))
    ensures ok <==> HeapFits(heap.frames.usable.View(), reserved.View(), l)
    ensures ok ==> heap.Valid() && Booted(heap.State(), heap.frames.usable.View(), reserved.View(), l, limit)
    ensures ok ==> heap.frames.frameBitmap.Length == l.bytes
    ensures ok ==> fresh(heap.frames.frameBitmap) && fresh(heap.frames.reservedBitmap)
    ensures !ok ==> heap.frames.frameCount == 0 && !heap.frames.initialized && heap.blocks == []
  {
    var empty, highest;
    empty, highest, l := Measure(heap.frames.usable, stackEnd);
    if empty {
      EmptyTable(heap.frames.usable, reserved.View(), l);
      Close(heap.frames);
      return false, l, 0;
    }
    ok, limit := Place(heap, reserved, highest, l);
  }

  /** The first part: whether there is usable memory, how far it reaches, and the layout for it. */
  method Measure(usable: RegionTable, stackEnd: int) returns (empty: bool, highest: int, l: Layout)
    requires usable.Valid() && LEAST_STACK_END <= stackEnd <= KERNEL_CEILING
    ensures empty <==> usable.count == 0 || |Bytes(usable.View(), usable.count)| == 0
    ensures Highest(usable.View(), highest) && (forall h :: Highest(usable.View(), h) ==> h == highest)
    ensures IsLayout(l, stackEnd, FramesBelow(highest)) && 0 <= l.bytes && (!empty ==> LowLayout(l))
  {
    var total := usable.Total();
    highest := HighestAddress(usable);
    HighestUnique(usable.View(), highest);
    l := ComputeLayout(stackEnd, FramesBelow(highest));
    empty := usable.count == 0 || total == 0;
    assert !empty ==> usable.View()[0].End() > 0;
  }

  /** The second half of the initialisation: finds the place, and builds there. */
  method Place(heap: KernelHeap, reserved: RegionTable, highest: int, l: Layout) returns (ok: bool, limit: int)
    requires heap.Valid() && !heap.frames.initialized && reserved.Valid() && 0 <= heap.usedHighWater
    requires reserved as object != heap && reserved as object != heap.frames && reserved.regions as object != heap.mem
    requires heap as object != heap.frames && heap as object != heap.frames.usable
    requires LowLayout(l) && 0 <= l.bytes && FramesBelow(highest) <= 8 * l.bytes
    requires Highest(heap.frames.usable.View(), highest)
    modifies heap, heap.mem, heap.frames
    ensures ok <==> HeapFits(heap.frames.usable.View(), reserved.View(), l)
    ensures ok ==> heap.Valid() && Booted(heap.State(), heap.frames.usable.View(), reserved.View(), l, limit)
    ensures ok ==> heap.frames.frameBitmap.Length == l.bytes
    ensures ok ==> fresh(heap.frames.frameBitmap) && fresh(heap.frames.reservedBitmap)
    ensures !ok ==> heap.frames.frameCount == 0 && !heap.frames.initialized && heap.blocks == []
  {
    ghost var table, holes := heap.frames.usable.View(), reserved.View();
    ok, limit := false, 0;
    var found, regionEnd := Locate(heap.frames.usable, reserved, l);
    if !found {
      Close(heap.frames);
      return;
    }
    limit := HeapEnd(l.begin, regionEnd);
    HeapEndIsGreatest(table, holes, l, regionEnd);
    if limit <= l.begin + GRANULE + MIN_ALLOCATION {
      Close(heap.frames);
      return;
    }
    Build(heap, reserved, highest, l, limit);
    ok := true;
  }

  /** A failed initialisation leaves no addressable frame. */
  method Close(frames: FrameAllocator)
    modifies frames`frameCount
    ensures frames.frameCount == 0
  {
    frames.frameCount := 0;
  }

  lemma HighestUnique(usable: seq<Region>, h: int)
    requires Normalized(usable) && Highest(usable, h)
    ensures forall g :: Highest(usable, g) ==> g == h
  {
  }

  lemma ReachesFirst(usable: seq<Region>, reserved: seq<Region>, start: int, p: int)
    ensures Reaches(usable, reserved, start, p) ==> Contains(usable, start)
  {
  }

  lemma EmptyTable(usable: RegionTable, holes: seq<Region>, l: Layout)
    requires usable.Valid() && (usable.count == 0 || |Bytes(usable.View(), usable.count)| == 0)
    ensures !HeapFits(usable.View(), holes, l)
  {
    var table := usable.View();
    if usable.count != 0 {
      TotalLengthCountsBytes(table, usable.count);
      TotalLengthCountsBytes(table, usable.count - 1);
    }
    forall p ensures !HeapCanEndAt(table, holes, l, p) {
      ReachesFirst(table, holes, l.start, p);
    }
  }
}
