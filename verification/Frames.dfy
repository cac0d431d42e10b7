/** What the page-frame allocator promises, stated on the kind of every frame. */
module FrameSpec {
  import opened Machine
  import opened Numbers
  import opened Regions

  /** Managed frames lie wholly in usable memory and are of one of the last three kinds. */
  datatype Kind = Unmanaged | Free | Reserved | Allocated

  function Count(kinds: seq<Kind>, k: Kind): nat { multiset(kinds)[k] }

  function Managed(kinds: seq<Kind>): int { |kinds| - Count(kinds, Unmanaged) }

  datatype FrameState = FrameState(ready: bool, kinds: seq<Kind>, hint: int, peak: int, failures: int) {
    function Size(): int { |kinds| }

    function Failed(): FrameState {
      this.(failures := if failures == U64_MAX then U64_MAX else failures + 1)
    }

    predicate IsFree(f: int) { 0 <= f < |kinds| && kinds[f] == Free }

    predicate IsAllocated(f: int) { 0 <= f < |kinds| && kinds[f] == Allocated }

    /** Once ready, frame 0 is never handed out, so 0 can mean failure; the peak bounds the allocated frames. */
    ghost predicate Wf() {
      && |kinds| <= LIMIT_FRAMES
      && (ready ==> !IsFree(0) && !IsAllocated(0))
      && 0 <= hint && 0 <= failures <= U64_MAX
      && Count(kinds, Allocated) <= peak
    }
  }

  /** The frame whose bytes lie wholly in one usable region. */
  ghost predicate FrameUsable(usable: seq<Region>, f: int) {
    exists i :: 0 <= i < |usable| && CoversFrame(usable[i], f)
  }

  ghost predicate CoversFrame(r: Region, f: int) {
    r.base <= FRAME_SIZE * f && FRAME_SIZE * (f + 1) <= r.End()
  }

  ghost predicate NoneFree(s: FrameState, lo: int, hi: int) {
    forall g :: lo <= g < hi ==> !s.IsFree(g)
  }

  /** Next fit: the least free frame from start on, else the least one from first on. */
  ghost predicate NextFit(s: FrameState, first: int, f: int) {
    var start := if s.hint < first || s.hint >= s.Size() then first else s.hint;
    && s.IsFree(f)
    && if f >= start then NoneFree(s, start, f)
       else first <= f && NoneFree(s, start, s.Size()) && NoneFree(s, first, f)
  }

  function NextHint(count: int, hint: int): int { if hint >= count then 1 else hint }

  function Taken(s: FrameState, f: int): FrameState
    requires 0 <= f < s.Size()
  {
    s.(kinds := s.kinds[f := Allocated],
       hint := NextHint(s.Size(), f + 1),
       peak := Max(s.peak, Count(s.kinds, Allocated) + 1))
  }

  /** One allocation call: minimum address, user admission, returned address (0 on failure). */
  ghost predicate AllocateStep(s: FrameState, minimum: int, user: bool, s': FrameState, r: int) {
    if !s.ready then
      s' == s && r == 0
    else if user && Count(s.kinds, Free) <= Managed(s.kinds) / 16 then
      s' == s.Failed() && r == 0
    else if minimum > U32_MAX - (FRAME_SIZE - 1) then
      s' == s && r == 0
    else
      SearchStep(s, Max(1, AlignUp(minimum, FRAME_SIZE) / FRAME_SIZE), s', r)
  }

  /** Next-fit search from a least frame number; it fails only when no free frame is left there. */
  ghost predicate SearchStep(s: FrameState, first: int, s': FrameState, r: int) {
    if NoneFree(s, first, s.Size()) then
      s' == s.Failed() && r == 0
    else
      var f := r / FRAME_SIZE;
      r == FRAME_SIZE * f && NextFit(s, first, f) && s' == Taken(s, f)
  }

  function Freed(s: FrameState, f: int): FrameState
    requires 0 <= f < s.Size()
  {
    s.(kinds := s.kinds[f := Free],
       hint := if f < s.hint || s.hint >= s.Size() then f else s.hint)
  }

  /** One release call: it has an effect exactly on the page address of an allocated frame. */
  ghost predicate FreeStep(s: FrameState, address: int, s': FrameState) {
    var f := address / FRAME_SIZE;
    s' == if address % FRAME_SIZE == 0 && address != 0 && s.IsAllocated(f) then Freed(s, f) else s
  }

  ghost predicate RunFree(s: FrameState, r: int, n: int) {
    forall g :: r <= g < r + n ==> s.IsFree(g)
  }

  ghost predicate NoRun(s: FrameState, lo: int, hi: int, n: int) {
    forall r {:trigger RunFree(s, r, n)} :: lo <= r && r + n <= hi ==> !RunFree(s, r, n)
  }

  ghost predicate FirstRun(s: FrameState, lo: int, hi: int, n: int, r: int) {
    lo <= r && r + n <= hi && RunFree(s, r, n) && NoRun(s, lo, r + n - 1, n)
  }

  function RunStart(s: FrameState): int {
    if s.hint < 1 || s.hint >= s.Size() then 1 else s.hint
  }

  /** No run of n free frames lies wholly on one side of the search hint. */
  ghost predicate NoWindow(s: FrameState, n: int) {
    NoRun(s, RunStart(s), s.Size(), n) && NoRun(s, 1, RunStart(s), n)
  }

  /** The frames of [lo, hi) are of kind k, the others as before. */
  function Marked(kinds: seq<Kind>, lo: int, hi: int, k: Kind): (r: seq<Kind>)
    ensures |r| == |kinds|
    decreases hi - lo
  {
    if hi <= lo then kinds
    else
      var t := Marked(kinds, lo, hi - 1, k);
      if 0 <= hi - 1 < |t| then t[hi - 1 := k] else t
  }

  lemma {:induction false} MarkedAt(kinds: seq<Kind>, lo: int, hi: int, k: Kind)
    ensures forall i :: 0 <= i < |kinds| ==> Marked(kinds, lo, hi, k)[i] == if lo <= i < hi then k else kinds[i]
    decreases hi - lo
  {
    if lo < hi {
      MarkedAt(kinds, lo, hi - 1, k);
    }
  }

  function Pinned(s: FrameState, r: int, n: int): FrameState {
    s.(kinds := Marked(s.kinds, r, r + n, Reserved), hint := NextHint(s.Size(), r + n))
  }

  /** Pinning n contiguous frames: returns the address of the first (0 on failure). */
  ghost predicate PinStep(s: FrameState, n: int, s': FrameState, r: int) {
    if n == 0 || n > s.Size() || !s.ready then
      s' == s && r == 0
    else if n > Count(s.kinds, Free) || NoWindow(s, n) then
      s' == s.Failed() && r == 0
    else
      var f := r / FRAME_SIZE;
      && r == FRAME_SIZE * f
      && s' == Pinned(s, f, n)
      && if NoRun(s, RunStart(s), s.Size(), n)
         then FirstRun(s, 1, RunStart(s), n, f)
         else FirstRun(s, RunStart(s), s.Size(), n, f)
  }

  /** The managed frames of [lo, hi) become reserved, the others are as before. */
  ghost predicate ReservedOver(kinds: seq<Kind>, lo: int, hi: int, kinds': seq<Kind>) {
    && |kinds'| == |kinds|
    && forall i :: 0 <= i < |kinds| ==>
         kinds'[i] == if lo <= i < hi && kinds[i] != Unmanaged then Reserved else kinds[i]
  }

  /** The frames of [lo, hi) become free, the others are as before. */
  ghost predicate FreedOver(kinds: seq<Kind>, lo: int, hi: int, kinds': seq<Kind>) {
    && |kinds'| == |kinds|
    && forall i :: 0 <= i < |kinds| ==> kinds'[i] == if lo <= i < hi then Free else kinds[i]
  }

  /** First frame and end frame of the frames that meet [base, base + length), below the limit. */
  function RangeFirst(base: int): int { base / FRAME_SIZE }

  function RangeLast(base: int, length: int): int {
    if base >= PHYSICAL_LIMIT || length == 0 then base / FRAME_SIZE
    else (Min(SaturatedEnd(base, length), PHYSICAL_LIMIT) + FRAME_SIZE - 1) / FRAME_SIZE
  }

  lemma KindCounted(kinds: seq<Kind>, f: int)
    requires 0 <= f < |kinds|
    ensures Count(kinds, kinds[f]) > 0
  {
    assert kinds[f] in multiset(kinds);
  }

  lemma CountUpdate(kinds: seq<Kind>, f: int, k: Kind, x: Kind)
    requires 0 <= f < |kinds|
    ensures Count(kinds[f := k], x)
         == Count(kinds, x) + (if k == x then 1 else 0) - (if kinds[f] == x then 1 else 0)
  {
  }

  lemma MarkedNext(kinds: seq<Kind>, lo: int, hi: int, k: Kind)
    requires lo <= hi && 0 <= hi < |kinds|
    ensures Marked(kinds, lo, hi, k)[hi] == kinds[hi]
    ensures Marked(kinds, lo, hi + 1, k) == Marked(kinds, lo, hi, k)[hi := k]
  {
    MarkedAt(kinds, lo, hi, k);
  }

  lemma CountMarkedStep(kinds: seq<Kind>, lo: int, hi: int, k: Kind, x: Kind)
    requires lo <= hi && 0 <= hi < |kinds|
    ensures Count(Marked(kinds, lo, hi + 1, k), x)
         == Count(Marked(kinds, lo, hi, k), x) + (if k == x then 1 else 0) - (if kinds[hi] == x then 1 else 0)
  {
    MarkedNext(kinds, lo, hi, k);
    CountUpdate(Marked(kinds, lo, hi, k), hi, k, x);
  }

  /** Marking a stretch of one kind moves exactly its length from that kind to the other. */
  lemma {:induction false} CountMarked(kinds: seq<Kind>, lo: int, hi: int, was: Kind, k: Kind, x: Kind)
    requires 0 <= lo <= hi <= |kinds| && was != k
    requires forall i :: lo <= i < hi ==> kinds[i] == was
    ensures Count(Marked(kinds, lo, hi, k), x)
         == Count(kinds, x) + (if k == x then hi - lo else 0) - (if was == x then hi - lo else 0)
    decreases hi - lo
  {
    if lo < hi {
      CountMarked(kinds, lo, hi - 1, was, k, x);
      CountMarkedStep(kinds, lo, hi - 1, k, x);
      assert kinds[hi - 1] == was;
    } else {
      assert Marked(kinds, lo, hi, k) == kinds;
    }
  }

  /** The four kinds partition the frames. */
  lemma {:induction false} CountPartition(kinds: seq<Kind>)
    ensures Count(kinds, Unmanaged) + Count(kinds, Free) + Count(kinds, Reserved) + Count(kinds, Allocated)
         == |kinds|
  {
    if kinds != [] {
      var n := |kinds| - 1;
      CountPartition(kinds[..n]);
      assert multiset(kinds) == multiset(kinds[..n]) + multiset{kinds[n]} by {
        assert kinds == kinds[..n] + [kinds[n]];
      }
      match kinds[n]
      case Unmanaged =>
      case Free =>
      case Reserved =>
      case Allocated =>
    }
  }
}

/** The page-frame allocator: two packed bitmaps, running counters, a search hint. */
module Frames {
  import opened Machine
  import opened Numbers
  import opened Regions
  import opened Bitmap
  import opened FrameSpec

  /** A clear bit means free, a set reserved bit means reserved. */
  ghost predicate BitsMatch(frames: array<bv8>, reserved: array<bv8>, kinds: seq<Kind>)
    reads frames, reserved
  {
    && frames != reserved
    && |kinds| <= 8 * frames.Length && frames.Length == reserved.Length
    && (forall f {:trigger Bit(frames, f)} :: 0 <= f < |kinds| ==> (Bit(frames, f) <==> kinds[f] != Free))
    && (forall f {:trigger Bit(reserved, f)} :: 0 <= f < |kinds| ==> (Bit(reserved, f) <==> kinds[f] == Reserved))
  }

  /** The managed frames are those the table of usable regions covers. */
  ghost predicate TableMatches(usable: RegionTable, kinds: seq<Kind>)
    reads usable, usable.regions
  {
    && usable.Valid()
    && forall f {:trigger FrameUsable(usable.View(), f)} :: 0 <= f < |kinds|
         ==> (kinds[f] != Unmanaged <==> FrameUsable(usable.View(), f))
  }

  /** Nothing has been handed out or reserved yet. */
  ghost predicate Untaken(kinds: seq<Kind>) {
    forall f :: 0 <= f < |kinds| ==> kinds[f] == Unmanaged || kinds[f] == Free
  }

  class FrameAllocator {
    const usable: RegionTable
    var frameBitmap: array<bv8>
    var reservedBitmap: array<bv8>
    var frameCount: nat
    var managedFrameCount: int
    var reservedFrameCount: int
    var allocatedFrameCount: int
    var freeFrameCount: int
    var allocatedHighWater: int
    var allocationFailures: int
    var searchHint: nat
    var initialized: bool

    /** The abstract view of the fields above, kept in step by every method. */
    ghost var state: FrameState

    /** The running counters are the numbers of frames of each kind. */
    ghost predicate CountersMatch()
      reads this
    {
      && state.ready == initialized && state.Size() == frameCount
      && state.hint == searchHint && state.peak == allocatedHighWater && state.failures == allocationFailures
      && managedFrameCount == Managed(state.kinds)
      && freeFrameCount == Count(state.kinds, Free)
      && reservedFrameCount == Count(state.kinds, Reserved)
      && allocatedFrameCount == Count(state.kinds, Allocated)
    }

    ghost predicate Valid()
      reads this, usable, usable.regions, frameBitmap, reservedBitmap
    {
      && BitsMatch(frameBitmap, reservedBitmap, state.kinds)
      && TableMatches(usable, state.kinds)
      && this as object != usable
      && usable.regions as object != frameBitmap && usable.regions as object != reservedBitmap
      && CountersMatch() && state.Wf()
    }

    /** The state after a reset of the memory map: no addressable frame yet. */
    constructor (usable: RegionTable)
      requires usable.Valid()
      ensures Valid() && this.usable == usable && fresh(frameBitmap) && fresh(reservedBitmap)
      ensures state == FrameState(false, [], 1, 0, 0)
    {
      this.usable := usable;
      frameBitmap := new bv8[0];
      reservedBitmap := new bv8[0];
      frameCount, searchHint, initialized := 0, 1, false;
      managedFrameCount, reservedFrameCount, allocatedFrameCount, freeFrameCount := 0, 0, 0, 0;
      allocatedHighWater, allocationFailures := 0, 0;
      state := FrameState(false, [], 1, 0, 0);
    }

    method TestFrame(f: int) returns (used: bool)
      requires BitsMatch(frameBitmap, reservedBitmap, state.kinds) && frameCount == state.Size() && 0 <= f
      ensures used <==> f >= frameCount || state.kinds[f] != Free
    {
      used := f >= frameCount || frameBitmap[f / 8] & Mask(f % 8) != 0;
      assert f < frameCount ==> (Bit(frameBitmap, f) <==> state.kinds[f] != Free);
    }

    method TestReserved(f: int) returns (used: bool)
      requires BitsMatch(frameBitmap, reservedBitmap, state.kinds) && frameCount == state.Size() && 0 <= f
      ensures used <==> f >= frameCount || state.kinds[f] == Reserved
    {
      used := f >= frameCount || reservedBitmap[f / 8] & Mask(f % 8) != 0;
      assert f < frameCount ==> (Bit(reservedBitmap, f) <==> state.kinds[f] == Reserved);
    }

    method AddressIsUsable(address: int) returns (yes: bool)
      requires usable.Valid() && 0 <= address && address % FRAME_SIZE == 0
      ensures yes <==> FrameUsable(usable.View(), address / FRAME_SIZE)
    {
      ghost var table, f := usable.View(), address / FRAME_SIZE;
      if address > U64_MAX - FRAME_SIZE {
        return false;
      }
      var frameEnd := address + FRAME_SIZE;
      var i := 0;
      while i < usable.count
        invariant 0 <= i <= usable.count
        invariant forall k :: 0 <= k < i ==> !CoversFrame(table[k], f)
      {
        var r := usable.regions[i];
        assert r == table[i];
        var end := SaturatedEnd(r.base, r.length);
        if address >= r.base && frameEnd <= end {
          return true;
        }
        i := i + 1;
      }
      return false;
    }

    method CountFailure()
      requires Valid()
      modifies this`allocationFailures, this`state
      ensures Valid() && state == old(state).Failed()
    {
      if allocationFailures != U64_MAX {
        allocationFailures := allocationFailures + 1;
      }
      state := state.Failed();
    }

    /** The least free frame of [begin, end), or end when there is none. */
    method FindFree(begin: int, end: int) returns (frame: int)
      requires BitsMatch(frameBitmap, reservedBitmap, state.kinds) && frameCount == state.Size()
      requires 0 <= begin && end <= frameCount
      ensures begin <= frame && NoneFree(state, begin, frame)
      ensures frame < end ==> state.IsFree(frame)
      ensures frame >= end ==> NoneFree(state, begin, end)
    {
      frame := begin;
      while frame < end
        invariant begin <= frame && (frame <= end || frame == begin)
        invariant NoneFree(state, begin, frame)
      {
        var used := TestFrame(frame);
        if !used {
          return;
        }
        frame := frame + 1;
      }
    }

    /** The two passes of the search: from the hint to the top, then from first to the hint. */
    method FindNextFit(first: int) returns (frame: int)
      requires BitsMatch(frameBitmap, reservedBitmap, state.kinds) && frameCount == state.Size()
      requires searchHint == state.hint && 1 <= first
      ensures 0 <= frame
      ensures frame == 0 ==> NoneFree(state, first, state.Size())
      ensures frame != 0 ==> NextFit(state, first, frame) && first <= frame
    {
      var start := searchHint;
      if start < first || start >= frameCount { start := first; }
      frame := FindFree(start, frameCount);
      if frame < frameCount {
        return;
      }
      if start != first {
        frame := FindFree(first, start);
        if frame < start {
          return;
        }
      }
      frame := 0;
    }

    method MarkUsed(frame: int)
      requires BitsMatch(frameBitmap, reservedBitmap, state.kinds) && state.IsFree(frame)
      modifies frameBitmap
      ensures BitsMatch(frameBitmap, reservedBitmap, state.kinds[frame := Allocated])
    {
      SetBit(frameBitmap, frame);
    }

    method MarkFree(frame: int)
      requires BitsMatch(frameBitmap, reservedBitmap, state.kinds) && state.IsAllocated(frame)
      modifies frameBitmap
      ensures BitsMatch(frameBitmap, reservedBitmap, state.kinds[frame := Free])
    {
      ClearBit(frameBitmap, frame);
    }

    /** Marks one free frame allocated and moves the hint behind it. */
    method Take(frame: int)
      requires Valid() && state.IsFree(frame)
      modifies this`freeFrameCount, this`allocatedFrameCount, this`allocatedHighWater, this`searchHint,
               this`state, frameBitmap
      ensures Valid() && state == Taken(old(state), frame)
    {
      MarkUsed(frame);
      CountTaken(frame);
    }

    method CountTaken(frame: int)
      requires CountersMatch() && state.Wf() && state.IsFree(frame)
      modifies this`freeFrameCount, this`allocatedFrameCount, this`allocatedHighWater, this`searchHint, this`state
      ensures CountersMatch() && state.Wf() && state == Taken(old(state), frame)
    {
      TakenSizes(state, frame);
      if freeFrameCount != 0 { freeFrameCount := freeFrameCount - 1; }
      allocatedFrameCount := allocatedFrameCount + 1;
      if allocatedFrameCount > allocatedHighWater {
        allocatedHighWater := allocatedFrameCount;
      }
      searchHint := frame + 1;
      if searchHint >= frameCount { searchHint := 1; }
      state := Taken(state, frame);
    }

    /** Misses no free frame for any hint, and keeps bitmaps and counters in step. */
    method AllocateFrom(minimum: int, user: bool) returns (address: int)
      requires Valid() && 0 <= minimum <= U32_MAX
      modifies this`freeFrameCount, this`allocatedFrameCount, this`allocatedHighWater,
               this`searchHint, this`allocationFailures, this`state, frameBitmap
      ensures Valid() && AllocateStep(old(state), minimum, user, state, address)
    {
      if !initialized {
        return 0;
      }
      if user && freeFrameCount <= managedFrameCount / 16 {
        CountFailure();
        return 0;
      }
      if minimum > U32_MAX - (FRAME_SIZE - 1) {
        return 0;
      }
      var first := AlignUp(minimum, FRAME_SIZE) / FRAME_SIZE;
      if first == 0 { first := 1; }
      address := SearchFrom(first);
    }

    /** The search itself, from a least frame number on. */
    method SearchFrom(first: int) returns (address: int)
      requires Valid() && 1 <= first
      modifies this`freeFrameCount, this`allocatedFrameCount, this`allocatedHighWater,
               this`searchHint, this`allocationFailures, this`state, frameBitmap
      ensures Valid() && SearchStep(old(state), first, state, address)
    {
      var frame := FindNextFit(first);
      if frame != 0 {
        Take(frame);
        return frame * FRAME_SIZE;
      }
      CountFailure();
      return 0;
    }

    method Allocate() returns (address: int)
      requires Valid()
      modifies this`freeFrameCount, this`allocatedFrameCount, this`allocatedHighWater,
               this`searchHint, this`allocationFailures, this`state, frameBitmap
      ensures Valid() && AllocateStep(old(state), FRAME_SIZE, false, state, address)
    {
      address := AllocateFrom(FRAME_SIZE, false);
    }

    method AllocateUser() returns (address: int)
      requires Valid()
      modifies this`freeFrameCount, this`allocatedFrameCount, this`allocatedHighWater,
               this`searchHint, this`allocationFailures, this`state, frameBitmap
      ensures Valid() && AllocateStep(old(state), FRAME_SIZE, true, state, address)
    {
      address := AllocateFrom(FRAME_SIZE, true);
    }

    /** Allocation at or above an address. */
    method AllocateAtOrAbove(minimum: int) returns (address: int)
      requires Valid() && 0 <= minimum <= U32_MAX
      modifies this`freeFrameCount, this`allocatedFrameCount, this`allocatedHighWater,
               this`searchHint, this`allocationFailures, this`state, frameBitmap
      ensures Valid() && AllocateStep(old(state), minimum, false, state, address)
      ensures address != 0 ==> minimum <= address
    {
      ghost var was := state;
      address := AllocateFrom(minimum, false);
      if address != 0 {
        AboveMinimum(was, minimum, false, state, address);
      }
    }

    /** Releases exactly allocated frames; any other address changes nothing. */
    method FreeFrame(address: int)
      requires Valid() && 0 <= address <= U32_MAX
      modifies this`freeFrameCount, this`allocatedFrameCount, this`searchHint, this`state, frameBitmap
      ensures Valid() && FreeStep(old(state), address, state)
    {
      if address % FRAME_SIZE != 0 || address == 0 {
        return;
      }
      var frame := address / FRAME_SIZE;
      var usableFrame := AddressIsUsable(address);
      var reservedFrame := TestReserved(frame);
      var used := TestFrame(frame);
      if frame < frameCount && usableFrame && !reservedFrame && used {
        Return(frame);
      }
    }

    /** Marks one allocated frame free and pulls the hint down to it. */
    method Return(frame: int)
      requires Valid() && state.IsAllocated(frame)
      modifies this`freeFrameCount, this`allocatedFrameCount, this`searchHint, this`state, frameBitmap
      ensures Valid() && state == Freed(old(state), frame)
    {
      FreedSizes(state, frame);
      MarkFree(frame);
      if allocatedFrameCount != 0 { allocatedFrameCount := allocatedFrameCount - 1; }
      freeFrameCount := freeFrameCount + 1;
      if frame < searchHint || searchHint >= frameCount {
        searchHint := frame;
      }
      state := Freed(state, frame);
    }

    /** The first run of n free frames lying wholly in [begin, end). */
    method FindRun(begin: int, end: int, n: int) returns (found: bool, run: int)
      requires BitsMatch(frameBitmap, reservedBitmap, state.kinds) && frameCount == state.Size()
      requires 0 <= begin && end <= frameCount && 0 < n
      ensures found ==> FirstRun(state, begin, end, n, run)
      ensures !found ==> NoRun(state, begin, end, n)
    {
      run := 0;
      var length := 0;
      var frame := begin;
      while frame < end
        invariant begin <= frame && (frame <= end || frame == begin)
        invariant 0 <= length < n && length <= frame - begin
        invariant length > 0 ==> run == frame - length
        invariant RunFree(state, frame - length, length)
        invariant begin < frame - length ==> !state.IsFree(frame - length - 1)
        invariant NoRun(state, begin, frame, n)
      {
        var used := TestFrame(frame);
        // The last used frame at or before this one: no run may cross it.
        ghost var blocked := if used then frame else frame - length - 1;
        if !used {
          if length == 0 { run := frame; }
          length := length + 1;
          if length == n {
            return true, run;
          }
        } else {
          length := 0;
        }
        forall r {:trigger RunFree(state, r, n)} | begin <= r && r + n <= frame + 1
          ensures !RunFree(state, r, n)
        {
          if r + n == frame + 1 {
            assert !state.IsFree(blocked) && r <= blocked < r + n;
          }
        }
        frame := frame + 1;
      }
      found := false;
    }

    /** Marks both bitmaps over a run of free frames. */
    method MarkRun(run: int, n: int)
      requires BitsMatch(frameBitmap, reservedBitmap, state.kinds)
      requires 0 <= run && 0 <= n && run + n <= state.Size()
      modifies frameBitmap, reservedBitmap
      ensures BitsMatch(frameBitmap, reservedBitmap, Marked(state.kinds, run, run + n, Reserved))
    {
      var item := run;
      while item < run + n
        invariant run <= item <= run + n
        invariant BitsMatch(frameBitmap, reservedBitmap, Marked(state.kinds, run, item, Reserved))
      {
        MarkedNext(state.kinds, run, item, Reserved);
        MarkFrame(item, Marked(state.kinds, run, item, Reserved));
        item := item + 1;
      }
    }

    /** Marks one frame in both bitmaps. */
    method MarkFrame(f: int, ghost kinds: seq<Kind>)
      requires BitsMatch(frameBitmap, reservedBitmap, kinds) && 0 <= f < |kinds|
      modifies frameBitmap, reservedBitmap
      ensures BitsMatch(frameBitmap, reservedBitmap, kinds[f := Reserved])
    {
      SetBit(frameBitmap, f);
      SetBit(reservedBitmap, f);
    }

    /** Pins n contiguous free frames for good: they become reserved. */
    method ReserveContiguous(n: int) returns (address: int)
      requires Valid() && 0 <= n
      modifies this`freeFrameCount, this`reservedFrameCount, this`searchHint, this`allocationFailures,
               this`state, frameBitmap, reservedBitmap
      ensures Valid() && PinStep(old(state), n, state, address)
    {
      if n == 0 || n > frameCount { return 0; }
      if !initialized || n > freeFrameCount {
        if initialized { CountFailure(); }
        return 0;
      }
      var found, run := FindWindow(n);
      if found {
        Pin(run, n);
        return run * FRAME_SIZE;
      }
      CountFailure();
      return 0;
    }

    /** The first run above the search hint, else the first run below it. */
    method FindWindow(n: int) returns (found: bool, run: int)
      requires BitsMatch(frameBitmap, reservedBitmap, state.kinds) && frameCount == state.Size()
      requires searchHint == state.hint && 0 < n && 0 < frameCount
      ensures !found <==> NoWindow(state, n)
      ensures found ==> if NoRun(state, RunStart(state), state.Size(), n)
                        then FirstRun(state, 1, RunStart(state), n, run)
                        else FirstRun(state, RunStart(state), state.Size(), n, run)
    {
      var start := searchHint;
      if start < 1 || start >= frameCount { start := 1; }
      found, run := FindRun(start, frameCount, n);
      if !found && start != 1 {
        found, run := FindRun(1, start, n);
      }
    }

    method Pin(run: int, n: int)
      requires Valid() && 0 < n && 0 <= run && run + n <= state.Size() && RunFree(state, run, n)
      modifies this`freeFrameCount, this`reservedFrameCount, this`searchHint, this`state, frameBitmap, reservedBitmap
      ensures Valid() && state == Pinned(old(state), run, n)
    {
      PinnedManaged(state, run, n);
      MarkRun(run, n);
      CountPinned(run, n);
    }

    method CountPinned(run: int, n: int)
      requires CountersMatch() && state.Wf() && 0 < n && 0 <= run && run + n <= state.Size() && RunFree(state, run, n)
      modifies this`freeFrameCount, this`reservedFrameCount, this`searchHint, this`state
      ensures CountersMatch() && state.Wf() && state == Pinned(old(state), run, n)
    {
      PinnedSizes(state, run, n);
      freeFrameCount := freeFrameCount - n;
      reservedFrameCount := reservedFrameCount + n;
      searchHint := run + n;
      if searchHint >= frameCount { searchHint := 1; }
      state := Pinned(state, run, n);
    }

    /** Boot: all frames used, none reserved, nothing managed yet. */
    method SetUp(count: nat, bytes: nat)
      requires usable.Valid() && count <= LIMIT_FRAMES && count <= 8 * bytes
      modifies this
      ensures fresh(frameBitmap) && fresh(reservedBitmap) && frameBitmap.Length == bytes
      ensures state == FrameState(false, seq(count, _ => Unmanaged), 1, 0, 0)
      ensures this as object != usable
      ensures usable.regions as object != frameBitmap && usable.regions as object != reservedBitmap
      ensures BitsMatch(frameBitmap, reservedBitmap, state.kinds) && CountersMatch()
    {
      frameBitmap := Filled(bytes, true);
      reservedBitmap := Filled(bytes, false);
      ResetCounters(count);
    }

    method ResetCounters(count: nat)
      modifies this`frameCount, this`searchHint, this`initialized, this`managedFrameCount, this`reservedFrameCount,
               this`allocatedFrameCount, this`freeFrameCount, this`allocatedHighWater, this`allocationFailures,
               this`state
      ensures state == FrameState(false, seq(count, _ => Unmanaged), 1, 0, 0) && CountersMatch()
    {
      frameCount, searchHint, initialized := count, 1, false;
      managedFrameCount, reservedFrameCount, allocatedFrameCount, freeFrameCount := 0, 0, 0, 0;
      allocatedHighWater, allocationFailures := 0, 0;
      state := FrameState(false, seq(count, _ => Unmanaged), 1, 0, 0);
      AllUnmanaged(count);
    }

    /** Boot: clears the bits of the used frames in [first, last) and counts them as managed and free. */
    method ReleaseRange(first: int, last: int)
      requires BitsMatch(frameBitmap, reservedBitmap, state.kinds) && CountersMatch()
      requires 0 <= first && last <= frameCount && Untaken(state.kinds)
      modifies this`managedFrameCount, this`freeFrameCount, this`state, frameBitmap
      ensures BitsMatch(frameBitmap, reservedBitmap, state.kinds) && CountersMatch()
      ensures state == old(state).(kinds := state.kinds) && FreedOver(old(state).kinds, first, last, state.kinds)
    {
      ghost var was := state;
      var frame := first;
      while frame < last
        invariant first <= frame && (frame <= last || frame == first)
        invariant BitsMatch(frameBitmap, reservedBitmap, state.kinds) && CountersMatch()
        invariant state == was.(kinds := state.kinds) && FreedOver(was.kinds, first, frame, state.kinds)
      {
        ReleaseOne(frame);
        frame := frame + 1;
      }
    }

    method ReleaseOne(frame: int)
      requires BitsMatch(frameBitmap, reservedBitmap, state.kinds) && CountersMatch()
      requires 0 <= frame < frameCount && (state.kinds[frame] == Unmanaged || state.kinds[frame] == Free)
      modifies this`managedFrameCount, this`freeFrameCount, this`state, frameBitmap
      ensures BitsMatch(frameBitmap, reservedBitmap, state.kinds) && CountersMatch()
      ensures state == old(state).(kinds := old(state).kinds[frame := Free])
    {
      var used := TestFrame(frame);
      if used {
        ClearBit(frameBitmap, frame);
        managedFrameCount := managedFrameCount + 1;
        freeFrameCount := freeFrameCount + 1;
        state := state.(kinds := state.kinds[frame := Free]);
      }
    }

    /** Boot: releases the frames that lie wholly in one region. */
    method ReleaseRegion(r: Region)
      requires BitsMatch(frameBitmap, reservedBitmap, state.kinds) && CountersMatch() && WellFormed(r)
      requires Untaken(state.kinds) && state.Size() <= LIMIT_FRAMES
      modifies this`managedFrameCount, this`freeFrameCount, this`state, frameBitmap
      ensures BitsMatch(frameBitmap, reservedBitmap, state.kinds) && CountersMatch()
      ensures state == old(state).(kinds := state.kinds) && state.Size() == old(state).Size()
      ensures forall f :: 0 <= f < state.Size() ==> state.kinds[f] == if CoversFrame(r, f) then Free else old(state).kinds[f]
    {
      var start := r.base;
      var end := SaturatedEnd(start, r.length);
      if start < PHYSICAL_LIMIT {
        if end > PHYSICAL_LIMIT { end := PHYSICAL_LIMIT; }
        var first := (start + FRAME_SIZE - 1) / FRAME_SIZE;
        var last := end / FRAME_SIZE;
        if last > frameCount { last := frameCount; }
        ReleaseRange(first, last);
      }
    }

    /** Boot: releases exactly the frames whose bytes lie wholly in one usable region. */
    method ReleaseUsable()
      requires usable.Valid() && this as object != usable
      requires usable.regions as object != frameBitmap && usable.regions as object != reservedBitmap
      requires BitsMatch(frameBitmap, reservedBitmap, state.kinds) && CountersMatch()
      requires forall f :: 0 <= f < state.Size() ==> state.kinds[f] == Unmanaged
      requires state.Size() <= LIMIT_FRAMES && !state.ready && state.peak == 0 && state.hint == 1 && state.failures == 0
      modifies this`managedFrameCount, this`freeFrameCount, this`state, frameBitmap
      ensures Valid() && state == old(state).(kinds := state.kinds) && state.Size() == old(state).Size()
      ensures forall f :: 0 <= f < state.Size() ==> state.kinds[f] == if FrameUsable(usable.View(), f) then Free else Unmanaged
    {
      ghost var table, was := usable.View(), state;
      var i := 0;
      while i < usable.count
        invariant 0 <= i <= usable.count && usable.Valid() && usable.View() == table
        invariant BitsMatch(frameBitmap, reservedBitmap, state.kinds) && CountersMatch()
        invariant state == was.(kinds := state.kinds) && state.Size() == was.Size()
        invariant forall f :: 0 <= f < state.Size()
                    ==> state.kinds[f] == if UsableBy(table, i, f) then Free else Unmanaged
      {
        ReleaseRegion(usable.regions[i]);
        assert usable.regions[i] == table[i];
        assert forall f :: UsableBy(table, i + 1, f) <==> UsableBy(table, i, f) || CoversFrame(table[i], f);
        i := i + 1;
      }
      assert forall f :: UsableBy(table, |table|, f) <==> FrameUsable(table, f);
      NoneAllocated(state.kinds);
    }

    /** Reserves every managed frame that meets [base, base + length), free or not. */
    method ReserveRange(base: int, length: int)
      requires Valid() && 0 <= base <= U64_MAX && 0 <= length <= U64_MAX
      modifies this`freeFrameCount, this`allocatedFrameCount, this`reservedFrameCount, this`state,
               frameBitmap, reservedBitmap
      ensures Valid() && state == old(state).(kinds := state.kinds)
      ensures ReservedOver(old(state).kinds, RangeFirst(base), RangeLast(base, length), state.kinds)
    {
      var end := SaturatedEnd(base, length);
      if base >= PHYSICAL_LIMIT || length == 0 {
        return;
      }
      if end > PHYSICAL_LIMIT { end := PHYSICAL_LIMIT; }
      var first := base / FRAME_SIZE;
      var last := (end + FRAME_SIZE - 1) / FRAME_SIZE;
      assert first == RangeFirst(base) && last == RangeLast(base, length);
      if last > frameCount { last := frameCount; }
      ReserveFrames(first, last);
    }

    method ReserveFrames(first: int, last: int)
      requires Valid() && 0 <= first && last <= state.Size()
      modifies this`freeFrameCount, this`allocatedFrameCount, this`reservedFrameCount, this`state,
               frameBitmap, reservedBitmap
      ensures Valid() && state == old(state).(kinds := state.kinds)
      ensures ReservedOver(old(state).kinds, first, last, state.kinds)
    {
      ghost var was := state;
      var frame := first;
      while frame < last
        invariant first <= frame && (frame <= last || frame == first)
        invariant Valid() && state == was.(kinds := state.kinds)
        invariant ReservedOver(was.kinds, first, frame, state.kinds)
      {
        ReserveManaged(frame);
        frame := frame + 1;
      }
    }

    method ReserveManaged(frame: int)
      requires Valid() && 0 <= frame < state.Size()
      modifies this`freeFrameCount, this`allocatedFrameCount, this`reservedFrameCount, this`state,
               frameBitmap, reservedBitmap
      ensures Valid()
      ensures state == if old(state).kinds[frame] == Unmanaged then old(state)
                       else old(state).(kinds := old(state).kinds[frame := Reserved])
    {
      var usableFrame := AddressIsUsable(frame * FRAME_SIZE);
      var reservedFrame := TestReserved(frame);
      if usableFrame && !reservedFrame {
        ReserveOne(frame);
      } else if usableFrame {
        assert state.kinds[frame := Reserved] == state.kinds;
      }
    }

    method ReserveOne(frame: int)
      requires Valid() && 0 <= frame < frameCount
      requires state.kinds[frame] == Free || state.kinds[frame] == Allocated
      modifies this`freeFrameCount, this`allocatedFrameCount, this`reservedFrameCount, this`state,
               frameBitmap, reservedBitmap
      ensures Valid() && state == old(state).(kinds := old(state).kinds[frame := Reserved])
    {
      ReservedSizes(state, frame);
      var used := TestFrame(frame);
      if !used {
        if freeFrameCount != 0 { freeFrameCount := freeFrameCount - 1; }
      } else if allocatedFrameCount != 0 {
        allocatedFrameCount := allocatedFrameCount - 1;
      }
      MarkFrame(frame, state.kinds);
      reservedFrameCount := reservedFrameCount + 1;
      state := state.(kinds := state.kinds[frame := Reserved]);
    }
  }

  /** What an allocation returns is a page address at or above the minimum. */
  lemma AboveMinimum(s: FrameState, minimum: int, user: bool, s': FrameState, r: int)
    requires s.Wf() && 0 <= minimum && AllocateStep(s, minimum, user, s', r) && r != 0
    ensures r % FRAME_SIZE == 0 && minimum <= r && s.IsFree(r / FRAME_SIZE)
  {
  }

  ghost predicate UsableBy(table: seq<Region>, n: int, f: int) {
    exists i :: 0 <= i < n && i < |table| && CoversFrame(table[i], f)
  }

  lemma {:induction false} AllUnmanaged(count: nat)
    ensures var kinds: seq<Kind> := seq(count, _ => Unmanaged);
            Managed(kinds) == 0 && Count(kinds, Free) == Count(kinds, Reserved) == Count(kinds, Allocated) == 0
  {
    var kinds: seq<Kind> := seq(count, _ => Unmanaged);
    if count > 0 {
      AllUnmanaged(count - 1);
      assert kinds == seq(count - 1, _ => Unmanaged) + [Unmanaged];
    } else {
      assert kinds == [];
    }
  }

  lemma NoneAllocated(kinds: seq<Kind>)
    requires forall f :: 0 <= f < |kinds| ==> kinds[f] != Allocated
    ensures Count(kinds, Allocated) == 0
  {
    assert Allocated !in kinds;
  }

  lemma ReservedSizes(s: FrameState, f: int)
    requires s.Wf() && 0 <= f < s.Size() && (s.kinds[f] == Free || s.kinds[f] == Allocated)
    ensures var t := s.(kinds := s.kinds[f := Reserved]);
            && t.Wf() && Managed(t.kinds) == Managed(s.kinds)
            && Count(t.kinds, Reserved) == Count(s.kinds, Reserved) + 1
            && Count(t.kinds, Free) == Count(s.kinds, Free) - (if s.kinds[f] == Free then 1 else 0)
            && Count(t.kinds, Allocated) == Count(s.kinds, Allocated) - (if s.kinds[f] == Allocated then 1 else 0)
  {
    forall k ensures Count(s.kinds[f := Reserved], k)
                  == Count(s.kinds, k) + (if k == Reserved then 1 else 0) - (if k == s.kinds[f] then 1 else 0)
    {
      CountUpdate(s.kinds, f, Reserved, k);
    }
  }

  lemma TakenSizes(s: FrameState, f: int)
    requires s.Wf() && s.IsFree(f)
    ensures var t := Taken(s, f);
            && t.Wf() && Managed(t.kinds) == Managed(s.kinds)
            && Count(t.kinds, Free) == Count(s.kinds, Free) - 1
            && Count(t.kinds, Reserved) == Count(s.kinds, Reserved)
            && Count(t.kinds, Allocated) == Count(s.kinds, Allocated) + 1
  {
    forall k ensures Count(Taken(s, f).kinds, k)
                  == Count(s.kinds, k) + (if k == Allocated then 1 else 0) - (if k == Free then 1 else 0)
    {
      CountUpdate(s.kinds, f, Allocated, k);
    }
  }

  lemma FreedSizes(s: FrameState, f: int)
    requires s.Wf() && s.IsAllocated(f)
    ensures var t := Freed(s, f);
            && t.Wf() && Managed(t.kinds) == Managed(s.kinds)
            && Count(t.kinds, Free) == Count(s.kinds, Free) + 1
            && Count(t.kinds, Reserved) == Count(s.kinds, Reserved)
            && Count(t.kinds, Allocated) == Count(s.kinds, Allocated) - 1
  {
    forall k ensures Count(Freed(s, f).kinds, k)
                  == Count(s.kinds, k) + (if k == Free then 1 else 0) - (if k == Allocated then 1 else 0)
    {
      CountUpdate(s.kinds, f, Free, k);
    }
  }

  lemma PinnedManaged(s: FrameState, run: int, n: int)
    requires RunFree(s, run, n)
    ensures var t := Pinned(s, run, n);
            forall i :: 0 <= i < |s.kinds| ==>
              && (t.kinds[i] == Unmanaged <==> s.kinds[i] == Unmanaged)
              && (t.kinds[i] == Free ==> s.kinds[i] == Free) && (t.kinds[i] == Allocated ==> s.kinds[i] == Allocated)
  {
    MarkedAt(s.kinds, run, run + n, Reserved);
    forall i | run <= i < run + n && 0 <= i < |s.kinds| ensures s.kinds[i] == Free {
      assert s.IsFree(i);
    }
  }

  lemma PinnedCount(s: FrameState, run: int, n: int, k: Kind)
    requires 0 <= run && 0 < n && RunFree(s, run, n)
    ensures Count(Pinned(s, run, n).kinds, k)
         == Count(s.kinds, k) + (if k == Reserved then n else 0) - (if k == Free then n else 0)
  {
    assert s.IsFree(run + n - 1);
    forall i | run <= i < run + n ensures s.kinds[i] == Free {
      assert s.IsFree(i);
    }
    CountMarked(s.kinds, run, run + n, Free, Reserved, k);
  }

  lemma PinnedSizes(s: FrameState, run: int, n: int)
    requires s.Wf() && 0 <= run && 0 < n && RunFree(s, run, n)
    ensures var t := Pinned(s, run, n);
            && t.Wf() && Managed(t.kinds) == Managed(s.kinds)
            && Count(t.kinds, Free) == Count(s.kinds, Free) - n
            && Count(t.kinds, Reserved) == Count(s.kinds, Reserved) + n
            && Count(t.kinds, Allocated) == Count(s.kinds, Allocated)
  {
    PinnedManaged(s, run, n);
    PinnedCount(s, run, n, Free);
    PinnedCount(s, run, n, Reserved);
    PinnedCount(s, run, n, Allocated);
    PinnedCount(s, run, n, Unmanaged);
  }
}
