/** The kernel heap: headers kept inside the memory they manage. */
module Heap {
  import opened Machine
  import opened Numbers
  import opened Regions
  import opened FrameSpec
  import opened Frames
  import opened Blocks
  import opened Canonical
  import opened HeapSpec
  import opened HeapLemmas

  /**
   * Block addresses are granule indices and block sizes granule counts; the
   * words kept in memory are byte addresses and byte counts.
   */
  class KernelHeap {
    const frames: FrameAllocator
    const mem: array<Granule>
    var freeList: Word
    var arenaCount: int
    var backingBytes: int
    var usedBytes: int
    var usedHighWater: int
    var allocationFailures: int
    /** The list starting at freeList and the ranges it tiles. */
    ghost var blocks: seq<Block>
    ghost var arenas: seq<Arena>

    ghost function State(): Kernel
      reads this, mem, frames`state
    {
      Kernel(frames.state, mem[..], blocks, arenas, usedHighWater, allocationFailures)
    }

    /** The list fields describe a well-formed list in memory. */
    ghost predicate ListValid()
      reads this, mem
    {
      && mem.Length == GRANULES && Sorted(blocks) && Linked(mem[..], blocks)
      && freeList == NextOf(blocks, -1)
    }

    ghost predicate CountersMatch()
      reads this
    {
      && arenaCount == |arenas|
      && backingBytes == GRANULE * Mass(blocks)
      && usedBytes == GRANULE * Payload(blocks, false)
    }

    ghost predicate Valid()
      reads this, mem, frames, frames.usable, frames.usable.regions, frames.frameBitmap, frames.reservedBitmap
    {
      && mem as object != frames.frameBitmap && mem as object != frames.reservedBitmap
      && mem as object != frames.usable.regions
      && frames.Valid() && State().Inv() && CountersMatch()
      && freeList == NextOf(blocks, -1)
    }

    /** The state after a reset: no memory belongs to the heap. */
    constructor (frames: FrameAllocator)
      requires frames.Valid() && !frames.initialized
      ensures Valid() && this.frames == frames && fresh(mem)
      ensures blocks == [] && arenas == [] && usedHighWater == 0
    {
      this.frames := frames;
      mem := new Granule[GRANULES](_ => Granule(0, 0, 0, 0));
      freeList, arenaCount, backingBytes, usedBytes, usedHighWater, allocationFailures := 0, 0, 0, 0, 0, 0;
      blocks, arenas := [], [];
    }

    /** Whether the right block begins where block i ends; the overflow tests never fire. */
    method AreAdjacent(left: int, right: int, ghost i: int) returns (yes: bool)
      requires ListValid() && 0 <= i < |blocks| && blocks[i].at == left
      ensures yes <==> blocks[i].End() == right
    {
      assert HeaderAt(mem[..], blocks, i);
      var address := GRANULE * left;
      if address > U32_MAX - GRANULE { return false; }
      var payload := address + GRANULE;
      yes := mem[left].size <= U32_MAX - payload && payload + mem[left].size == GRANULE * right;
    }

    /** Cuts the block to n granules of payload and links the rest behind it as a free block. */
    method SplitBlock(block: int, n: int, ghost i: int)
      requires ListValid() && 0 <= i < |blocks| && blocks[i].at == block && 0 < n <= blocks[i].size
      modifies this`blocks, mem
      ensures ListValid() && blocks == Split(old(blocks), i, n)
      ensures SameBut(old(mem[..]), mem[..], block, RestAt(old(blocks)[i], n))
    {
      assert HeaderAt(mem[..], blocks, i);
      SplitShape(blocks, i, n);
      SplitAt(blocks, i, n);
      var remainder := mem[block].size - GRANULE * n;
      if remainder < GRANULE + MIN_ALLOCATION { return; }
      var rest := block + 1 + n;
      ghost var was, bs := mem[..], blocks;
      mem[rest] := Granule(remainder - GRANULE, mem[block].next, BLOCK_MAGIC, 1);
      mem[block] := mem[block].(size := GRANULE * n, next := GRANULE * rest);
      blocks := Split(bs, i, n);
      SplitLinked(was, mem[..], bs, i, n);
      SpliceAt(bs, i, 1, [Block(bs[i].at, n, bs[i].free), Block(rest, bs[i].size - n - 1, true)]);
    }

    /** Joins the block with the adjacent one after it. */
    method MergeBlocks(block: int, ghost i: int)
      requires ListValid() && 0 <= i && i + 1 < |blocks| && blocks[i].at == block
      requires Adjacent(blocks[i], blocks[i + 1])
      modifies this`blocks, mem
      ensures ListValid() && blocks == Merge(old(blocks), i)
      ensures SameBut(old(mem[..]), mem[..], block, block)
    {
      assert HeaderAt(mem[..], blocks, i) && HeaderAt(mem[..], blocks, i + 1);
      ghost var was, bs := mem[..], blocks;
      MergeShape(bs, i);
      var next := mem[block].next / GRANULE;
      mem[block] := mem[block].(size := mem[block].size + GRANULE + mem[next].size, next := mem[next].next);
      blocks := Merge(bs, i);
      MergeLinked(was, mem[..], bs, i);
      SpliceAt(bs, i, 2, [Block(bs[i].at, bs[i].size + 1 + bs[i + 1].size, bs[i].free)]);
    }

    /** Writes the free flag of block i. */
    method SetFlag(block: int, free: bool, ghost i: int)
      requires ListValid() && 0 <= i < |blocks| && blocks[i].at == block
      modifies this`blocks, mem
      ensures ListValid() && blocks == SetFree(old(blocks), i, free)
      ensures SameBut(old(mem[..]), mem[..], block, block)
    {
      assert HeaderAt(mem[..], blocks, i);
      ghost var was, bs := mem[..], blocks;
      SetFreeShape(bs, i, free);
      mem[block] := mem[block].(free := if free then 1 else 0);
      blocks := SetFree(bs, i, free);
      forall j ensures HeaderAt(mem[..], blocks, j) {
        assert HeaderAt(was, bs, j);
        assert Before(bs, i, j) && Before(bs, j, i);
      }
    }

    /** Joins block i with a free adjacent block after it. */
    method AbsorbNextBlock(block: int, ghost i: int)
      requires ListValid() && 0 <= i < |blocks| && blocks[i].at == block
      modifies this`blocks, mem
      ensures ListValid() && blocks == AbsorbNext(old(blocks), i)
      ensures SameBut(old(mem[..]), mem[..], block, block)
    {
      assert HeaderAt(mem[..], blocks, i) && HeaderAt(mem[..], blocks, i + 1);
      var next := mem[block].next / GRANULE;
      if next != 0 && mem[next].free != 0 && mem[next].magic == BLOCK_MAGIC {
        var adjacent := AreAdjacent(block, next, i);
        if adjacent {
          MergeBlocks(block, i);
        }
      }
    }

    /** Joins the block before block i with it when that one is free and adjacent. */
    method AbsorbPreviousBlock(previous: int, block: int, ghost i: int)
      requires ListValid() && 0 <= i < |blocks| && blocks[i].at == block
      requires previous == if i > 0 then blocks[i - 1].at else 0
      modifies this`blocks, mem
      ensures ListValid() && blocks == AbsorbPrevious(old(blocks), i)
      ensures var p := HeaderBefore(old(blocks), i, block); SameBut(old(mem[..]), mem[..], p, p)
    {
      if previous != 0 {
        assert HeaderAt(mem[..], blocks, i - 1);
        if mem[previous].free != 0 {
          var adjacent := AreAdjacent(previous, block, i - 1);
          if adjacent {
            MergeBlocks(previous, i - 1);
          }
        }
      }
    }

    /** Walks the list to the block whose payload starts at ptr; 0 when there is none. */
    method FindBlock(ptr: int) returns (block: int, ghost i: int)
      requires ListValid()
      ensures block != 0 ==> 0 <= i < |blocks| && blocks[i].at == block && PayloadAddress(block) == ptr
      ensures block == 0 ==> forall j :: 0 <= j < |blocks| ==> PayloadAddress(blocks[j].at) != ptr
    {
      i := 0;
      var current: int := freeList;
      while current != 0
        invariant 0 <= i <= |blocks| && current == NextOf(blocks, i - 1)
        invariant forall j :: 0 <= j < i ==> PayloadAddress(blocks[j].at) != ptr
        decreases |blocks| - i
      {
        assert HeaderAt(mem[..], blocks, i);
        var c := current / GRANULE;
        if mem[c].magic != BLOCK_MAGIC {
          assert false;
        }
        if current + GRANULE == ptr {
          return c, i;
        }
        current := mem[c].next;
        i := i + 1;
      }
      block := 0;
    }

    /** First fit: the free block of lowest address that holds n granules; 0 when there is none. */
    method FindFit(n: int) returns (block: int, ghost i: int)
      requires ListValid()
      ensures block != 0 ==> FirstFit(blocks, n, i) && blocks[i].at == block
      ensures block == 0 ==> NoFit(blocks, n)
    {
      i := 0;
      var current: int := freeList;
      while current != 0
        invariant 0 <= i <= |blocks| && current == NextOf(blocks, i - 1)
        invariant forall j :: 0 <= j < i ==> !Fits(blocks[j], n)
        decreases |blocks| - i
      {
        assert HeaderAt(mem[..], blocks, i);
        var c := current / GRANULE;
        if mem[c].magic != BLOCK_MAGIC {
          assert false;
        }
        if mem[c].free != 0 && mem[c].size >= GRANULE * n {
          return c, i;
        }
        current := mem[c].next;
        i := i + 1;
      }
      block := 0;
    }

    /** The block before the one at the given index, found by walking from the head; 0 for the first. */
    method FindPrevious(block: int, ghost i: int) returns (previous: int)
      requires ListValid() && 0 <= i < |blocks| && blocks[i].at == block
      ensures previous == if i > 0 then blocks[i - 1].at else 0
    {
      previous := 0;
      var current: int := freeList;
      ghost var j := 0;
      Distinct(blocks, i);
      while current != 0 && current != GRANULE * block
        invariant 0 <= j <= i && current == NextOf(blocks, j - 1)
        invariant previous == if j > 0 then blocks[j - 1].at else 0
        decreases i - j
      {
        assert HeaderAt(mem[..], blocks, j);
        previous := current / GRANULE;
        current := mem[previous].next;
        j := j + 1;
      }
    }

    /** Adds to the usage counter, which saturates, and lifts the high-water mark. */
    method UsageAdded(amount: int)
      requires 0 <= usedBytes && 0 <= amount
      modifies this`usedBytes, this`usedHighWater
      ensures usedBytes == if old(usedBytes) + amount <= U32_MAX then old(usedBytes) + amount else U32_MAX
      ensures usedHighWater == Max(old(usedHighWater), usedBytes)
    {
      if amount > U32_MAX - usedBytes {
        usedBytes := U32_MAX;
      } else {
        usedBytes := usedBytes + amount;
      }
      if usedBytes > usedHighWater {
        usedHighWater := usedBytes;
      }
    }

    /** Subtracts from the usage counter, which stops at zero. */
    method UsageRemoved(amount: int)
      requires 0 <= usedBytes && 0 <= amount
      modifies this`usedBytes
      ensures usedBytes == Max(old(usedBytes) - amount, 0)
    {
      usedBytes := if amount <= usedBytes then usedBytes - amount else 0;
    }

    method CountFailure()
      requires Valid()
      modifies this`allocationFailures
      ensures Valid() && State() == old(State()).Failed()
    {
      if allocationFailures != U64_MAX {
        allocationFailures := allocationFailures + 1;
      }
    }

    /** The list writes of an allocation: split, then mark used. */
    method CutAndMark(block: int, n: int, ghost i: int) returns (ghost m: seq<Granule>)
      requires ListValid() && 0 <= i < |blocks| && blocks[i].at == block && 0 < n <= blocks[i].size
      modifies this`blocks, mem
      ensures ListValid() && blocks == Take(old(blocks), i, n)
      ensures SameBut(old(mem[..]), m, block, RestAt(old(blocks)[i], n)) && SameBut(m, mem[..], block, block)
    {
      SplitAt(blocks, i, n);
      SplitBlock(block, n, i);
      m := mem[..];
      SetFlag(block, false, i);
    }

    /** Splits the fitting block, marks it used and accounts for it. */
    method TakeBlock(block: int, n: int, ghost i: int)
      requires Valid() && FirstFit(blocks, n, i) && 0 < n && blocks[i].at == block
      modifies this`blocks, mem, this`usedBytes, this`usedHighWater
      ensures Valid() && Carved(old(State()), old(blocks)[i], n, State())
    {
      ghost var k := State();
      SplitAt(blocks, i, n);
      ghost var m := CutAndMark(block, n, i);
      TakeInv(k, i, n, m, mem[..]);
      assert HeaderAt(mem[..], blocks, i);
      UsageAdded(mem[block].size);
    }

    /** The list writes of a release: mark free, then merge with the next and the previous block. */
    method MarkAndMerge(block: int, ghost i: int) returns (ghost m1: seq<Granule>, ghost m2: seq<Granule>)
      requires ListValid() && 0 <= i < |blocks| && blocks[i].at == block
      modifies this`blocks, mem
      ensures ListValid() && blocks == Release(old(blocks), i)
      ensures SameBut(old(mem[..]), m1, block, block) && SameBut(m1, m2, block, block)
      ensures var previous := HeaderBefore(old(blocks), i, block); SameBut(m2, mem[..], previous, previous)
    {
      SetFlag(block, true, i);
      m1 := mem[..];
      AbsorbNextBlock(block, i);
      m2 := mem[..];
      var previous := FindPrevious(block, i);
      AbsorbPreviousBlock(previous, block, i);
    }

    /** Marks live block i free, accounts for it and merges it. */
    method ReleaseBlock(block: int, ghost i: int)
      requires Valid() && 0 <= i < |blocks| && blocks[i].at == block && !blocks[i].free
      modifies this`blocks, mem, this`usedBytes
      ensures Valid() && Relisted(old(State()), State(), Live(old(blocks)) - {old(blocks)[i]})
      ensures usedHighWater == old(usedHighWater)
    {
      ghost var k := State();
      assert HeaderAt(mem[..], blocks, i);
      var released := mem[block].size;
      ghost var m1, m2 := MarkAndMerge(block, i);
      ReleaseInv(k, i, m1, m2, mem[..]);
      UsageRemoved(released);
    }

    /** Releases exactly live payload addresses; the list stays coalesced. */
    method KFree(ptr: int)
      requires Valid() && 0 <= ptr <= U32_MAX
      modifies this`blocks, mem, this`usedBytes
      ensures Valid() && KFreeStep(old(State()), ptr, State())
    {
      if ptr == 0 || !frames.initialized || ptr % GRANULE != 0 {
        assert NoLiveAddress(blocks, ptr);
        return;
      }
      var block, i := FindBlock(ptr);
      if block == 0 { return; }
      assert HeaderAt(mem[..], blocks, i);
      if mem[block].free != 0 {
        Distinct(blocks, i);
        return;
      }
      assert LiveAddress(blocks, ptr, i);
      ReleaseBlock(block, i);
    }

    /** Finds the place of a new block by walking the list, and links it in there. */
    method LinkBlock(block: int, ghost b: Block) returns (previous: int, ghost p: int)
      requires ListValid() && b.at == block && 0 < block && 0 < b.size && b.End() <= GRANULES && b.free
      requires forall g :: Holds(b, g) ==> !Covers(blocks, g)
      requires var h := mem[block]; h.size == GRANULE * b.size && h.magic == BLOCK_MAGIC && h.free == 1
      modifies this`blocks, this`freeList, mem
      ensures InsertsAt(old(blocks), p, block) && ListValid()
      ensures blocks == Splice(old(blocks), p, 0, [b])
      ensures previous == if p > 0 then old(blocks)[p - 1].at else 0
      ensures SameBut(old(mem[..]), mem[..], block, HeaderBefore(old(blocks), p, block))
    {
      ghost var was, bs := mem[..], blocks;
      previous, p := 0, 0;
      var current: Word := freeList;
      while current != 0 && current < GRANULE * block
        invariant 0 <= p <= |bs| && current == NextOf(bs, p - 1)
        invariant previous == if p > 0 then bs[p - 1].at else 0
        invariant p > 0 ==> bs[p - 1].at < block
        decreases |bs| - p
      {
        assert HeaderAt(mem[..], bs, p);
        previous := current / GRANULE;
        current := mem[previous].next;
        p := p + 1;
      }
      InsertPlace(bs, p, b);
      BetweenNeighbours(bs, p, b);
      assert HeaderAt(was, bs, p - 1);
      mem[block] := mem[block].(next := current);
      if previous == 0 {
        freeList := GRANULE * block;
      } else {
        mem[previous] := mem[previous].(next := GRANULE * block);
      }
      blocks := Splice(bs, p, 0, [b]);
      SortedOne(b);
      SpliceSorted(bs, p, 0, [b]);
      InsertLinked(was, mem[..], bs, p, b);
    }

    /** Puts a new free block into the list and merges it with its free neighbours. */
    method InsertBlock(block: int, ghost b: Block) returns (ghost p: int)
      requires ListValid() && b.at == block && 0 < block && 0 < b.size && b.End() <= GRANULES && b.free
      requires forall g :: Holds(b, g) ==> !Covers(blocks, g)
      requires var h := mem[block]; h.size == GRANULE * b.size && h.magic == BLOCK_MAGIC && h.free == 1
      modifies this`blocks, this`freeList, mem
      ensures InsertsAt(old(blocks), p, block) && ListValid()
      ensures blocks == Adopt(old(blocks), p, b)
      ensures SameBut(old(mem[..]), mem[..], block, HeaderBefore(old(blocks), p, block))
    {
      ghost var bs := blocks;
      var previous;
      previous, p := LinkBlock(block, b);
      SpliceAt(bs, p, 0, [b]);
      AbsorbNextBlock(block, p);
      AbsorbPreviousBlock(previous, block, p);
    }

    /** Pins frames for a new arena and puts it into the list as one free block. */
    method Extend(n: int) returns (ok: bool)
      requires Valid() && 0 < n && GRANULE * n <= U32_MAX && frames.initialized
      modifies this`blocks, this`arenas, this`freeList, this`arenaCount, this`backingBytes, mem
      modifies frames`freeFrameCount, frames`reservedFrameCount, frames`searchHint, frames`allocationFailures,
               frames`state, frames.frameBitmap, frames.reservedBitmap
      ensures Valid() && ExtendStep(old(State()), n, State(), ok)
    {
      var arenaSize := ArenaSize(n);
      if arenaSize == 0 { return false; }
      ghost var k := State();
      var address := frames.ReserveContiguous(arenaSize / FRAME_SIZE);
      assert PinStep(k.frames, ArenaBytes(n) / FRAME_SIZE, frames.state, address);
      if address == 0 {
        FailedPinInv(k, arenaSize / FRAME_SIZE, frames.state);
        return false;
      }
      ok := true;
      PinnedBelow(k.frames, arenaSize, frames.state, address);
      if address > U32_MAX - arenaSize {
        assert false;
      }
      AdoptArena(address / FRAME_SIZE, arenaSize / FRAME_SIZE, k);
    }

    /** The size of an arena that can hold a block of n granules; 0 when it overflows a word. */
    method ArenaSize(n: int) returns (arenaSize: int)
      requires 0 < n && GRANULE * n <= U32_MAX
      ensures ArenaOverflows(n) ==> arenaSize == 0
      ensures !ArenaOverflows(n) ==> arenaSize == ArenaBytes(n) && 0 < arenaSize && arenaSize % FRAME_SIZE == 0
    {
      if GRANULE * n > U32_MAX - GRANULE { return 0; }
      arenaSize := GRANULE * n + GRANULE;
      if arenaSize < HEAP_GROW_CHUNK { arenaSize := HEAP_GROW_CHUNK; }
      if arenaSize > U32_MAX - (FRAME_SIZE - 1) { return 0; }
      arenaSize := AlignUp(arenaSize, FRAME_SIZE);
    }

    /** Writes the header of a new arena and puts it into the list. */
    method PlaceArena(block: int, size: int) returns (ghost p: int)
      requires ListValid() && Coalesced(blocks) && 0 < block && 1 < size && block + size <= GRANULES
      requires forall g :: block <= g < block + size ==> !Covers(blocks, g)
      modifies this`blocks, this`freeList, mem
      ensures 0 <= p <= |old(blocks)| && ListValid() && Extended(old(blocks), block, size, blocks)
      ensures SameBut(old(mem[..]), mem[..], block, HeaderBefore(old(blocks), p, block))
    {
      ghost var was, bs := mem[..], blocks;
      mem[block] := Granule(GRANULE * (size - 1), 0, BLOCK_MAGIC, 1);
      forall i ensures HeaderAt(mem[..], blocks, i) {
        assert HeaderAt(was, blocks, i);
        assert 0 <= i < |blocks| ==> Holds(blocks[i], blocks[i].at) && Covers(blocks, blocks[i].at);
      }
      p := InsertBlock(block, Block(block, size - 1, true));
      AdoptExtends(bs, p, block, size);
    }

    method AccountArena(block: int, size: int)
      modifies this`arenas, this`arenaCount, this`backingBytes
      ensures arenaCount == old(arenaCount) + 1 && backingBytes == old(backingBytes) + GRANULE * size
      ensures arenas == old(arenas) + [Arena(block, block + size)]
    {
      arenaCount := arenaCount + 1;
      backingBytes := backingBytes + GRANULE * size;
      arenas := arenas + [Arena(block, block + size)];
    }

    /** Counts a new arena and puts it into the list. */
    method LinkArena(block: int, size: int) returns (ghost p: int)
      requires ListValid() && CountersMatch() && Coalesced(blocks) && 0 < block && 1 < size && block + size <= GRANULES
      requires forall g :: block <= g < block + size ==> !Covers(blocks, g)
      modifies this`blocks, this`arenas, this`freeList, this`arenaCount, this`backingBytes, mem
      ensures ListValid() && CountersMatch() && arenas == old(arenas) + [Arena(block, block + size)]
      ensures 0 <= p <= |old(blocks)| && Extended(old(blocks), block, size, blocks)
      ensures SameBut(old(mem[..]), mem[..], block, HeaderBefore(old(blocks), p, block))
    {
      AccountArena(block, size);
      p := PlaceArena(block, size);
    }

    /** Hands the freshly pinned frames r to r + n to the list. */
    method AdoptArena(r: int, n: int, ghost k: Kernel)
      requires mem as object != frames.frameBitmap && mem as object != frames.reservedBitmap
      requires mem as object != frames.usable.regions
      requires frames.Valid() && k.Inv() && CountersMatch() && freeList == NextOf(blocks, -1)
      requires State() == k.(frames := frames.state)
      requires 0 < n && r != 0 && PinStep(k.frames, n, frames.state, FRAME_SIZE * r)
      modifies this`blocks, this`arenas, this`freeList, this`arenaCount, this`backingBytes, mem
      ensures Valid() && frames.state == old(frames.state) && Adopted(k, r, n, State())
    {
      PinnedUncovered(k, n, frames.state, r);
      var block, size := FRAME_GRANULES * r, FRAME_GRANULES * n;
      ghost var p := LinkArena(block, size);
      ghost var after := Kernel(frames.state, mem[..], blocks, arenas, k.peak, k.failures);
      assert after.Inv() && Adopted(k, r, n, after) by {
        AdoptInv(k, n, frames.state, r, p, mem[..], blocks);
      }
      assert State() == after;
    }

    /** First fit; if nothing fits, one growth, after which the second scan succeeds. */
    method KMalloc(size: int) returns (ptr: int)
      requires Valid() && 0 <= size <= U32_MAX
      modifies this, mem
      modifies frames`freeFrameCount, frames`reservedFrameCount, frames`searchHint, frames`allocationFailures,
               frames`state, frames.frameBitmap, frames.reservedBitmap
      ensures Valid() && MallocStep(old(State()), size, State(), ptr)
    {
      if !frames.initialized || size == 0 || size > U32_MAX - (GRANULE - 1) {
        return 0;
      }
      var n := AlignUp(size, GRANULE) / GRANULE;
      ghost var k, m := State(), State();
      var attempt := 0;
      while attempt < 2
        invariant Valid() && State() == m && 0 <= attempt < 2 && frames.initialized
        invariant attempt == 0 ==> m == k
        invariant attempt == 1 ==> NoFit(k.blocks, n) && ExtendStep(k, n, m, true) && !NoFit(m.blocks, n)
        decreases 2 - attempt
      {
        var block, i := FindFit(n);
        if block != 0 {
          TakeBlock(block, n, i);
          assert TakeStep(m, n, State(), PayloadAddress(block));
          return GRANULE * (block + 1);
        }
        var grown := Extend(n);
        if !grown {
          ghost var failed := State();
          CountFailure();
          assert failed.Inv() && ExtendStep(k, n, failed, false);
          return 0;
        }
        m := State();
        GrowthSuffices(k, n, m);
        attempt := attempt + 1;
      }
    }

    /** The part of a reallocation done under the lock. */
    method ReallocLocked(ptr: int, n: int) returns (v: Verdict)
      requires Valid() && 0 < n
      modifies this`blocks, mem, this`usedBytes, this`usedHighWater
      ensures Valid() && ReallocStep(old(State()), ptr, n, State(), v)
    {
      var block, i := FindBlock(ptr);
      if block == 0 { return Missing; }
      assert HeaderAt(mem[..], blocks, i) && HeaderAt(mem[..], blocks, i + 1);
      if mem[block].free != 0 {
        Distinct(blocks, i);
        return Missing;
      }
      assert LiveAddress(blocks, ptr, i);
      var oldSize := mem[block].size;
      if GRANULE * n <= oldSize {
        return Stays;
      }
      var next := mem[block].next / GRANULE;
      if next != 0 && mem[next].magic == BLOCK_MAGIC && mem[next].free != 0 {
        var adjacent := AreAdjacent(block, next, i);
        if adjacent && oldSize + GRANULE + mem[next].size >= GRANULE * n {
          GrowBlock(block, n, i);
          return Grown;
        }
      }
      return Moves(oldSize / GRANULE);
    }

    /** Joins live block i with the free one after it and cuts the result to n granules. */
    method GrowBlock(block: int, n: int, ghost i: int)
      requires Valid() && 0 <= i < |blocks| && blocks[i].at == block && !blocks[i].free
      requires blocks[i].size < n && Growable(blocks, i, n)
      modifies this`blocks, mem, this`usedBytes, this`usedHighWater
      ensures Valid()
      ensures Relisted(old(State()), State(),
                       Live(old(blocks)) - {old(blocks)[i]} + {Portion(Joined(old(blocks), i), n)})
      ensures usedHighWater == Max(old(usedHighWater), State().Used())
    {
      ghost var k := State();
      assert HeaderAt(mem[..], blocks, i);
      var oldSize := mem[block].size;
      ghost var m1 := JoinAndCut(block, n, i);
      GrowInv(k, i, n, m1, mem[..]);
      assert HeaderAt(mem[..], blocks, i);
      UsageAdded(mem[block].size - oldSize);
    }

    method JoinAndCut(block: int, n: int, ghost i: int) returns (ghost m1: seq<Granule>)
      requires ListValid() && 0 <= i && i + 1 < |blocks| && blocks[i].at == block
      requires Adjacent(blocks[i], blocks[i + 1]) && 0 < n <= blocks[i].size + 1 + blocks[i + 1].size
      modifies this`blocks, mem
      ensures ListValid() && blocks == Grow(old(blocks), i, n) && i < |blocks| && blocks[i].at == block
      ensures SameBut(old(mem[..]), m1, block, block)
      ensures SameBut(m1, mem[..], block, RestAt(Merge(old(blocks), i)[i], n))
    {
      ghost var bs := blocks;
      MergeBlocks(block, i);
      SpliceAt(bs, i, 2, [Joined(bs, i)]);
      m1 := mem[..];
      SplitAt(blocks, i, n);
      SplitBlock(block, n, i);
    }

    /** memcpy from one payload into the payload of block i. */
    method CopyGranules(dst: int, src: int, count: int, ghost i: int)
      requires Valid() && 0 <= count && 0 <= src && src + count <= mem.Length
      requires 0 <= i < |blocks| && blocks[i].at + 1 == dst && dst + count <= blocks[i].End()
      requires src + count <= dst || dst + count <= src
      modifies mem
      ensures Valid() && CopyStep(old(State()), dst, src, count, State())
    {
      ghost var k := State();
      assert HeaderAt(k.mem, blocks, i);
      var j := 0;
      while j < count
        invariant 0 <= j <= count
        invariant forall g :: dst <= g < dst + j ==> mem[g] == k.mem[src + g - dst]
        invariant forall g :: 0 <= g < mem.Length && !(dst <= g < dst + j) ==> mem[g] == k.mem[g]
        modifies mem
      {
        mem[dst + j] := mem[src + j];
        j := j + 1;
      }
      CopyInv(k, dst, src, count, State(), i);
    }

    /** k_realloc called with no other call in between. */
    method KRealloc(ptr: int, newSize: int) returns (r: int)
      requires Valid() && 0 <= ptr <= U32_MAX && 0 <= newSize <= U32_MAX
      modifies this, mem
      modifies frames`freeFrameCount, frames`reservedFrameCount, frames`searchHint, frames`allocationFailures,
               frames`state, frames.frameBitmap, frames.reservedBitmap
      ensures Valid() && KReallocStep(old(State()), ptr, newSize, State(), r)
    {
      if ptr == 0 {
        r := KMalloc(newSize);
        return;
      }
      if newSize == 0 {
        KFree(ptr);
        return 0;
      }
      if newSize > U32_MAX - (GRANULE - 1) { return 0; }
      r := Resize(ptr, AlignUp(newSize, GRANULE) / GRANULE);
    }

    method Resize(ptr: int, n: int) returns (r: int)
      requires Valid() && 0 < ptr <= U32_MAX && 0 < n && GRANULE * n <= U32_MAX
      modifies this, mem
      modifies frames`freeFrameCount, frames`reservedFrameCount, frames`searchHint, frames`allocationFailures,
               frames`state, frames.frameBitmap, frames.reservedBitmap
      ensures Valid() && ResizeStep(old(State()), ptr, n, State(), r)
    {
      ghost var k := State();
      var v := ReallocLocked(ptr, n);
      ghost var m := State();
      assert m.Inv() && ReallocStep(k, ptr, n, m, v);
      if v.Moves? {
        r := Move(ptr, v.size, GRANULE * n);
      } else {
        r := if v.Missing? then 0 else ptr;
      }
      assert Settled(m, v, ptr, n, State(), r);
    }

    /** The move path: allocate, copy, release. */
    method Move(ptr: int, count: int, size: int) returns (r: int)
      requires Valid() && 0 < size <= U32_MAX && 0 <= ptr <= U32_MAX
      requires exists i :: LiveAddress(blocks, ptr, i) && blocks[i].size == count && count < Granules(size)
      modifies this, mem
      modifies frames`freeFrameCount, frames`reservedFrameCount, frames`searchHint, frames`allocationFailures,
               frames`state, frames.frameBitmap, frames.reservedBitmap
      ensures Valid() && MoveStep(old(State()), ptr, count, size, State(), r)
    {
      ghost var k := State();
      ghost var j :| LiveAddress(blocks, ptr, j) && blocks[j].size == count;
      r := KMalloc(size);
      if r == 0 { return; }
      ghost var m1 := State();
      ghost var i := MallocGrants(k, size, m1, r);
      ghost var j' := LiveIndex(m1.blocks, k.blocks[j]);
      LivePayloadsApart(m1.blocks, i, j');
      assert HeaderAt(m1.mem, m1.blocks, j');
      CopyGranules(r / GRANULE, ptr / GRANULE, count, i);
      ghost var m2 := State();
      KFree(ptr);
      assert m1.Inv() && m2.Inv();
    }

    /** Frame allocation beside the heap: it never touches memory the heap owns. */
    method AllocateFrame(minimum: int, user: bool) returns (address: int)
      requires Valid() && 0 <= minimum <= U32_MAX
      modifies frames`freeFrameCount, frames`allocatedFrameCount, frames`allocatedHighWater,
               frames`searchHint, frames`allocationFailures, frames`state, frames.frameBitmap
      ensures Valid() && State() == old(State()).(frames := frames.state)
      ensures AllocateStep(old(frames.state), minimum, user, frames.state, address)
    {
      ghost var k := State();
      address := frames.AllocateFrom(minimum, user);
      AllocateInv(k, minimum, user, frames.state, address);
    }

    method ReleaseFrame(address: int)
      requires Valid() && 0 <= address <= U32_MAX
      modifies frames`freeFrameCount, frames`allocatedFrameCount, frames`searchHint, frames`state, frames.frameBitmap
      ensures Valid() && State() == old(State()).(frames := frames.state)
      ensures FreeStep(old(frames.state), address, frames.state)
    {
      ghost var k := State();
      frames.FreeFrame(address);
      ReleaseInvFrames(k, address, frames.state);
    }

    /** The heap part of the statistics; recounting never changes the usage counter. */
    method HeapStats() returns (stats: HeapStatistics)
      requires Valid()
      modifies this`usedBytes
      ensures Valid() && State() == old(State()) && usedBytes == old(usedBytes)
      ensures stats.capacity == GRANULE * ArenaMass(arenas, |arenas|) && stats.arenaCount == |arenas|
      ensures stats.used == State().Used() && stats.peak == State().peak && stats.failures == State().failures
      ensures stats.capacity == stats.used + stats.free + GRANULE * |blocks|
      ensures LargestFree(blocks, stats.largest)
    {
      ghost var k := State();
      SumsFit(k.mem, blocks);
      var free, used, largest := 0, 0, 0;
      var current: int := freeList;
      ghost var i := 0;
      while current != 0
        invariant 0 <= i <= |blocks| && current == NextOf(blocks, i - 1)
        invariant free == GRANULE * PayloadTo(blocks, i, true) && used == GRANULE * PayloadTo(blocks, i, false)
        invariant forall j :: 0 <= j < i && blocks[j].free ==> GRANULE * blocks[j].size <= largest
        invariant largest == 0 || exists j :: 0 <= j < i && blocks[j].free && GRANULE * blocks[j].size == largest
        invariant largest == 0 ==> forall j :: 0 <= j < i ==> !blocks[j].free
        decreases |blocks| - i
      {
        assert HeaderAt(mem[..], blocks, i);
        var c := current / GRANULE;
        if mem[c].magic != BLOCK_MAGIC {
          assert false;
        }
        if mem[c].free != 0 {
          free := free + mem[c].size;
          if mem[c].size > largest { largest := mem[c].size; }
        } else {
          used := used + mem[c].size;
        }
        current := mem[c].next;
        i := i + 1;
      }
      usedBytes := used;
      if usedBytes > usedHighWater {
        assert false;
      }
      stats := HeapStatistics(backingBytes, arenaCount, free, largest, used, usedHighWater, allocationFailures);
    }
  }

  datatype HeapStatistics = HeapStatistics(
    capacity: int, arenaCount: int, free: int, largest: int, used: int, peak: int, failures: int)

  /** The payload size in bytes of a largest free block, 0 when no block is free. */
  ghost predicate LargestFree(bs: seq<Block>, largest: int) {
    && (forall j :: 0 <= j < |bs| && bs[j].free ==> GRANULE * bs[j].size <= largest)
    && (largest == 0 || exists j :: 0 <= j < |bs| && bs[j].free && GRANULE * bs[j].size == largest)
  }

  lemma InsertPlace(bs: seq<Block>, p: int, b: Block)
    requires Sorted(bs) && 0 <= p <= |bs| && (p > 0 ==> bs[p - 1].at < b.at)
    requires p < |bs| ==> b.at <= bs[p].at
    requires 0 < b.size && forall g :: Holds(b, g) ==> !Covers(bs, g)
    ensures InsertsAt(bs, p, b.at)
  {
    if p < |bs| {
      assert Holds(bs[p], bs[p].at);
      assert Covers(bs, bs[p].at);
      assert !Holds(b, bs[p].at);
    }
    forall j ensures Sides(bs, p, b.at, j) {
      assert Before(bs, j, p - 1) && Before(bs, p, j);
    }
  }

  lemma InsertLinked(was: seq<Granule>, mem: seq<Granule>, bs: seq<Block>, p: int, b: Block)
    requires Linked(was, bs) && Sorted(bs) && InsertsAt(bs, p, b.at)
    requires 0 < b.at < b.End() <= |mem| && b.free
    requires var previous := HeaderBefore(bs, p, b.at);
             && SameBut(was, mem, b.at, previous)
             && (p > 0 ==> 0 <= previous < |mem| && mem[previous] == was[previous].(next := mem[previous].next)
                           && mem[previous].next == GRANULE * b.at)
    requires var h := mem[b.at];
             h.size == GRANULE * b.size && h.next == NextOf(bs, p - 1) && h.magic == BLOCK_MAGIC && h.free == 1
    ensures Linked(mem, Splice(bs, p, 0, [b]))
  {
    var t := Splice(bs, p, 0, [b]);
    SpliceAt(bs, p, 0, [b]);
    forall j ensures HeaderAt(mem, t, j) {
      var k := if j <= p then j else j - 1;
      assert HeaderAt(was, bs, k) && Sides(bs, p, b.at, k);
      assert Before(bs, k, p - 1) && Before(bs, p - 1, k);
    }
  }

  /** Re-linking after a split: every other header stays where and what it was. */
  lemma SplitLinked(was: seq<Granule>, mem: seq<Granule>, bs: seq<Block>, i: int, n: int)
    requires Linked(was, bs) && Sorted(bs) && 0 <= i < |bs| && 0 < n && bs[i].size - n >= 2
    requires var rest := bs[i].at + 1 + n;
             && SameBut(was, mem, bs[i].at, rest)
             && 0 <= bs[i].at && rest < |mem|
             && mem[bs[i].at].size == GRANULE * n && mem[bs[i].at].next == GRANULE * rest
             && mem[bs[i].at].magic == BLOCK_MAGIC && mem[bs[i].at].free == (if bs[i].free then 1 else 0)
             && mem[rest].size == GRANULE * (bs[i].size - n - 1) && mem[rest].next == NextOf(bs, i)
             && mem[rest].magic == BLOCK_MAGIC && mem[rest].free == 1
    ensures Linked(mem, Split(bs, i, n))
  {
    var t := Split(bs, i, n);
    SpliceAt(bs, i, 1, [Block(bs[i].at, n, bs[i].free), Block(bs[i].at + 1 + n, bs[i].size - n - 1, true)]);
    forall j ensures HeaderAt(mem, t, j) {
      var k := if j <= i then j else j - 1;
      assert HeaderAt(was, bs, k);
      assert Before(bs, k, i) && Before(bs, i, k);
    }
  }

  lemma MergeLinked(was: seq<Granule>, mem: seq<Granule>, bs: seq<Block>, i: int)
    requires Linked(was, bs) && Sorted(bs) && 0 <= i && i + 1 < |bs| && Adjacent(bs[i], bs[i + 1])
    requires 0 <= bs[i].at < |mem| && SameBut(was, mem, bs[i].at, bs[i].at)
    requires var h := mem[bs[i].at];
             && h.size == GRANULE * (bs[i].size + 1 + bs[i + 1].size) && h.next == NextOf(bs, i + 1)
             && h.magic == BLOCK_MAGIC && h.free == if bs[i].free then 1 else 0
    ensures Linked(mem, Merge(bs, i))
  {
    var t := Merge(bs, i);
    SpliceAt(bs, i, 2, [Block(bs[i].at, bs[i].size + 1 + bs[i + 1].size, bs[i].free)]);
    forall j ensures HeaderAt(mem, t, j) {
      var k := if j <= i then j else j + 1;
      assert HeaderAt(was, bs, k) && HeaderAt(was, bs, i + 1);
      assert Before(bs, k, i) && Before(bs, i, k);
    }
  }
}
