/**
 * A machine with the memory and the stack end of the memory manager's own host
 * test, 128 MiB and 52 MiB, and with the ranges that every boot of the kernel
 * reserves: the SMP trampoline, the crash record and the kernel stack arena.
 * A whole run on it, from registering its memory to an allocation that fails.
 */
module HostMachine {
  import opened Machine
  import opened Regions
  import opened FrameSpec
  import opened Frames
  import opened Blocks
  import opened HeapSpec
  import opened HeapLemmas
  import opened Heap
  import opened Boot
  import opened Runs
  import opened Guarantees
  import Numbers

  const STACK_END := 0x340_0000
  const MEMORY_END := 0x800_0000
  const MEMORY := [Region(0, MEMORY_END)]
  const RESERVED := [Region(0x7000, 0x1000), Region(0x3_0000, 0x1000), Region(0x3FF0_0000, 0xC_0000)]
  const LAYOUT := Layout(STACK_END, 4096, STACK_END + 0x2000)
  const HEAP_END := STACK_END + 0x2000 + MEGABYTE

  /** Above the stack exactly the bytes below 128 MiB are usable. */
  lemma UsableAbove(x: int, size: int)
    requires STACK_END <= x && 0 < size
    ensures RangeUsable(MEMORY, RESERVED, x, size) <==> x + size <= MEMORY_END
  {
    if x + size <= MEMORY_END {
      forall y | x <= y < x + size ensures Contains(MEMORY, y) && !Contains(RESERVED, y) {
        assert InRegion(MEMORY[0], y);
      }
    } else {
      assert !Contains(MEMORY, x + size - 1);
    }
  }

  /** The tables are ones the kernel can hold, the layout is the one computed, and the heap fits. */
  lemma BootPossible()
    ensures Normalized(MEMORY) && Normalized(RESERVED) && Highest(MEMORY, MEMORY_END)
    ensures LEAST_STACK_END <= STACK_END <= KERNEL_CEILING
    ensures IsLayout(LAYOUT, STACK_END, FramesBelow(MEMORY_END))
    ensures HeapCanEndAt(MEMORY, RESERVED, LAYOUT, HEAP_END)
  {
    assert MEMORY_END == Numbers.Min(MEMORY[0].End(), PHYSICAL_LIMIT);
    UsableAbove(STACK_END, HEAP_END - STACK_END);
  }

  /** Its free frames after boot are the 19198 frames from the heap end on, in one run. */
  lemma FreeAfterBoot(k: Kernel, limit: int)
    requires Booted(k, MEMORY, RESERVED, LAYOUT, limit)
    ensures limit == HEAP_END && forall g :: k.frames.IsFree(g) <==> 13570 <= g < 32768
  {
    BootPossible();
    forall g ensures k.frames.IsFree(g) <==> 13570 <= g < 32768 {
      if 13570 <= g < LIMIT_FRAMES {
        UsableAbove(FRAME_SIZE * g, FRAME_SIZE);
      }
    }
  }

  /** All of them are free, and k_malloc of 40 MiB asks for 10241 of them. */
  lemma OneRun(k: Kernel, limit: int)
    requires Booted(k, MEMORY, RESERVED, LAYOUT, limit)
    ensures RunFree(k.frames, 13570, 19198) && RunsWithin(k.frames, 10241, 13570, 32768)
    ensures FramesAsked(40 * MEGABYTE) == 10241 && !ArenaOverflows(Granules(40 * MEGABYTE))
  {
    FreeAfterBoot(k, limit);
    RunsInside(k.frames, 10241, 13570, 32768);
  }

  /** On that machine k_malloc of 40 MiB is met right after boot. */
  lemma Granted(k: Kernel, limit: int, k': Kernel, p: int)
    requires Booted(k, MEMORY, RESERVED, LAYOUT, limit) && Step(k, Malloc(40 * MEGABYTE), k', p)
    ensures p != 0
  {
    OneRun(k, limit);
    LargeGranted(k, MEMORY, RESERVED, LAYOUT, limit, 13570, 32768, 40 * MEGABYTE, k', p);
  }

  /**
   * On that machine: after the frame at 92 MiB was allocated and released,
   * k_malloc of 40 MiB fails, with 19198 contiguous frames free and 10241 asked for.
   */
  lemma Missed(k: Kernel, limit: int, k1: Kernel, r: int, k2: Kernel, q: int, k3: Kernel, p: int)
    requires Booted(k, MEMORY, RESERVED, LAYOUT, limit)
    requires Step(k, AllocateFrame(92 * MEGABYTE, false), k1, r) && Step(k1, ReleaseFrame(r), k2, q)
    requires Step(k2, Malloc(40 * MEGABYTE), k3, p)
    ensures p == 0 && RunFree(k2.frames, 13570, 19198) && FramesAsked(40 * MEGABYTE) == 10241
  {
    OneRun(k, limit);
    FreeRunMissed(k, MEMORY, RESERVED, LAYOUT, limit, 13570, 32768, 23552, 40 * MEGABYTE,
                  k1, r, k2, q, k3, p);
  }

  lemma RunsInside(s: FrameState, n: int, lo: int, hi: int)
    requires 0 < n && forall g :: s.IsFree(g) ==> lo <= g < hi
    ensures RunsWithin(s, n, lo, hi)
  {
    forall q {:trigger RunFree(s, q, n)} | 1 <= q && q + n <= s.Size() && RunFree(s, q, n)
      ensures lo <= q && q + n <= hi
    {
      assert s.IsFree(q) && s.IsFree(q + n - 1);
    }
  }

  lemma InTable(x: int)
    ensures Contains(MEMORY, x) <==> 0 <= x < MEMORY_END
    ensures Contains(RESERVED[2..], x) <==> 0x3FF0_0000 <= x < 0x3FFC_0000
    ensures Contains(RESERVED[1..], x) <==> 0x3_0000 <= x < 0x3_1000 || 0x3FF0_0000 <= x < 0x3FFC_0000
    ensures Contains(RESERVED, x)
       <==> 0x7000 <= x < 0x8000 || 0x3_0000 <= x < 0x3_1000 || 0x3FF0_0000 <= x < 0x3FFC_0000
  {
    ContainsFirst(MEMORY, x);
    ContainsFirst(RESERVED, x);
    ContainsFirst(RESERVED[1..], x);
    ContainsFirst(RESERVED[2..], x);
  }

  lemma ContainsFirst(s: seq<Region>, x: int)
    requires s != []
    ensures Contains(s, x) <==> InRegion(s[0], x) || Contains(s[1..], x)
  {
    if i :| 0 <= i < |s| && InRegion(s[i], x) {
      assert i > 0 ==> InRegion(s[1..][i - 1], x);
    }
    if i :| 0 <= i < |s[1..]| && InRegion(s[1..][i], x) {
      assert InRegion(s[i + 1], x);
    }
  }

  /** One registration that is not refused. */
  method Register(table: RegionTable, base: int, length: int, ghost wanted: seq<Region>)
    requires table.Valid() && table.count < MAX_REGIONS && 0 <= base < U64_MAX && 0 < length <= U64_MAX - base
    requires Normalized(wanted)
    requires forall x :: Contains(wanted, x) <==> Contains(table.View(), x) || base <= x < base + length
    modifies table, table.regions
    ensures table.Valid() && table.View() == wanted
  {
    var ok := table.Add(base, length);
    NormalForm(table.View(), wanted);
  }

  /** The usable memory of the host test. */
  method RegisterMemory() returns (usable: RegionTable)
    ensures fresh(usable) && fresh(usable.regions) && usable.Valid() && usable.View() == MEMORY
  {
    usable := new RegionTable();
    forall x ensures Contains(MEMORY, x) <==> 0 <= x < MEMORY_END {
      InTable(x);
    }
    Register(usable, 0, MEMORY_END, MEMORY);
  }

  /** The ranges that every boot reserves, in the order of the calls. */
  method RegisterReserved() returns (reserved: RegionTable)
    ensures fresh(reserved) && fresh(reserved.regions) && reserved.Valid() && reserved.View() == RESERVED
  {
    reserved := new RegionTable();
    forall x ensures
      && (Contains(RESERVED[2..], x) <==> 0x3FF0_0000 <= x < 0x3FFC_0000)
      && (Contains(RESERVED[1..], x) <==> 0x3_0000 <= x < 0x3_1000 || Contains(RESERVED[2..], x))
      && (Contains(RESERVED, x) <==> 0x7000 <= x < 0x8000 || Contains(RESERVED[1..], x))
    {
      InTable(x);
    }
    Register(reserved, 0x3FF0_0000, 0xC_0000, RESERVED[2..]);
    Register(reserved, 0x3_0000, 0x1000, RESERVED[1..]);
    Register(reserved, 0x7000, 0x1000, RESERVED);
  }

  /** Boots that machine. */
  method BootMachine() returns (heap: KernelHeap, ghost limit: int)
    ensures fresh(heap) && fresh(heap.mem) && fresh(heap.frames)
    ensures fresh(heap.frames.frameBitmap) && fresh(heap.frames.reservedBitmap)
    ensures heap.Valid() && Booted(heap.State(), MEMORY, RESERVED, LAYOUT, limit)
  {
    var usable := RegisterMemory();
    var reserved := RegisterReserved();
    var frames := new FrameAllocator(usable);
    heap := new KernelHeap(frames);
    BootPossible();
    var ok, l, end := Initialize(heap, reserved, STACK_END);
    LayoutUnique(l, LAYOUT, STACK_END, FramesBelow(MEMORY_END));
    limit := end;
  }

  /** The whole run: boot, one frame taken and given back, and a request of 40 MiB that fails. */
  method RunFails() returns (p: int, ghost free: FrameState)
    ensures p == 0 && RunFree(free, 13570, 19198) && FramesAsked(40 * MEGABYTE) == 10241
  {
    var heap, limit := BootMachine();
    ghost var k := heap.State();
    var r := Perform(heap, AllocateFrame(92 * MEGABYTE, false));
    ghost var k1 := heap.State();
    FrameTaken(k, limit, k1, r);
    var q := Perform(heap, ReleaseFrame(r));
    ghost var k2 := heap.State();
    free := k2.frames;
    p := Perform(heap, Malloc(40 * MEGABYTE));
    Missed(k, limit, k1, r, k2, q, heap.State(), p);
  }

  lemma FrameTaken(k: Kernel, limit: int, k1: Kernel, r: int)
    requires Booted(k, MEMORY, RESERVED, LAYOUT, limit)
    requires Step(k, AllocateFrame(92 * MEGABYTE, false), k1, r)
    ensures r == 92 * MEGABYTE
  {
    FreeAfterBoot(k, limit);
    assert k.frames.IsFree(23552);
  }
}
