/**
 * Whole runs of the memory manager: any sequence of frame and heap calls and
 * of client writes, in the order in which the locks let them happen.
 */
module Runs {
  import opened Machine
  import opened Regions
  import opened FrameSpec
  import opened Frames
  import opened Blocks
  import opened Canonical
  import opened HeapSpec
  import opened HeapLemmas
  import opened Boot
  import opened Heap

  /** One atomic step; a resize is the locked part of a reallocation, a write is a client's own. */
  datatype Op =
    | AllocateFrame(minimum: int, user: bool)
    | ReleaseFrame(address: int)
    | Malloc(size: int)
    | Release(ptr: int)
    | Resize(ptr: int, n: int)
    | Write(owner: Block, at: int, value: Granule)

  /** A client writes only inside a payload that is live. */
  ghost predicate WriteStep(k: Kernel, owner: Block, at: int, value: Granule, k': Kernel) {
    && owner in Live(k.blocks) && owner.at < at < owner.End() && 0 <= at < |k.mem|
    && k' == k.(mem := k.mem[at := value])
  }

  ghost predicate Step(k: Kernel, op: Op, k': Kernel, r: int) {
    && k'.Inv()
    && match op
       case AllocateFrame(minimum, user) =>
         AllocateStep(k.frames, minimum, user, k'.frames, r) && k' == k.(frames := k'.frames)
       case ReleaseFrame(address) => FrameSpec.FreeStep(k.frames, address, k'.frames) && k' == k.(frames := k'.frames)
       case Malloc(size) => MallocStep(k, size, k', r)
       case Release(ptr) => KFreeStep(k, ptr, k')
       case Resize(ptr, n) => exists v :: ReallocStep(k, ptr, n, k', v)
       case Write(owner, at, value) => WriteStep(k, owner, at, value, k')
  }

  datatype Event = Event(op: Op, result: int, after: Kernel)

  ghost predicate Run(k: Kernel, es: seq<Event>)
    decreases |es|
  {
    es == [] || (Step(k, es[0].op, es[0].after, es[0].result) && Run(es[0].after, es[1..]))
  }

  ghost function Last(k: Kernel, es: seq<Event>): Kernel
    decreases |es|
  {
    if es == [] then k else Last(es[0].after, es[1..])
  }

  /** A client's write is a step: it cannot break the heap. */
  lemma WriteIsStep(k: Kernel, owner: Block, at: int, value: Granule)
    requires k.Inv() && owner in Live(k.blocks) && owner.at < at < owner.End()
    ensures 0 <= at < |k.mem| && k.(mem := k.mem[at := value]).Inv()
    ensures Kept(k.mem, k.mem[at := value], Live(k.blocks) - {owner})
  {
    var i := LiveIndex(k.blocks, owner);
    assert HeaderAt(k.mem, k.blocks, i);
    PayloadWritesKeepLinks(k.mem, k.mem[at := value], k.blocks, i);
    PayloadWritesKeepOthers(k.mem, k.mem[at := value], k.blocks, i);
  }

  /** What a caller may ask: words as arguments, a resize to something, and writes to one's own payload. */
  ghost predicate Callable(k: Kernel, op: Op) {
    match op
    case AllocateFrame(minimum, user) => 0 <= minimum <= U32_MAX
    case ReleaseFrame(address) => 0 <= address <= U32_MAX
    case Malloc(size) => 0 <= size <= U32_MAX
    case Release(ptr) => 0 <= ptr <= U32_MAX
    case Resize(ptr, n) => 0 < n
    case Write(owner, at, value) => owner in Live(k.blocks) && owner.at < at < owner.End()
  }

  /**
   * Every call of the frame allocator and of the heap, and every write of a
   * client to its own payload, is a step.
   */
  method Perform(heap: KernelHeap, op: Op) returns (r: int)
    requires heap.Valid() && Callable(heap.State(), op)
    modifies heap, heap.mem, heap.frames, heap.frames.frameBitmap, heap.frames.reservedBitmap
    ensures heap.Valid() && Step(old(heap.State()), op, heap.State(), r)
    ensures heap.frames.frameBitmap == old(heap.frames.frameBitmap)
    ensures heap.frames.reservedBitmap == old(heap.frames.reservedBitmap)
  {
    r := 0;
    match op
    case AllocateFrame(minimum, user) => r := heap.AllocateFrame(minimum, user);
    case ReleaseFrame(address) => heap.ReleaseFrame(address);
    case Malloc(size) => r := heap.KMalloc(size);
    case Release(ptr) => heap.KFree(ptr);
    case Resize(ptr, n) =>
      var v := heap.ReallocLocked(ptr, n);
    case Write(owner, at, value) => PerformWrite(heap, owner, at, value);
  }

  method PerformWrite(heap: KernelHeap, ghost owner: Block, at: int, value: Granule)
    requires heap.Valid() && owner in Live(heap.blocks) && owner.at < at < owner.End()
    modifies heap.mem
    ensures heap.Valid() && WriteStep(old(heap.State()), owner, at, value, heap.State())
  {
    ghost var k := heap.State();
    WriteIsStep(k, owner, at, value);
    heap.mem[at] := value;
    assert heap.State() == k.(mem := k.mem[at := value]);
  }

  lemma PinStepSecures(s: FrameState, n: int, s': FrameState, r: int, f: int)
    requires PinStep(s, n, s', r) && s.Wf() && 0 <= n
    ensures s'.Size() == s.Size() && s'.ready == s.ready
    ensures Secured(s.kinds, f) ==> Secured(s'.kinds, f)
    ensures 0 <= f < s.Size() && s.kinds[f] == Allocated ==> s'.kinds[f] == Allocated
  {
    if s'.kinds != s.kinds {
      var run := r / FRAME_SIZE;
      PinnedManaged(s, run, n);
      assert run <= f < run + n ==> s.IsFree(f);
      MarkedAt(s.kinds, run, run + n, Reserved);
    }
  }

  lemma ExtendFrames(k: Kernel, n: int, m: Kernel, ok: bool)
    requires k.Inv() && ExtendStep(k, n, m, ok)
    ensures m.frames == k.frames || exists n, a :: 0 <= n && PinStep(k.frames, n, m.frames, a)
    ensures k.arenas <= m.arenas
  {
    if !ArenaOverflows(n) {
      var count := ArenaBytes(n) / FRAME_SIZE;
      var a :| PinStep(k.frames, count, m.frames, a) && ok == (a != 0);
      ArenaHolds(n);
      assert 0 <= count;
    }
  }

  /** What a heap step does to the frames, if anything, is one pin step. */
  lemma MallocFrames(k: Kernel, size: int, k': Kernel, r: int)
    requires k.Inv() && MallocStep(k, size, k', r)
    ensures k'.frames == k.frames || exists n, a :: 0 <= n && PinStep(k.frames, n, k'.frames, a)
    ensures k.arenas <= k'.arenas
  {
    if k.frames.ready && size != 0 && size <= U32_MAX - (GRANULE - 1) && NoFit(k.blocks, Granules(size)) {
      var n := Granules(size);
      var m: Kernel, ok :| m.Inv() && ExtendStep(k, n, m, ok)
        && if ok then TakeStep(m, n, k', r) else k' == m.Failed() && r == 0;
      ExtendFrames(k, n, m, ok);
    }
  }

  /** Secured frames stay secured, arenas only grow, and no frame changes whether it is managed. */
  lemma StepSecures(k: Kernel, op: Op, k': Kernel, r: int, f: int)
    requires k.Inv() && Step(k, op, k', r)
    ensures k'.frames.Size() == k.frames.Size() && k.arenas <= k'.arenas
    ensures Secured(k.frames.kinds, f) ==> Secured(k'.frames.kinds, f)
    ensures op.AllocateFrame? && r != 0 ==> !Secured(k.frames.kinds, r / FRAME_SIZE) && r % FRAME_SIZE == 0
  {
    match op
    case Malloc(size) =>
      MallocFrames(k, size, k', r);
      if k'.frames != k.frames {
        var n, a :| 0 <= n && PinStep(k.frames, n, k'.frames, a);
        PinStepSecures(k.frames, n, k'.frames, a, f);
      }
    case AllocateFrame(minimum, user) =>
    case ReleaseFrame(address) =>
    case Release(ptr) =>
    case Resize(ptr, n) =>
    case Write(owner, at, value) =>
  }

  /**
   * A frame that is reserved or unmanaged at one time is never handed out
   * afterwards: no call returns it and no call releases it.
   */
  lemma {:induction false} SecuredForever(k: Kernel, es: seq<Event>, f: int)
    requires k.Inv() && Run(k, es) && Secured(k.frames.kinds, f)
    ensures Secured(Last(k, es).frames.kinds, f)
    ensures forall e :: e in es && e.op.AllocateFrame? && e.result != 0 ==> e.result / FRAME_SIZE != f
    decreases |es|
  {
    if es != [] {
      StepSecures(k, es[0].op, es[0].after, es[0].result, f);
      SecuredForever(es[0].after, es[1..], f);
      forall e | e in es && e.op.AllocateFrame? && e.result != 0 ensures e.result / FRAME_SIZE != f {
        assert e == es[0] || e in es[1..];
      }
    }
  }

  /** Granules of a frame handed out belong to no arena, now or earlier. */
  lemma FrameOutsideHeap(k: Kernel, op: Op, k': Kernel, r: int, g: int)
    requires k.Inv() && Step(k, op, k', r) && op.AllocateFrame? && r != 0
    requires r / GRANULE <= g < (r + FRAME_SIZE) / GRANULE
    ensures !InArenas(k'.arenas, g)
  {
    StepSecures(k, op, k', r, 0);
    assert g / FRAME_GRANULES == r / FRAME_SIZE;
  }

  /**
   * From boot on, every frame handed out is wholly usable, free of boot
   * reservations and above the kernel, its bitmaps and the first heap.
   */
  lemma BootMemorySafe(k: Kernel, es: seq<Event>, usable: seq<Region>, reserved: seq<Region>,
                       l: Layout, limit: int, e: Event)
    requires Booted(k, usable, reserved, l, limit) && Run(k, es)
    requires e in es && e.op.AllocateFrame? && e.result != 0
    ensures e.result >= limit && RangeUsable(usable, reserved, e.result, FRAME_SIZE)
  {
    AllocatedFramesInRange(k, es, e);
    var f := e.result / FRAME_SIZE;
    if k.frames.kinds[f] != Free {
      BootSecures(k, f);
      SecuredForever(k, es, f);
    }
  }

  /** While nothing is allocated, a frame that is not free is secured. */
  lemma BootSecures(k: Kernel, f: int)
    requires Count(k.frames.kinds, Allocated) == 0 && 0 <= f && !k.frames.IsFree(f)
    ensures Secured(k.frames.kinds, f)
  {
    if f < |k.frames.kinds| {
      KindCounted(k.frames.kinds, f);
    }
  }

  lemma {:induction false} AllocatedFramesInRange(k: Kernel, es: seq<Event>, e: Event)
    requires k.Inv() && Run(k, es) && e in es && e.op.AllocateFrame? && e.result != 0
    ensures e.result % FRAME_SIZE == 0 && 0 < e.result / FRAME_SIZE < k.frames.Size()
    decreases |es|
  {
    StepSecures(k, es[0].op, es[0].after, es[0].result, 0);
    if e != es[0] {
      AllocatedFramesInRange(es[0].after, es[1..], e);
    }
  }

  // ----- Memory outside the heap

  lemma InMoreArenas(arenas: seq<Arena>, more: seq<Arena>, g: int)
    requires arenas <= more && InArenas(arenas, g)
    ensures InArenas(more, g)
  {
    var i :| 0 <= i < |arenas| && InArena(arenas[i], g);
    assert InArena(more[i], g);
  }

  lemma MoreArenas(arenas: seq<Arena>, more: seq<Arena>, m: seq<Granule>, m': seq<Granule>)
    requires arenas <= more && Confined(arenas, m, m')
    ensures Confined(more, m, m')
  {
    forall g {:trigger InArenas(arenas, g)} | InArenas(arenas, g) ensures InArenas(more, g) {
      InMoreArenas(arenas, more, g);
    }
    forall g {:trigger InArenas(more, g), m'[g]} | 0 <= g < |m| && !InArenas(more, g) ensures m'[g] == m[g] {
      assert !InArenas(arenas, g);
    }
  }

  lemma TakeStaysInside(k: Kernel, n: int, k': Kernel, r: int)
    requires TakeStep(k, n, k', r)
    ensures k'.arenas == k.arenas && Confined(k.arenas, k.mem, k'.mem)
  {
  }

  /** The arena an allocation adds, if any, is made of frames that were free. */
  ghost predicate Extends(k: Kernel, k': Kernel) {
    || k'.arenas == k.arenas
    || exists r, n :: 1 <= r && 0 < n && r + n <= k.frames.Size() && RunFree(k.frames, r, n)
                      && k'.arenas == k.arenas + [Arena(FRAME_GRANULES * r, FRAME_GRANULES * (r + n))]
  }

  lemma GrowthStaysInside(k: Kernel, n: int, m: Kernel, ok: bool)
    requires k.Inv() && ExtendStep(k, n, m, ok)
    ensures Extends(k, m) && k.arenas <= m.arenas && Confined(m.arenas, k.mem, m.mem)
  {
    if ok {
      var count := ArenaBytes(n) / FRAME_SIZE;
      var address :| PinStep(k.frames, count, m.frames, address) && address != 0
                     && Adopted(k, address / FRAME_SIZE, count, m);
      PinnedRun(k.frames, count, m.frames, address);
    }
  }

  lemma MallocStaysInside(k: Kernel, size: int, k': Kernel, r: int)
    requires k.Inv() && MallocStep(k, size, k', r)
    ensures Extends(k, k') && k.arenas <= k'.arenas && Confined(k'.arenas, k.mem, k'.mem)
  {
    if k.frames.ready && size != 0 && size <= U32_MAX - (GRANULE - 1) {
      var n := Granules(size);
      if NoFit(k.blocks, n) {
        var m: Kernel, ok :| m.Inv() && ExtendStep(k, n, m, ok)
          && if ok then TakeStep(m, n, k', r) else k' == m.Failed() && r == 0;
        GrowthStaysInside(k, n, m, ok);
        if ok {
          TakeStaysInside(m, n, k', r);
          ConfinedTransitive(m.arenas, k.mem, m.mem, k'.mem);
        }
      } else {
        TakeStaysInside(k, n, k', r);
      }
    }
  }

  /** No step of the heap or of its clients changes a granule outside the arenas. */
  lemma StepConfined(k: Kernel, op: Op, k': Kernel, r: int)
    requires k.Inv() && Step(k, op, k', r)
    ensures Extends(k, k') && k.arenas <= k'.arenas && Confined(k'.arenas, k.mem, k'.mem)
  {
    match op {
      case Malloc(size) => MallocStaysInside(k, size, k', r);
      case Write(owner, at, value) =>
        var i := LiveIndex(k.blocks, owner);
        PartCovered(k.blocks, i, at);
        assert InArenas(k.arenas, at);
      case Release(ptr) =>
      case Resize(ptr, n) =>
      case AllocateFrame(minimum, user) =>
      case ReleaseFrame(address) =>
    }
  }

  /** The same over a whole run: what is in no arena at its end was never written. */
  lemma {:induction false} RunConfined(k: Kernel, es: seq<Event>)
    requires k.Inv() && Run(k, es)
    ensures k.arenas <= Last(k, es).arenas && Confined(Last(k, es).arenas, k.mem, Last(k, es).mem)
    decreases |es|
  {
    if es != [] {
      StepConfined(k, es[0].op, es[0].after, es[0].result);
      RunConfined(es[0].after, es[1..]);
      MoreArenas(es[0].after.arenas, Last(k, es).arenas, k.mem, es[0].after.mem);
      ConfinedTransitive(Last(k, es).arenas, k.mem, es[0].after.mem, Last(k, es).mem);
    }
  }

  /** Secured memory outside the heap never becomes part of it. */
  lemma {:induction false} SecuredStaysOutside(k: Kernel, es: seq<Event>, g: int)
    requires k.Inv() && Run(k, es) && Secured(k.frames.kinds, g / FRAME_GRANULES) && !InArenas(k.arenas, g)
    ensures !InArenas(Last(k, es).arenas, g)
    decreases |es|
  {
    if es != [] {
      var k' := es[0].after;
      StepConfined(k, es[0].op, k', es[0].result);
      StepSecures(k, es[0].op, k', es[0].result, g / FRAME_GRANULES);
      if k'.arenas != k.arenas {
        var r, n :| 1 <= r && 0 < n && r + n <= k.frames.Size() && RunFree(k.frames, r, n)
                    && k'.arenas == k.arenas + [Arena(FRAME_GRANULES * r, FRAME_GRANULES * (r + n))];
        InArenasAppend(k.arenas, Arena(FRAME_GRANULES * r, FRAME_GRANULES * (r + n)), g);
        assert !k.frames.IsFree(g / FRAME_GRANULES);
      }
      SecuredStaysOutside(k', es[1..], g);
    }
  }

  /**
   * Below the first heap lie the kernel and, from l.start on, the two bitmaps of
   * the frame allocator: no step of any run from boot writes there.
   */
  lemma BootMetadataKept(k: Kernel, es: seq<Event>, usable: seq<Region>, reserved: seq<Region>, l: Layout, limit: int)
    requires Booted(k, usable, reserved, l, limit) && Run(k, es)
    ensures forall g :: 0 <= g < |k.mem| && g < l.begin / GRANULE ==>
              |Last(k, es).mem| == |k.mem| && Last(k, es).mem[g] == k.mem[g]
  {
    RunConfined(k, es);
    forall g | 0 <= g < |k.mem| && g < l.begin / GRANULE ensures Last(k, es).mem[g] == k.mem[g] {
      var f := g / FRAME_GRANULES;
      assert FRAME_SIZE * f < limit;
      BootSecures(k, f);
      assert !InArena(k.arenas[0], g);
      SecuredStaysOutside(k, es, g);
    }
  }

  /** The step is not the owner's: it does not release, resize or write the block. */
  ghost predicate Spares(op: Op, b: Block) {
    match op
    case Release(ptr) => ptr != PayloadAddress(b.at)
    case Resize(ptr, n) => ptr != PayloadAddress(b.at)
    case Write(owner, at, value) => owner != b
    case _ => true
  }

  ghost predicate SparesAll(es: seq<Event>, b: Block) {
    forall e :: e in es ==> Spares(e.op, b)
  }

  /** The payload of c in the second memory begins with the payload of b in the first. */
  ghost predicate Carries(m: seq<Granule>, b: Block, m': seq<Granule>, c: Block) {
    && 0 <= b.at && 0 <= b.size <= c.size && 0 <= c.at && b.End() <= |m| && c.End() <= |m'|
    && m'[c.at + 1..c.at + 1 + b.size] == m[b.at + 1..b.End()]
  }

  lemma LiveBounds(k: Kernel, b: Block)
    requires k.Inv() && b in Live(k.blocks)
    ensures 0 < b.at && 0 < b.size && b.End() <= |k.mem|
  {
    var i := LiveIndex(k.blocks, b);
    assert HeaderAt(k.mem, k.blocks, i);
  }

  lemma KeptPayload(k: Kernel, k': Kernel, b: Block)
    requires k.Inv() && b in Live(k.blocks) && Kept(k.mem, k'.mem, {b})
    ensures Carries(k.mem, b, k'.mem, b)
  {
    LiveBounds(k, b);
    assert b in {b};
    forall g | b.at < g < b.End() ensures k'.mem[g] == k.mem[g] {
    }
  }

  lemma CarriesTransitive(m: seq<Granule>, b: Block, m1: seq<Granule>, c: Block, m2: seq<Granule>, d: Block)
    requires Carries(m, b, m1, c) && Carries(m1, c, m2, d)
    ensures Carries(m, b, m2, d)
  {
    var x, y := m1[c.at + 1..c.End()], m2[d.at + 1..d.at + 1 + c.size];
    assert m1[c.at + 1..c.at + 1 + b.size] == x[..b.size];
    assert m2[d.at + 1..d.at + 1 + b.size] == y[..b.size];
  }

  lemma KeptSome(m: seq<Granule>, m': seq<Granule>, live: set<Block>, b: Block)
    requires Kept(m, m', live) && b in live
    ensures Kept(m, m', {b})
  {
  }

  /** Nobody else's step can take a live block away or change a byte of its payload. */
  lemma StepSparesBlock(k: Kernel, op: Op, k': Kernel, r: int, b: Block)
    requires k.Inv() && Step(k, op, k', r) && b in Live(k.blocks) && Spares(op, b)
    ensures b in Live(k'.blocks) && Carries(k.mem, b, k'.mem, b)
  {
    match op {
      case Malloc(size) =>
        MallocSpares(k, size, k', r);
        KeptSome(k.mem, k'.mem, Live(k.blocks), b);
      case Release(ptr) =>
        if k' != k {
          KeptSome(k.mem, k'.mem, Live(k.blocks), b);
        }
      case Resize(ptr, n) =>
        if k' != k {
          KeptSome(k.mem, k'.mem, Live(k.blocks), b);
        }
      case Write(owner, at, value) =>
        WriteIsStep(k, owner, at, value);
        KeptSome(k.mem, k'.mem, Live(k.blocks) - {owner}, b);
      case AllocateFrame(minimum, user) =>
      case ReleaseFrame(address) =>
    }
    KeptPayload(k, k', b);
  }

  lemma MallocSpares(k: Kernel, size: int, k': Kernel, r: int)
    requires k.Inv() && k'.Inv() && MallocStep(k, size, k', r)
    ensures Live(k.blocks) <= Live(k'.blocks) && Kept(k.mem, k'.mem, Live(k.blocks))
  {
    if r != 0 {
      var i := MallocGrants(k, size, k', r);
    } else if k' != k {
      var n := Granules(size);
      if TakeStep(k, n, k', r) {
        TakeReturnsAddress(k, k', n, r);
      } else {
        var m: Kernel, ok :| m.Inv() && ExtendStep(k, n, m, ok)
          && if ok then TakeStep(m, n, k', r) else k' == m.Failed() && r == 0;
        if ok {
          TakeReturnsAddress(m, k', n, r);
        }
      }
    }
  }

  /** A payload address is never 0. */
  lemma TakeReturnsAddress(k: Kernel, k': Kernel, n: int, r: int)
    requires k.Inv() && TakeStep(k, n, k', r)
    ensures r > 0
  {
    var i :| FirstFit(k.blocks, n, i) && Carved(k, k.blocks[i], n, k') && r == PayloadAddress(k.blocks[i].at);
  }

  /** Isolation over a whole run: what its owner leaves alone stays as it is. */
  lemma {:induction false} RunSparesBlock(k: Kernel, es: seq<Event>, b: Block)
    requires k.Inv() && Run(k, es) && b in Live(k.blocks) && SparesAll(es, b)
    ensures Last(k, es).Inv() && b in Live(Last(k, es).blocks)
    ensures Carries(k.mem, b, Last(k, es).mem, b)
    decreases |es|
  {
    if es == [] {
      LiveBounds(k, b);
    } else {
      StepSparesBlock(k, es[0].op, es[0].after, es[0].result, b);
      assert forall e :: e in es[1..] ==> e in es;
      RunSparesBlock(es[0].after, es[1..], b);
      CarriesTransitive(k.mem, b, es[0].after.mem, b, Last(k, es).mem, b);
    }
  }

  /**
   * The move path of a reallocation with other owners' steps between its three
   * parts: the new block ends up with every byte of the old one.
   */
  lemma MoveKeepsBytes(
      k0: Kernel, ptr: int, n: int, b: Block, es0: seq<Event>,
      k1: Kernel, r: int, c: Block, es1: seq<Event>,
      k2: Kernel, es2: seq<Event>, k3: Kernel)
    requires k0.Inv() && b in Live(k0.blocks) && ptr == PayloadAddress(b.at)
    requires ReallocStep(k0, ptr, n, k0, Moves(b.size))
    requires Run(k0, es0) && SparesAll(es0, b)
    requires k1.Inv() && MallocStep(Last(k0, es0), GRANULE * n, k1, r) && r == PayloadAddress(c.at)
    requires c in Live(k1.blocks) && Run(k1, es1) && SparesAll(es1, b) && SparesAll(es1, c)
    requires k2.Inv() && CopyStep(Last(k1, es1), r / GRANULE, ptr / GRANULE, b.size, k2)
    requires Run(k2, es2) && SparesAll(es2, b) && SparesAll(es2, c)
    requires k3.Inv() && KFreeStep(Last(k2, es2), ptr, k3)
    ensures c in Live(k3.blocks) && b !in Live(k3.blocks) && c.size >= n && b.size < n
    ensures Carries(k0.mem, b, k3.mem, c)
  {
    var before, middle, late := Last(k0, es0), Last(k1, es1), Last(k2, es2);
    MoveGrowsSize(k0, ptr, n, b);
    RunSparesBlock(k0, es0, b);
    MallocKeepsOld(before, GRANULE * n, k1, r, b, c);
    RunSparesBlock(k1, es1, b);
    RunSparesBlock(k1, es1, c);
    CopyTransfers(middle, b, c, k2);
    RunSparesBlock(k2, es2, c);
    RunSparesBlock(k2, es2, b);
    FreeOther(late, b, c, k3);
    CarriesTransitive(k0.mem, b, before.mem, b, k1.mem, b);
    CarriesTransitive(k0.mem, b, k1.mem, b, middle.mem, b);
    CarriesTransitive(k0.mem, b, middle.mem, b, k2.mem, c);
    CarriesTransitive(k0.mem, b, k2.mem, c, late.mem, c);
    CarriesTransitive(k0.mem, b, late.mem, c, k3.mem, c);
  }

  lemma MoveGrowsSize(k: Kernel, ptr: int, n: int, b: Block)
    requires k.Inv() && b in Live(k.blocks) && ptr == PayloadAddress(b.at)
    requires ReallocStep(k, ptr, n, k, Moves(b.size))
    ensures b.size < n
  {
    var i := LiveIndex(k.blocks, b);
  }

  /** The old block is still there after the allocation, and the new one is another one. */
  lemma MallocKeepsOld(k: Kernel, size: int, k': Kernel, r: int, b: Block, c: Block)
    requires k.Inv() && k'.Inv() && MallocStep(k, size, k', r) && b in Live(k.blocks)
    requires c in Live(k'.blocks) && r == PayloadAddress(c.at)
    ensures b in Live(k'.blocks) && Carries(k.mem, b, k'.mem, b)
    ensures b != c && c.size >= Granules(size)
  {
    var j := LiveIndex(k'.blocks, c);
    assert 0 < c.at by { assert HeaderAt(k'.mem, k'.blocks, j); }
    var i := MallocGrants(k, size, k', r);
    Distinct(k'.blocks, j);
    assert k'.blocks[i] == c;
    KeptSome(k.mem, k'.mem, Live(k.blocks), b);
    KeptPayload(k, k', b);
  }

  lemma CopyTransfers(k: Kernel, b: Block, c: Block, k': Kernel)
    requires k.Inv() && b in Live(k.blocks) && c in Live(k.blocks) && b != c && b.size <= c.size
    requires CopyStep(k, PayloadAddress(c.at) / GRANULE, PayloadAddress(b.at) / GRANULE, b.size, k')
    ensures b in Live(k'.blocks) && c in Live(k'.blocks)
    ensures Carries(k.mem, b, k'.mem, c)
  {
    LiveBounds(k, b);
    LiveBounds(k, c);
    forall g | c.at < g < c.at + 1 + b.size ensures k'.mem[g] == k.mem[b.at + g - c.at] {
    }
  }

  lemma FreeOther(k: Kernel, b: Block, c: Block, k': Kernel)
    requires k.Inv() && k'.Inv() && b in Live(k.blocks) && c in Live(k.blocks) && b != c
    requires KFreeStep(k, PayloadAddress(b.at), k')
    ensures c in Live(k'.blocks) && b !in Live(k'.blocks) && Carries(k.mem, c, k'.mem, c)
  {
    var j := LiveIndex(k.blocks, b);
    Distinct(k.blocks, j);
    var i :| LiveAddress(k.blocks, PayloadAddress(b.at), i) && Relisted(k, k', Live(k.blocks) - {k.blocks[i]});
    assert k.blocks[i] == b;
    KeptSome(k.mem, k'.mem, Live(k.blocks), c);
    KeptPayload(k, k', c);
  }
}
