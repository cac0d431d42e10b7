/** What a caller of the memory manager may rely on, and where the searches stop short. */
module Guarantees {
  import opened Machine
  import opened Regions
  import opened FrameSpec
  import opened Frames
  import opened Blocks
  import opened Canonical
  import opened HeapSpec
  import opened HeapLemmas
  import opened Boot
  import opened Runs

  // ----- Completeness of the searches

  /** The run begins below the search hint and ends above it. */
  predicate Straddles(s: FrameState, n: int, r: int) { r < RunStart(s) < r + n }

  /** Every run of n free frames straddles the hint; in particular when there is none. */
  ghost predicate AllStraddle(s: FrameState, n: int) {
    forall r {:trigger RunFree(s, r, n)} :: 1 <= r && r + n <= s.Size() && RunFree(s, r, n) ==> Straddles(s, n, r)
  }

  /**
   * The contiguous search fails exactly when every free run straddles the
   * hint: it looks on either side of the hint but never across it.
   */
  lemma WindowsMissStraddlingRuns(s: FrameState, n: int)
    requires 0 < n && 0 < s.Size()
    ensures NoWindow(s, n) <==> AllStraddle(s, n)
  {
    if NoWindow(s, n) {
      forall r | 1 <= r && r + n <= s.Size() && RunFree(s, r, n) ensures Straddles(s, n, r) {
      }
    } else {
      if !NoRun(s, RunStart(s), s.Size(), n) {
        var r :| RunStart(s) <= r && r + n <= s.Size() && RunFree(s, r, n);
      } else {
        var r :| 1 <= r && r + n <= RunStart(s) && RunFree(s, r, n);
      }
    }
  }

  /** The frames of a free run are among the free frames counted. */
  lemma RunCounted(s: FrameState, r: int, n: int)
    requires 0 <= r && 0 <= n && r + n <= s.Size() && RunFree(s, r, n)
    ensures n <= Count(s.kinds, Free)
  {
    forall i | r <= i < r + n ensures s.kinds[i] == Free {
      assert s.IsFree(i);
    }
    CountMarked(s.kinds, r, r + n, Free, Reserved, Free);
  }

  /** Pinning n frames fails exactly for these reasons. */
  ghost predicate PinFails(s: FrameState, n: int) { !s.ready || n == 0 || AllStraddle(s, n) }

  /** The tests on the size of the table and on the number of free frames refuse nothing the search would find. */
  lemma PinFailsExactly(s: FrameState, n: int, s': FrameState, r: int)
    requires s.Wf() && 0 <= n && PinStep(s, n, s', r)
    ensures r == 0 <==> PinFails(s, n)
  {
    if s.ready && 0 < n <= s.Size() {
      WindowsMissStraddlingRuns(s, n);
      forall q {:trigger RunFree(s, q, n)} | 1 <= q && q + n <= s.Size() && RunFree(s, q, n)
        ensures n <= Count(s.kinds, Free)
      {
        RunCounted(s, q, n);
      }
    }
  }

  ghost predicate CannotGrow(k: Kernel, n: int) {
    ArenaOverflows(n) || PinFails(k.frames, ArenaBytes(n) / FRAME_SIZE)
  }

  lemma ExtendFailsExactly(k: Kernel, n: int, m: Kernel, ok: bool)
    requires k.Inv() && 0 < n && ExtendStep(k, n, m, ok)
    ensures !ok <==> CannotGrow(k, n)
  {
    if !ArenaOverflows(n) {
      var bytes := ArenaBytes(n);
      var address :| PinStep(k.frames, bytes / FRAME_SIZE, m.frames, address) && ok == (address != 0);
      PinFailsExactly(k.frames, bytes / FRAME_SIZE, m.frames, address);
    }
  }

  /** When nothing fits, the allocation fails exactly when the heap cannot grow. */
  lemma GrowingFailsExactly(k: Kernel, n: int, m: Kernel, ok: bool, k': Kernel, r: int)
    requires k.Inv() && m.Inv() && 0 < n && ExtendStep(k, n, m, ok)
    requires if ok then TakeStep(m, n, k', r) else k' == m.Failed() && r == 0
    ensures r == 0 <==> CannotGrow(k, n)
  {
    ExtendFailsExactly(k, n, m, ok);
    if ok {
      TakeReturnsAddress(m, k', n, r);
    }
  }

  lemma AfterGrowing(k: Kernel, size: int, n: int, k': Kernel, r: int)
    requires k.Inv() && k.frames.ready && 0 < size <= U32_MAX - (GRANULE - 1) && n == Granules(size) && 0 < n
    requires NoFit(k.blocks, n) && MallocStep(k, size, k', r)
    ensures r == 0 <==> CannotGrow(k, n)
  {
    var m: Kernel, ok :| m.Inv() && ExtendStep(k, n, m, ok)
      && if ok then TakeStep(m, n, k', r) else k' == m.Failed() && r == 0;
    GrowingFailsExactly(k, n, m, ok, k', r);
  }

  /**
   * An allocation fails exactly when the request is empty or overflows, or when
   * no free block fits and the heap cannot grow.
   */
  lemma MallocFailsExactly(k: Kernel, size: int, k': Kernel, r: int)
    requires k.Inv() && k'.Inv() && 0 <= size <= U32_MAX && MallocStep(k, size, k', r)
    ensures r == 0 <==>
      || !k.frames.ready || size == 0 || size > U32_MAX - (GRANULE - 1)
      || (NoFit(k.blocks, Granules(size)) && CannotGrow(k, Granules(size)))
  {
    if k.frames.ready && size != 0 && size <= U32_MAX - (GRANULE - 1) {
      var n := Granules(size);
      if NoFit(k.blocks, n) {
        AfterGrowing(k, size, n, k', r);
      } else {
        TakeReturnsAddress(k, k', n, r);
      }
    }
  }

  /** Taking a frame behind the hint and giving it back leaves the hint on it, and the frames as they were. */
  lemma ReleaseMovesHint(s: FrameState, f: int, s1: FrameState, r: int, s2: FrameState)
    requires s.Wf() && s.ready && s.hint <= f && 1 <= f && f + 1 < s.Size() && s.IsFree(f)
    requires AllocateStep(s, FRAME_SIZE * f, false, s1, r) && FreeStep(s1, r, s2)
    ensures r == FRAME_SIZE * f && s2.ready && s2.kinds == s.kinds && s2.hint == f
  {
    assert s.IsFree(f);
    assert s1 == Taken(s, f);
    assert s2 == Freed(s1, f);
    assert s.kinds[f := Allocated][f := Free] == s.kinds;
  }

  /** Every run of n free frames lies in [lo, hi). */
  ghost predicate RunsWithin(s: FrameState, n: int, lo: int, hi: int) {
    forall q {:trigger RunFree(s, q, n)} :: 1 <= q && q + n <= s.Size() && RunFree(s, q, n) ==> lo <= q && q + n <= hi
  }

  /**
   * Taking and releasing a frame in the middle of a free run hides the run from
   * every request longer than both halves, if no other run is long enough.
   */
  lemma ReleaseHidesRun(s: FrameState, f: int, lo: int, hi: int, s1: FrameState, r: int, s2: FrameState, n: int)
    requires s.Wf() && s.ready && s.hint <= f && 1 <= lo < f && f + 1 < hi
    requires RunFree(s, lo, hi - lo) && RunsWithin(s, n, lo, hi)
    requires AllocateStep(s, FRAME_SIZE * f, false, s1, r) && FreeStep(s1, r, s2)
    requires f - lo < n && hi - f < n
    ensures RunFree(s2, lo, hi - lo) && PinFails(s2, n)
  {
    assert s.IsFree(f) && s.IsFree(f + 1);
    ReleaseMovesHint(s, f, s1, r, s2);
    SameRuns(s, s2);
    assert RunStart(s2) == f;
    forall q {:trigger RunFree(s2, q, n)} | 1 <= q && q + n <= s2.Size() && RunFree(s2, q, n)
      ensures Straddles(s2, n, q)
    {
      assert RunFree(s, q, n);
    }
  }

  lemma SameRuns(s: FrameState, t: FrameState)
    requires s.kinds == t.kinds
    ensures forall q, n :: RunFree(s, q, n) <==> RunFree(t, q, n)
  {
    forall q, n ensures RunFree(s, q, n) <==> RunFree(t, q, n) {
      assert forall g :: s.IsFree(g) <==> t.IsFree(g);
    }
  }

  /** The frames that the heap asks for when it grows for a request. */
  function FramesAsked(size: int): int { ArenaBytes(Granules(size)) / FRAME_SIZE }

  const MEGABYTE := 0x10_0000

  /** The first heap is too small for any request of one megabyte or more. */
  lemma LargeNeedsGrowth(k: Kernel, usable: seq<Region>, reserved: seq<Region>, l: Layout, limit: int, size: int)
    requires Booted(k, usable, reserved, l, limit) && MEGABYTE <= size
    ensures NoFit(k.blocks, Granules(size))
  {
    AlignUp16(size);
    assert GRANULE * Granules(size) == AlignUp(size, GRANULE);
    assert (limit - l.begin) / GRANULE - 1 < MEGABYTE / GRANULE <= Granules(size);
  }

  /** Right after boot the hint is at the bottom, and a large request is met whenever a free run is long enough. */
  lemma LargeGranted(k: Kernel, usable: seq<Region>, reserved: seq<Region>, l: Layout, limit: int,
                     lo: int, hi: int, size: int, k': Kernel, p: int)
    requires Booted(k, usable, reserved, l, limit) && Step(k, Malloc(size), k', p)
    requires MEGABYTE <= size <= U32_MAX - (GRANULE - 1) && !ArenaOverflows(Granules(size))
    requires 1 <= lo && RunFree(k.frames, lo, hi - lo) && 0 < FramesAsked(size) <= hi - lo
    ensures p != 0
  {
    var n := FramesAsked(size);
    LargeNeedsGrowth(k, usable, reserved, l, limit, size);
    assert k.frames.IsFree(lo + n - 1);
    assert RunFree(k.frames, lo, n) && !Straddles(k.frames, n, lo);
    MallocFailsExactly(k, size, k', p);
  }

  /** From any boot: taking and releasing a frame inside the only run that is long enough hides the run. */
  lemma RunHidden(k: Kernel, usable: seq<Region>, reserved: seq<Region>, l: Layout, limit: int,
                  lo: int, hi: int, f: int, n: int, k1: Kernel, r: int, k2: Kernel, q: int)
    requires Booted(k, usable, reserved, l, limit)
    requires 1 <= lo < f && f + 1 < hi && RunFree(k.frames, lo, hi - lo) && RunsWithin(k.frames, n, lo, hi)
    requires f - lo < n && hi - f < n
    requires Step(k, AllocateFrame(FRAME_SIZE * f, false), k1, r) && Step(k1, ReleaseFrame(r), k2, q)
    ensures RunFree(k2.frames, lo, hi - lo) && PinFails(k2.frames, n) && k2.blocks == k.blocks
  {
    ReleaseHidesRun(k.frames, f, lo, hi, k1.frames, r, k2.frames, n);
  }

  /**
   * A failure reachable from every boot with one free run that is the only one
   * long enough: after a frame near its middle was allocated and released,
   * k_malloc fails although the whole run is free; `LargeGranted` says that
   * right after boot the same request is met.
   */
  lemma FreeRunMissed(k: Kernel, usable: seq<Region>, reserved: seq<Region>, l: Layout, limit: int,
                      lo: int, hi: int, f: int, size: int,
                      k1: Kernel, r: int, k2: Kernel, q: int, k3: Kernel, p: int)
    requires Booted(k, usable, reserved, l, limit) && MEGABYTE <= size <= U32_MAX - (GRANULE - 1)
    requires 1 <= lo < f && f + 1 < hi && RunFree(k.frames, lo, hi - lo)
    requires RunsWithin(k.frames, FramesAsked(size), lo, hi)
    requires f - lo < FramesAsked(size) && hi - f < FramesAsked(size)
    requires Step(k, AllocateFrame(FRAME_SIZE * f, false), k1, r) && Step(k1, ReleaseFrame(r), k2, q)
    requires Step(k2, Malloc(size), k3, p)
    ensures p == 0 && RunFree(k2.frames, lo, hi - lo)
  {
    RunHidden(k, usable, reserved, l, limit, lo, hi, f, FramesAsked(size), k1, r, k2, q);
    LargeNeedsGrowth(k, usable, reserved, l, limit, size);
    MallocFailsExactly(k2, size, k3, p);
  }

  // ----- The heap as a function of its arenas and live blocks

  /** Same memory, same live blocks: same list and same usage, whatever happened in between. */
  lemma HeapDetermined(k: Kernel, k': Kernel)
    requires k.Inv() && k'.Inv() && Live(k.blocks) == Live(k'.blocks)
    requires forall g :: InArenas(k.arenas, g) <==> InArenas(k'.arenas, g)
    ensures k.blocks == k'.blocks && k.Used() == k'.Used()
  {
    assert SameCover(k.blocks, k'.blocks);
    CanonicalForm(k.blocks, k'.blocks);
  }

  /** Allocating and releasing restores the list exactly, unless the heap grew in between. */
  lemma FreeUndoesMalloc(k: Kernel, size: int, k1: Kernel, r: int, k2: Kernel)
    requires k.Inv() && k1.Inv() && k2.Inv() && MallocStep(k, size, k1, r) && r != 0
    requires k1.arenas == k.arenas && KFreeStep(k1, r, k2)
    ensures k2.blocks == k.blocks && k2.Used() == k.Used()
    ensures Kept(k.mem, k2.mem, Live(k.blocks))
  {
    var i := MallocGrants(k, size, k1, r);
    assert LiveAddress(k1.blocks, r, i);
    var j :| LiveAddress(k1.blocks, r, j) && Relisted(k1, k2, Live(k1.blocks) - {k1.blocks[j]});
    Distinct(k1.blocks, i);
    assert i == j;
    forall b, g {:trigger b in Live(k.blocks), k2.mem[g]}
      | b in Live(k.blocks) && b.at < g < b.End() && 0 <= g < |k.mem| ensures k2.mem[g] == k.mem[g]
    {
      assert b in Live(k1.blocks);
      assert k1.mem[g] == k.mem[g];
    }
    HeapDetermined(k, k2);
  }

  /** Two runs from the same heap without growth that end with the same live blocks end with the same list. */
  lemma RunsConverge(k: Kernel, es: seq<Event>, fs: seq<Event>)
    requires k.Inv() && Run(k, es) && Run(k, fs)
    requires Last(k, es).arenas == Last(k, fs).arenas
    requires Live(Last(k, es).blocks) == Live(Last(k, fs).blocks)
    ensures Last(k, es).blocks == Last(k, fs).blocks
  {
    RunInv(k, es);
    RunInv(k, fs);
    HeapDetermined(Last(k, es), Last(k, fs));
  }

  lemma {:induction false} RunInv(k: Kernel, es: seq<Event>)
    requires k.Inv() && Run(k, es)
    ensures Last(k, es).Inv()
    decreases |es|
  {
    if es != [] {
      RunInv(es[0].after, es[1..]);
    }
  }

  // ----- Isolation

  /** Live payloads are aligned, inside one arena range each, and pairwise disjoint. */
  lemma LivePayloadsIsolated(k: Kernel, b: Block, c: Block, g: int)
    requires k.Inv() && b in Live(k.blocks) && c in Live(k.blocks) && b != c
    requires b.at <= g < b.End()
    ensures PayloadAddress(b.at) % GRANULE == 0 && InArenas(k.arenas, g)
    ensures !(c.at <= g < c.End())
  {
    var i := LiveIndex(k.blocks, b);
    var j := LiveIndex(k.blocks, c);
    LivePayloadsApart(k.blocks, i, j);
    assert Holds(k.blocks[i], g);
    assert Covers(k.blocks, g);
  }

  // ----- Reallocation

  /** Staying and growing in place keep address and bytes. */
  lemma ResizeInPlaceKeepsBytes(k: Kernel, b: Block, n: int, k': Kernel, v: Verdict) returns (c: Block)
    requires k.Inv() && k'.Inv() && b in Live(k.blocks) && (v == Stays || v == Grown)
    requires ReallocStep(k, PayloadAddress(b.at), n, k', v)
    ensures c in Live(k'.blocks) && c.at == b.at && c.size >= n
    ensures Carries(k.mem, b, k'.mem, c)
  {
    var j := LiveIndex(k.blocks, b);
    Distinct(k.blocks, j);
    c := if v == Stays then b else Portion(Joined(k.blocks, j), n);
    LiveBounds(k, b);
    LiveBounds(k', c);
    forall g | b.at < g < b.End() ensures k'.mem[g] == k.mem[g] {
    }
  }

  /** The locked part finds a live block, and gives it up unchanged when it is to be moved. */
  lemma LockedVerdict(k: Kernel, b: Block, n: int, m: Kernel, v: Verdict)
    requires k.Inv() && b in Live(k.blocks) && ReallocStep(k, PayloadAddress(b.at), n, m, v)
    ensures v != Missing && (v.Moves? ==> m == k && v == Moves(b.size))
  {
    var j := LiveIndex(k.blocks, b);
    Distinct(k.blocks, j);
  }

  /** A move that fails has changed nothing but what its failed allocation counted. */
  lemma FailedMove(k: Kernel, ptr: int, count: int, size: int, k': Kernel)
    requires k.Inv() && MoveStep(k, ptr, count, size, k', 0)
    ensures k'.Inv() && MallocStep(k, size, k', 0)
  {
  }

  /** A reallocation that fails leaves the old block and its bytes alone. */
  lemma FailedReallocKeepsBytes(k: Kernel, b: Block, size: int, k': Kernel)
    requires k.Inv() && k'.Inv() && b in Live(k.blocks) && 0 < size
    requires KReallocStep(k, PayloadAddress(b.at), size, k', 0)
    ensures b in Live(k'.blocks) && Carries(k.mem, b, k'.mem, b)
  {
    LiveBounds(k, b);
    if k' != k {
      var n, ptr := Granules(size), PayloadAddress(b.at);
      var m: Kernel, v :| m.Inv() && ReallocStep(k, ptr, n, m, v) && Settled(m, v, ptr, n, k', 0);
      LockedVerdict(k, b, n, m, v);
      FailedMove(k, ptr, b.size, GRANULE * n, k');
      StepSparesBlock(k, Malloc(GRANULE * n), k', 0, b);
    }
  }

  lemma MovedKeepsBytes(k: Kernel, b: Block, n: int, k': Kernel, r: int) returns (c: Block)
    requires k.Inv() && k'.Inv() && b in Live(k.blocks) && 0 < n && r != 0
    requires ReallocStep(k, PayloadAddress(b.at), n, k, Moves(b.size))
    requires MoveStep(k, PayloadAddress(b.at), b.size, GRANULE * n, k', r)
    ensures c in Live(k'.blocks) && r == PayloadAddress(c.at) && c.size >= n
    ensures Carries(k.mem, b, k'.mem, c)
  {
    var ptr := PayloadAddress(b.at);
    var m1: Kernel, m2: Kernel :| m1.Inv() && m2.Inv() && MallocStep(k, GRANULE * n, m1, r)
      && CopyStep(m1, r / GRANULE, ptr / GRANULE, b.size, m2) && KFreeStep(m2, ptr, k');
    var j := MallocGrants(k, GRANULE * n, m1, r);
    c := m1.blocks[j];
    MoveKeepsBytes(k, ptr, n, b, [], m1, r, c, [], m2, [], k');
  }

  /** A reallocation that succeeds returns a live block of the new size with all old bytes. */
  lemma ReallocKeepsBytes(k: Kernel, b: Block, size: int, k': Kernel, r: int) returns (c: Block)
    requires k.Inv() && k'.Inv() && b in Live(k.blocks) && 0 < size && r != 0
    requires KReallocStep(k, PayloadAddress(b.at), size, k', r)
    ensures c in Live(k'.blocks) && r == PayloadAddress(c.at) && c.size >= Granules(size)
    ensures Carries(k.mem, b, k'.mem, c)
  {
    LiveBounds(k, b);
    var n, ptr := Granules(size), PayloadAddress(b.at);
    var m: Kernel, v :| m.Inv() && ReallocStep(k, ptr, n, m, v) && Settled(m, v, ptr, n, k', r);
    LockedVerdict(k, b, n, m, v);
    if v.Moves? {
      c := MovedKeepsBytes(k, b, n, k', r);
    } else {
      c := ResizeInPlaceKeepsBytes(k, b, n, m, v);
    }
  }

  // ----- Conservation and the recovery reserve

  /** The kinds of all frames and the counters derived from them, before and after one frame call. */
  lemma FrameCallConserves(s: FrameState, s': FrameState, minimum: int, user: bool, r: int)
    requires s.Wf() && AllocateStep(s, minimum, user, s', r)
    ensures Managed(s'.kinds) == Managed(s.kinds)
    ensures Count(s.kinds, Free) + Count(s.kinds, Allocated) + Count(s.kinds, Reserved) == Managed(s.kinds)
    ensures Count(s'.kinds, Free) == Count(s.kinds, Free) - (if r != 0 then 1 else 0)
    ensures user && r != 0 ==> Count(s.kinds, Free) > Managed(s.kinds) / 16
  {
    CountPartition(s.kinds);
    if r != 0 {
      TakenSizes(s, r / FRAME_SIZE);
    }
  }

  /** A release moves one frame from the allocated to the free count, or changes no count. */
  lemma FreeCallConserves(s: FrameState, s': FrameState, address: int)
    requires s.Wf() && FrameSpec.FreeStep(s, address, s')
    ensures s'.Wf() && Managed(s'.kinds) == Managed(s.kinds) && Count(s'.kinds, Reserved) == Count(s.kinds, Reserved)
    ensures var freed := address % FRAME_SIZE == 0 && address != 0 && s.IsAllocated(address / FRAME_SIZE);
      && Count(s'.kinds, Free) == Count(s.kinds, Free) + (if freed then 1 else 0)
      && Count(s'.kinds, Allocated) == Count(s.kinds, Allocated) - (if freed then 1 else 0)
  {
    if address % FRAME_SIZE == 0 && address != 0 && s.IsAllocated(address / FRAME_SIZE) {
      FreedSizes(s, address / FRAME_SIZE);
    }
  }

  /** Only user admissions and releases of frames. */
  ghost predicate UserOnly(es: seq<Event>) {
    forall e :: e in es ==> e.op.ReleaseFrame? || (e.op.AllocateFrame? && e.op.user)
  }

  ghost predicate ReserveKept(s: FrameState) { Count(s.kinds, Free) >= Managed(s.kinds) / 16 }

  /** User processes alone can never use up the sixteenth kept for the kernel. */
  lemma {:induction false} UserRunsKeepReserve(k: Kernel, es: seq<Event>)
    requires k.Inv() && Run(k, es) && UserOnly(es) && ReserveKept(k.frames)
    ensures ReserveKept(Last(k, es).frames)
    decreases |es|
  {
    if es != [] {
      var e := es[0];
      assert e in es;
      if e.op.AllocateFrame? {
        FrameCallConserves(k.frames, e.after.frames, e.op.minimum, e.op.user, e.result);
      } else {
        FreeCallConserves(k.frames, e.after.frames, e.op.address);
      }
      assert forall x :: x in es[1..] ==> x in es;
      UserRunsKeepReserve(e.after, es[1..]);
    }
  }

  // ----- Exclusive ownership of frames

  ghost predicate NeverReleases(es: seq<Event>, f: int) {
    forall e :: e in es && e.op.ReleaseFrame? ==> e.op.address != FRAME_SIZE * f
  }

  lemma StepKeepsAllocated(k: Kernel, op: Op, k': Kernel, r: int, f: int)
    requires k.Inv() && Step(k, op, k', r) && k.frames.IsAllocated(f)
    requires op.ReleaseFrame? ==> op.address != FRAME_SIZE * f
    ensures k'.frames.IsAllocated(f)
    ensures op.AllocateFrame? && r != 0 ==> r != FRAME_SIZE * f
  {
    StepSecures(k, op, k', r, f);
    if op.Malloc? {
      MallocFrames(k, op.size, k', r);
      if k'.frames != k.frames {
        var n, a :| 0 <= n && PinStep(k.frames, n, k'.frames, a);
        PinStepSecures(k.frames, n, k'.frames, a, f);
      }
    }
  }

  /** A frame stays its owner's until the owner releases it: nobody else is given it. */
  lemma {:induction false} FrameExclusive(k: Kernel, es: seq<Event>, f: int)
    requires k.Inv() && Run(k, es) && k.frames.IsAllocated(f) && NeverReleases(es, f)
    ensures Last(k, es).frames.IsAllocated(f)
    ensures forall e :: e in es && e.op.AllocateFrame? && e.result != 0 ==> e.result != FRAME_SIZE * f
    decreases |es|
  {
    if es != [] {
      assert es[0] in es;
      StepKeepsAllocated(k, es[0].op, es[0].after, es[0].result, f);
      assert forall x :: x in es[1..] ==> x in es;
      FrameExclusive(es[0].after, es[1..], f);
      forall e | e in es && e.op.AllocateFrame? && e.result != 0 ensures e.result != FRAME_SIZE * f {
        assert e == es[0] || e in es[1..];
      }
    }
  }

  /** While its owner holds a frame, neither the heap nor any of its clients writes to it. */
  lemma FrameContentsKept(k: Kernel, es: seq<Event>, f: int, g: int)
    requires k.Inv() && Run(k, es) && k.frames.IsAllocated(f) && NeverReleases(es, f)
    requires FRAME_GRANULES * f <= g < FRAME_GRANULES * (f + 1) && g < |k.mem|
    ensures |Last(k, es).mem| == |k.mem| && Last(k, es).mem[g] == k.mem[g]
  {
    FrameExclusive(k, es, f);
    RunInv(k, es);
    RunConfined(k, es);
    assert !InArenas(Last(k, es).arenas, g);
  }
}
