/**
 * What the frame calls return, as a function of the calls made before: no
 * search hint occurs in these statements, only frames and returned addresses.
 */
module FrameLaws {
  import opened Machine
  import opened Regions
  import opened FrameSpec
  import opened Frames
  import opened Blocks
  import opened Canonical
  import opened HeapSpec
  import opened HeapLemmas
  import opened Boot
  import opened Runs
  import Numbers

  // ----- One call

  /** The least frame, not frame 0, that begins at or above an address. */
  ghost predicate LeastFrame(minimum: int, first: int) {
    1 <= first && minimum <= 4096 * first && (1 < first ==> 4096 * (first - 1) < minimum)
  }

  lemma LeastFrameIs(minimum: int, first: int)
    requires 0 <= minimum && LeastFrame(minimum, first)
    ensures first == Numbers.Max(1, AlignUp(minimum, FRAME_SIZE) / FRAME_SIZE)
  {
    assert AlignUp(minimum, FRAME_SIZE) == 4096 * ((minimum + 4095) / 4096);
  }

  lemma LeastFrameOf(minimum: int) returns (first: int)
    requires 0 <= minimum
    ensures LeastFrame(minimum, first)
  {
    first := Numbers.Max(1, (minimum + 4095) / 4096);
  }

  /** A free frame at or above the address exists. */
  ghost predicate Available(s: FrameState, minimum: int) {
    exists f :: 1 <= f && s.IsFree(f) && minimum <= 4096 * f
  }

  /** User admissions leave a sixteenth of the managed frames free. */
  ghost predicate Admitted(s: FrameState, user: bool) {
    user ==> 16 * Count(s.kinds, Free) > Managed(s.kinds)
  }

  lemma AdmissionTest(s: FrameState)
    ensures Admitted(s, true) <==> !(Count(s.kinds, Free) <= Managed(s.kinds) / 16)
  {
  }

  lemma FirstIsAvailable(s: FrameState, minimum: int, first: int)
    requires LeastFrame(minimum, first)
    ensures Available(s, minimum) <==> !NoneFree(s, first, s.Size())
  {
    if Available(s, minimum) {
      var f :| 1 <= f && s.IsFree(f) && minimum <= 4096 * f;
      assert first <= f < s.Size();
    }
    if !NoneFree(s, first, s.Size()) {
      var f :| first <= f < s.Size() && s.IsFree(f);
      assert minimum <= 4096 * f;
    }
  }

  /**
   * A frame call succeeds exactly when both allocators are open, a user is
   * admitted, and a frame at or above the address is free.
   */
  lemma FrameGrantedExactly(s: FrameState, minimum: int, user: bool, s': FrameState, r: int)
    requires s.Wf() && 0 <= minimum && AllocateStep(s, minimum, user, s', r)
    ensures r != 0 <==> s.ready && Admitted(s, user) && Available(s, minimum)
  {
    var first := LeastFrameOf(minimum);
    LeastFrameIs(minimum, first);
    FirstIsAvailable(s, minimum, first);
    AdmissionTest(s);
    assert minimum > U32_MAX - (FRAME_SIZE - 1) ==> !Available(s, minimum);
  }

  /** A granted frame becomes allocated; the high-water mark is the greatest number of allocated frames so far. */
  lemma FrameGranted(s: FrameState, minimum: int, user: bool, s': FrameState, r: int)
    requires s.Wf() && 0 <= minimum && AllocateStep(s, minimum, user, s', r) && r != 0
    ensures r % 4096 == 0 && s.IsFree(r / 4096) && minimum <= r && s'.kinds == s.kinds[r / 4096 := Allocated]
    ensures s'.peak == Numbers.Max(s.peak, Count(s'.kinds, Allocated))
    ensures s'.failures == s.failures && s'.ready == s.ready
  {
    var first := LeastFrameOf(minimum);
    LeastFrameIs(minimum, first);
    CountUpdate(s.kinds, r / FRAME_SIZE, Allocated, Allocated);
  }

  /** A refused call changes nothing but the failure counter, which counts it unless the address leaves no whole frame. */
  lemma FrameRefused(s: FrameState, minimum: int, user: bool, s': FrameState)
    requires s.Wf() && 0 <= minimum && AllocateStep(s, minimum, user, s', 0)
    ensures s' == s.(failures := s'.failures)
    ensures var counted := s.ready && (!Admitted(s, user) || minimum <= 0xFFFF_FFFF - 4095);
      s'.failures == if counted && s.failures < 0xFFFF_FFFF_FFFF_FFFF then s.failures + 1 else s.failures
  {
    AdmissionTest(s);
  }

  /** A release makes exactly an allocated frame free again, if it is given the frame's own address. */
  lemma FrameReleased(s: FrameState, address: int, s': FrameState)
    requires s.Wf() && 0 <= address && FrameSpec.FreeStep(s, address, s')
    ensures var f := address / 4096;
      s'.kinds == if address % 4096 == 0 && address != 0 && s.IsAllocated(f) then s.kinds[f := Free] else s.kinds
    ensures s'.peak == s.peak && s'.failures == s.failures && s'.ready == s.ready
  {
  }

  // ----- Which frame comes next

  /** The first free frame from position p on; if there is none, the first from the least allowed one on. */
  ghost predicate Turn(s: FrameState, p: int, first: int, f: int) {
    && s.IsFree(f) && first <= f
    && if exists g :: p <= g && first <= g && s.IsFree(g)
       then p <= f && forall g :: p <= g < f && first <= g ==> !s.IsFree(g)
       else forall g :: first <= g < f ==> !s.IsFree(g)
  }

  /** The search resumes at position p, or at the bottom if p is past the last frame. */
  ghost predicate ResumesAt(s: FrameState, p: int) {
    1 <= p && s.hint == if p < s.Size() then p else 1
  }

  lemma TakesTurn(s: FrameState, p: int, minimum: int, user: bool, s': FrameState, r: int, first: int)
    requires s.Wf() && ResumesAt(s, p) && 0 <= minimum && LeastFrame(minimum, first)
    requires AllocateStep(s, minimum, user, s', r) && r != 0
    ensures Turn(s, p, first, r / 4096) && ResumesAt(s', r / 4096 + 1)
  {
    LeastFrameIs(minimum, first);
    var f := r / 4096;
    assert NextFit(s, first, f);
    if g :| p <= g && first <= g && s.IsFree(g) {
      assert p < s.Size();
    }
  }

  /**
   * Two allocations in a row: the second gets the next free frame above the
   * first, or, if there is none, the lowest free frame.
   */
  lemma TwoAllocations(s: FrameState, minimum: int, u1: bool, s1: FrameState, r1: int, u2: bool, s2: FrameState, r2: int)
    requires s.Wf() && s1.Wf() && 0 <= minimum
    requires AllocateStep(s, minimum, u1, s1, r1) && r1 != 0 && AllocateStep(s1, 4096, u2, s2, r2) && r2 != 0
    ensures r2 > r1 ==> forall g :: r1 < 4096 * g < r2 ==> !s.IsFree(g)
    ensures r2 <= r1 ==> forall g :: 1 <= g && (4096 * g < r2 || r1 < 4096 * g) ==> !s.IsFree(g)
    ensures r2 != r1
  {
    FrameTaken(s, minimum, u1, s1, r1);
    TakesTurn(s1, r1 / 4096 + 1, 4096, u2, s2, r2, 1);
    forall g | s.IsFree(g) && g != r1 / 4096 ensures s1.IsFree(g) {
    }
  }

  lemma FrameTaken(s: FrameState, minimum: int, user: bool, s': FrameState, r: int)
    requires s.Wf() && 0 <= minimum && AllocateStep(s, minimum, user, s', r) && r != 0
    ensures r % 4096 == 0 && 4096 <= r && s.IsFree(r / 4096) && s'.kinds == s.kinds[r / 4096 := Allocated]
    ensures ResumesAt(s', r / 4096 + 1)
  {
    FrameGranted(s, minimum, user, s', r);
  }

  /** The first free run that begins at position p or later; if there is none, the lowest one, which ends before p. */
  ghost predicate RunTurn(s: FrameState, p: int, n: int, q: int) {
    && 1 <= q && q + n <= s.Size() && RunFree(s, q, n)
    && if exists r :: p <= r && r + n <= s.Size() && RunFree(s, r, n)
       then p <= q && forall r :: p <= r < q ==> !RunFree(s, r, n)
       else q + n <= p && forall r :: 1 <= r < q ==> !RunFree(s, r, n)
  }

  /** A pinned run was free and is reserved from now on. */
  lemma PinMarks(s: FrameState, n: int, s': FrameState, r: int)
    requires s.Wf() && 0 < n && PinStep(s, n, s', r) && r != 0
    ensures r % 4096 == 0 && 1 <= r / 4096 && r / 4096 + n <= s.Size() && RunFree(s, r / 4096, n)
    ensures s'.peak == s.peak && s'.failures == s.failures && s'.ready == s.ready && |s'.kinds| == |s.kinds|
    ensures forall f :: 0 <= f < |s.kinds| ==>
      s'.kinds[f] == if r / 4096 <= f < r / 4096 + n then Reserved else s.kinds[f]
  {
    PinnedRun(s, n, s', r);
    MarkedAt(s.kinds, r / 4096, r / 4096 + n, Reserved);
  }

  /** A refused pin changes nothing but the failure counter, which counts it if so many frames exist at all. */
  lemma PinRefused(s: FrameState, n: int, s': FrameState)
    requires s.Wf() && 0 <= n && PinStep(s, n, s', 0)
    ensures s' == s.(failures := s'.failures)
    ensures s'.failures == if s.ready && 0 < n <= s.Size() && s.failures < 0xFFFF_FFFF_FFFF_FFFF then s.failures + 1 else s.failures
  {
    if s.ready && 0 < n <= s.Size() {
      PinNeverZero(s, n, s');
    }
  }

  lemma PinNeverZero(s: FrameState, n: int, s': FrameState)
    requires s.Wf() && s.ready && 0 < n <= s.Size() && PinStep(s, n, s', 0)
    ensures n > Count(s.kinds, Free) || NoWindow(s, n)
  {
    FrameZeroApart(s, n);
  }

  lemma FrameZeroApart(s: FrameState, n: int)
    requires s.Wf() && s.ready && 0 < n
    ensures !RunFree(s, 0, n)
  {
    assert !s.IsFree(0);
  }

  /** It is the run whose turn it is, and the search resumes behind it. */
  lemma PinTakesTurn(s: FrameState, p: int, n: int, s': FrameState, r: int)
    requires s.Wf() && ResumesAt(s, p) && 0 < n && PinStep(s, n, s', r) && r != 0
    ensures r % 4096 == 0 && RunTurn(s, p, n, r / 4096) && ResumesAt(s', r / 4096 + n)
  {
    PinMarks(s, n, s', r);
    PinPlace(s, p, n, s', r / 4096);
  }

  lemma PinPlace(s: FrameState, p: int, n: int, s': FrameState, q: int)
    requires s.Wf() && ResumesAt(s, p) && 0 < n && PinStep(s, n, s', 4096 * q) && q != 0
    ensures RunTurn(s, p, n, q)
  {
    var start := RunStart(s);
    if r :| p <= r && r + n <= s.Size() && RunFree(s, r, n) {
      assert !NoRun(s, start, s.Size(), n);
      forall r | p <= r < q ensures !RunFree(s, r, n) {
      }
    } else {
      assert p < s.Size() ==> NoRun(s, start, s.Size(), n);
      forall r | 1 <= r < q ensures !RunFree(s, r, n) {
      }
    }
  }

  /** After a pin the first free frame behind the run comes next. */
  lemma AllocationAfterPin(s: FrameState, p: int, n: int, s1: FrameState, a: int, user: bool, s2: FrameState, r: int)
    requires s.Wf() && s1.Wf() && ResumesAt(s, p) && 0 < n && PinStep(s, n, s1, a) && a != 0
    requires AllocateStep(s1, 4096, user, s2, r) && r != 0
    ensures Turn(s1, a / 4096 + n, 1, r / 4096)
  {
    PinTakesTurn(s, p, n, s1, a);
    TakesTurn(s1, a / 4096 + n, 4096, user, s2, r, 1);
  }

  /** An effective release moves the position back to the frame, if it is below. */
  lemma ReleaseMoves(s: FrameState, p: int, address: int, s': FrameState)
    requires s.Wf() && ResumesAt(s, p) && 0 < address && address % 4096 == 0 && s.IsAllocated(address / 4096)
    requires FrameSpec.FreeStep(s, address, s')
    ensures s'.IsFree(address / 4096) && ResumesAt(s', if address / 4096 < p < s.Size() then address / 4096 else p)
  {
  }

  /** A frame released at or below the last one handed out comes next. */
  lemma ReleasedComesNext(s: FrameState, minimum: int, u1: bool, s1: FrameState, r1: int, address: int,
                          s2: FrameState, u2: bool, s3: FrameState, r2: int)
    requires s.Wf() && s1.Wf() && s2.Wf() && 0 <= minimum && AllocateStep(s, minimum, u1, s1, r1) && r1 != 0
    requires 0 < address && address % 4096 == 0 && s1.IsAllocated(address / 4096)
    requires FrameSpec.FreeStep(s1, address, s2) && AllocateStep(s2, 4096, u2, s3, r2) && r2 != 0
    ensures if address <= r1 && r1 / 4096 + 1 < s.Size() then r2 == address
            else Turn(s2, r1 / 4096 + 1, 1, r2 / 4096)
  {
    FrameTaken(s, minimum, u1, s1, r1);
    var p := r1 / 4096 + 1;
    ReleaseMoves(s1, p, address, s2);
    var p' := if address / 4096 < p < s.Size() then address / 4096 else p;
    TakesTurn(s2, p', 4096, u2, s3, r2, 1);
    FrameGranted(s2, 4096, u2, s3, r2);
  }

  // ----- Over whole runs

  /** Where the search resumes after a step: behind what was taken, at a released frame below, else where it did before. */
  ghost function Position(k: Kernel, p: int, op: Op, r: int, k': Kernel): int {
    match op
    case AllocateFrame(minimum, user) => if r != 0 then r / 4096 + 1 else p
    case ReleaseFrame(address) =>
      if address != 0 && address % 4096 == 0 && k.frames.IsAllocated(address / 4096) && address / 4096 < p < k.frames.Size()
      then address / 4096 else p
    case _ => if |k'.arenas| > |k.arenas| then k'.arenas[|k'.arenas| - 1].hi / 256 else p
  }

  ghost function PositionAfter(k: Kernel, p: int, es: seq<Event>): int
    decreases |es|
  {
    if es == [] then p
    else PositionAfter(es[0].after, Position(k, p, es[0].op, es[0].result, es[0].after), es[1..])
  }

  /** A new arena is the run whose turn it is. */
  ghost predicate ArenaTurn(s: FrameState, p: int, a: Arena) {
    && a.lo % 256 == 0 && a.lo < a.hi && a.hi % 256 == 0
    && RunTurn(s, p, (a.hi - a.lo) / 256, a.lo / 256)
  }

  lemma ArenaOfRun(s: FrameState, p: int, n: int, q: int)
    requires RunTurn(s, p, n, q) && 0 < n
    ensures ArenaTurn(s, p, Arena(256 * q, 256 * (q + n))) && Arena(256 * q, 256 * (q + n)).hi / 256 == q + n
  {
  }

  lemma GrownPosition(k: Kernel, p: int, n: int, m: Kernel)
    requires k.Inv() && ResumesAt(k.frames, p) && 0 < n && ExtendStep(k, n, m, true)
    ensures |m.arenas| == |k.arenas| + 1 && ArenaTurn(k.frames, p, m.arenas[|k.arenas|])
    ensures ResumesAt(m.frames, m.arenas[|k.arenas|].hi / 256)
  {
    var count := ArenaBytes(n) / FRAME_SIZE;
    ArenaHolds(n);
    var address :| PinStep(k.frames, count, m.frames, address) && address != 0
                   && Adopted(k, address / FRAME_SIZE, count, m);
    PinTakesTurn(k.frames, p, count, m.frames, address);
    ArenaOfRun(k.frames, p, count, address / 4096);
  }

  lemma NotGrownPosition(k: Kernel, p: int, n: int, m: Kernel)
    requires k.Inv() && ResumesAt(k.frames, p) && 0 < n && ExtendStep(k, n, m, false)
    ensures m.arenas == k.arenas && ResumesAt(m.frames, p)
  {
    if !ArenaOverflows(n) {
      var count := ArenaBytes(n) / FRAME_SIZE;
      ArenaHolds(n);
      var address :| PinStep(k.frames, count, m.frames, address) && address == 0;
      FailedPinInv(k, count, m.frames);
    }
  }

  lemma MallocPosition(k: Kernel, p: int, size: int, k': Kernel, r: int)
    requires k.Inv() && k'.Inv() && ResumesAt(k.frames, p) && MallocStep(k, size, k', r) && 0 <= size
    ensures ResumesAt(k'.frames, Position(k, p, Malloc(size), r, k'))
    ensures |k'.arenas| > |k.arenas| ==> ArenaTurn(k.frames, p, k'.arenas[|k'.arenas| - 1])
  {
    if k.frames.ready && 0 < size <= U32_MAX - (GRANULE - 1) && NoFit(k.blocks, Granules(size)) {
      AlignUp16(size);
      GrowthPosition(k, p, size, Granules(size), k', r);
    }
  }

  lemma GrowthPosition(k: Kernel, p: int, size: int, n: int, k': Kernel, r: int)
    requires k.Inv() && ResumesAt(k.frames, p) && MallocStep(k, size, k', r)
    requires k.frames.ready && 0 < size <= U32_MAX - (GRANULE - 1) && n == Granules(size) && 0 < n && NoFit(k.blocks, n)
    ensures ResumesAt(k'.frames, Position(k, p, Malloc(size), r, k'))
    ensures |k'.arenas| > |k.arenas| ==> ArenaTurn(k.frames, p, k'.arenas[|k'.arenas| - 1])
  {
    var m: Kernel, ok :| m.Inv() && ExtendStep(k, n, m, ok)
      && if ok then TakeStep(m, n, k', r) else k' == m.Failed() && r == 0;
    if ok {
      TakenPosition(k, p, size, n, m, k', r);
    } else {
      NotGrownPosition(k, p, n, m);
    }
  }

  lemma TakenPosition(k: Kernel, p: int, size: int, n: int, m: Kernel, k': Kernel, r: int)
    requires k.Inv() && ResumesAt(k.frames, p) && 0 < n && ExtendStep(k, n, m, true) && TakeStep(m, n, k', r)
    ensures ResumesAt(k'.frames, Position(k, p, Malloc(size), r, k'))
    ensures |k'.arenas| > |k.arenas| ==> ArenaTurn(k.frames, p, k'.arenas[|k'.arenas| - 1])
  {
    GrownPosition(k, p, n, m);
    assert k'.arenas == m.arenas && k'.frames == m.frames;
  }

  lemma StepPosition(k: Kernel, p: int, op: Op, k': Kernel, r: int)
    requires k.Inv() && ResumesAt(k.frames, p) && Step(k, op, k', r) && Sensible(op)
    ensures ResumesAt(k'.frames, Position(k, p, op, r, k'))
  {
    match op
    case AllocateFrame(minimum, user) =>
      if r != 0 {
        FrameTaken(k.frames, minimum, user, k'.frames, r);
      } else {
        FrameRefused(k.frames, minimum, user, k'.frames);
      }
    case ReleaseFrame(address) =>
      if address != 0 && address % 4096 == 0 && k.frames.IsAllocated(address / 4096) {
        ReleaseMoves(k.frames, p, address, k'.frames);
      }
    case Malloc(size) => MallocPosition(k, p, size, k', r);
    case _ =>
  }

  /** Arguments are words. */
  ghost predicate Sensible(op: Op) {
    && (op.AllocateFrame? ==> 0 <= op.minimum) && (op.ReleaseFrame? ==> 0 <= op.address) && (op.Malloc? ==> 0 <= op.size)
  }

  lemma {:induction false} RunPosition(k: Kernel, p: int, es: seq<Event>)
    requires k.Inv() && ResumesAt(k.frames, p) && Run(k, es) && forall e :: e in es ==> Sensible(e.op)
    ensures Last(k, es).Inv() && ResumesAt(Last(k, es).frames, PositionAfter(k, p, es))
    decreases |es|
  {
    if es != [] {
      StepPosition(k, p, es[0].op, es[0].after, es[0].result);
      assert forall x :: x in es[1..] ==> x in es;
      RunPosition(es[0].after, Position(k, p, es[0].op, es[0].result, es[0].after), es[1..]);
    }
  }

  /**
   * After every run from boot the next frame handed out is the one whose turn
   * it is: the addresses that the earlier calls returned and released decide it.
   */
  lemma NextFrameOfRun(k: Kernel, usable: seq<Region>, reserved: seq<Region>, l: Layout, limit: int, es: seq<Event>,
                       minimum: int, user: bool, k': Kernel, r: int, first: int)
    requires Booted(k, usable, reserved, l, limit) && Run(k, es) && forall e :: e in es ==> Sensible(e.op)
    requires Step(Last(k, es), AllocateFrame(minimum, user), k', r) && r != 0
    requires 0 <= minimum && LeastFrame(minimum, first)
    ensures r % 4096 == 0 && Turn(Last(k, es).frames, PositionAfter(k, 1, es), first, r / 4096)
  {
    RunPosition(k, 1, es);
    TakesTurn(Last(k, es).frames, PositionAfter(k, 1, es), minimum, user, k'.frames, r, first);
    FrameGranted(Last(k, es).frames, minimum, user, k'.frames, r);
  }

  /** And the next arena is the run whose turn it is. */
  lemma NextArenaOfRun(k: Kernel, usable: seq<Region>, reserved: seq<Region>, l: Layout, limit: int, es: seq<Event>,
                       size: int, k': Kernel, r: int)
    requires Booted(k, usable, reserved, l, limit) && Run(k, es) && forall e :: e in es ==> Sensible(e.op)
    requires Step(Last(k, es), Malloc(size), k', r) && 0 <= size && |k'.arenas| > |Last(k, es).arenas|
    ensures ArenaTurn(Last(k, es).frames, PositionAfter(k, 1, es), k'.arenas[|k'.arenas| - 1])
  {
    RunPosition(k, 1, es);
    MallocPosition(Last(k, es), PositionAfter(k, 1, es), size, k', r);
  }
}
