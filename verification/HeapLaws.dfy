/**
 * What the heap calls return, said of memory alone: of the granules of the
 * arenas that no live block takes, and of the numbers of the request.
 */
module HeapLaws {
  import opened Machine
  import opened FrameSpec
  import opened Blocks
  import opened HeapSpec
  import opened HeapLemmas
  import opened FrameLaws
  import opened Runs
  import opened Guarantees
  import Numbers

  /** Heap memory that belongs to no live block. */
  ghost predicate Vacant(arenas: seq<Arena>, live: set<Block>, g: int) {
    InArenas(arenas, g) && forall b :: b in live ==> !(b.at <= g < b.at + 1 + b.size)
  }

  /** A longest stretch of such memory. */
  ghost predicate Gap(arenas: seq<Arena>, live: set<Block>, a: int, e: int) {
    && a < e && (forall g :: a <= g < e ==> Vacant(arenas, live, g))
    && !Vacant(arenas, live, a - 1) && !Vacant(arenas, live, e)
  }

  lemma VacantIsFree(k: Kernel, i: int, g: int)
    requires k.Inv() && 0 <= i < |k.blocks| && Holds(k.blocks[i], g)
    ensures Vacant(k.arenas, Live(k.blocks), g) <==> k.blocks[i].free
  {
    assert Covers(k.blocks, g);
    assert InArenas(k.arenas, g);
    if k.blocks[i].free {
      forall b | b in Live(k.blocks) ensures !(b.at <= g < b.at + 1 + b.size) {
        var j := LiveIndex(k.blocks, b);
        LivePayloadsApart(k.blocks, i, j);
      }
    } else {
      assert k.blocks[i] in Live(k.blocks);
    }
  }

  lemma BlockAround(k: Kernel, g: int) returns (i: int)
    requires k.Inv() && InArenas(k.arenas, g)
    ensures 0 <= i < |k.blocks| && Holds(k.blocks[i], g)
  {
    assert Covers(k.blocks, g);
    i :| 0 <= i < |k.blocks| && Holds(k.blocks[i], g);
  }

  /** Two free blocks never touch. */
  lemma FreeNeverTouch(bs: seq<Block>, i: int, j: int)
    requires Sorted(bs) && Coalesced(bs) && 0 <= i < |bs| && 0 <= j < |bs| && bs[i].free && bs[j].free
    ensures bs[i].End() != bs[j].at
  {
    assert Parted(bs, i) && Before(bs, j, i) && Before(bs, i, i + 1) && Before(bs, i + 1, j);
  }

  /** The free blocks of the list are gaps. */
  lemma FreeBlockIsGap(k: Kernel, i: int)
    requires k.Inv() && 0 <= i < |k.blocks| && k.blocks[i].free
    ensures Gap(k.arenas, Live(k.blocks), k.blocks[i].at, k.blocks[i].End())
  {
    var b := k.blocks[i];
    forall g | b.at <= g < b.End() ensures Vacant(k.arenas, Live(k.blocks), g) {
      VacantIsFree(k, i, g);
    }
    if Vacant(k.arenas, Live(k.blocks), b.at - 1) {
      var j := BlockAround(k, b.at - 1);
      VacantIsFree(k, j, b.at - 1);
      LivePayloadsApart(k.blocks, i, j);
      FreeNeverTouch(k.blocks, j, i);
    }
    if Vacant(k.arenas, Live(k.blocks), b.End()) {
      var j := BlockAround(k, b.End());
      VacantIsFree(k, j, b.End());
      LivePayloadsApart(k.blocks, i, j);
      FreeNeverTouch(k.blocks, i, j);
    }
  }

  /** And there are no other gaps. */
  lemma GapIsFreeBlock(k: Kernel, a: int, e: int) returns (i: int)
    requires k.Inv() && Gap(k.arenas, Live(k.blocks), a, e)
    ensures 0 <= i < |k.blocks| && k.blocks[i] == Block(a, e - a - 1, true)
  {
    assert Vacant(k.arenas, Live(k.blocks), a);
    i := BlockAround(k, a);
    VacantIsFree(k, i, a);
    FreeBlockIsGap(k, i);
    SameGap(k.arenas, Live(k.blocks), a, e, k.blocks[i].at, k.blocks[i].End());
  }

  lemma SameGap(arenas: seq<Arena>, live: set<Block>, a: int, e: int, b: int, f: int)
    requires Gap(arenas, live, a, e) && Gap(arenas, live, b, f) && b <= a < f
    ensures a == b && e == f
  {
    assert b <= a - 1 < f ==> Vacant(arenas, live, a - 1);
    assert b <= e < f ==> Vacant(arenas, live, e);
    assert a <= f < e ==> Vacant(arenas, live, f);
  }

  /** The gap of lowest address that holds a header and n granules. */
  ghost predicate LowestFit(arenas: seq<Arena>, live: set<Block>, n: int, a: int, e: int) {
    && Gap(arenas, live, a, e) && e - a >= n + 1
    && forall a', e' :: Gap(arenas, live, a', e') && e' - a' >= n + 1 ==> a <= a'
  }

  ghost predicate NothingFits(arenas: seq<Arena>, live: set<Block>, n: int) {
    forall a, e :: Gap(arenas, live, a, e) ==> e - a < n + 1
  }

  lemma NoFitIsNothing(k: Kernel, n: int)
    requires k.Inv()
    ensures NoFit(k.blocks, n) <==> NothingFits(k.arenas, Live(k.blocks), n)
  {
    if NoFit(k.blocks, n) {
      forall a, e | Gap(k.arenas, Live(k.blocks), a, e) ensures e - a < n + 1 {
        var i := GapIsFreeBlock(k, a, e);
      }
    } else {
      var i :| 0 <= i < |k.blocks| && Fits(k.blocks[i], n);
      FreeBlockIsGap(k, i);
    }
  }

  lemma FirstFitIsLowest(k: Kernel, n: int, i: int)
    requires k.Inv() && FirstFit(k.blocks, n, i)
    ensures LowestFit(k.arenas, Live(k.blocks), n, k.blocks[i].at, k.blocks[i].End())
  {
    FreeBlockIsGap(k, i);
    forall a, e | Gap(k.arenas, Live(k.blocks), a, e) && e - a >= n + 1 ensures k.blocks[i].at <= a {
      var j := GapIsFreeBlock(k, a, e);
      assert Fits(k.blocks[j], n);
      assert Before(k.blocks, i, j);
    }
  }

  /** The block cut from a gap: the rest stays free if it holds a header and a granule. */
  function Cut(a: int, e: int, n: int): Block { Block(a, if e - a - 1 >= n + 2 then n else e - a - 1, false) }

  /** From the kernel m the call took the lowest fitting gap. */
  ghost predicate TookLowest(m: Kernel, n: int, k': Kernel, r: int, a: int, e: int) {
    && LowestFit(m.arenas, Live(m.blocks), n, a, e) && r == 16 * (a + 1)
    && Live(k'.blocks) == Live(m.blocks) + {Cut(a, e, n)}
    && k'.arenas == m.arenas && k'.frames == m.frames
    && k'.failures == m.failures && k'.peak == Numbers.Max(m.peak, k'.Used())
  }

  lemma TakeTookLowest(m: Kernel, n: int, k': Kernel, r: int) returns (a: int, e: int)
    requires m.Inv() && TakeStep(m, n, k', r)
    ensures TookLowest(m, n, k', r, a, e)
  {
    var i :| FirstFit(m.blocks, n, i) && Carved(m, m.blocks[i], n, k') && r == PayloadAddress(m.blocks[i].at);
    a, e := m.blocks[i].at, m.blocks[i].End();
    FirstFitIsLowest(m, n, i);
  }

  // ----- Allocation

  /** The granules of a request: the bytes rounded up. */
  function Asked(size: int): int { (size + 15) / 16 }

  /** The frames of a new arena for n granules: the fewest that hold 256 KiB, and the request with its header. */
  ghost predicate ArenaFrames(n: int, count: int) {
    && 4096 * count >= 16 * n + 16 && 4096 * count >= 0x4_0000
    && (4096 * (count - 1) < 16 * n + 16 || 4096 * (count - 1) < 0x4_0000)
  }

  lemma FramesOfArena(n: int)
    requires 0 < n
    ensures ArenaFrames(n, ArenaBytes(n) / FRAME_SIZE)
  {
    ArenaHolds(n);
  }

  lemma FramesUnique(n: int, c: int, d: int)
    requires ArenaFrames(n, c) && ArenaFrames(n, d)
    ensures c == d
  {
  }

  /** Every run of that many free frames begins below the search hint and ends above it. */
  ghost predicate OnlyAcrossHint(s: FrameState, count: int) {
    forall q {:trigger RunFree(s, q, count)} :: 1 <= q && q + count <= s.Size() && RunFree(s, q, count)
      ==> 1 < s.hint < s.Size() && q < s.hint < q + count
  }

  /** No gap holds the request and no arena can be added for it. */
  ghost predicate Exhausted(k: Kernel, n: int) {
    && NothingFits(k.arenas, Live(k.blocks), n)
    && (16 * n + 16 > 0xFFFF_FFFF - 4095
        || forall count :: ArenaFrames(n, count) ==> OnlyAcrossHint(k.frames, count))
  }

  lemma CannotGrowIsExhausted(k: Kernel, n: int)
    requires k.Inv() && k.frames.ready && 0 < n
    ensures NoFit(k.blocks, n) && CannotGrow(k, n) <==> Exhausted(k, n)
  {
    NoFitIsNothing(k, n);
    FramesOfArena(n);
    var count := ArenaBytes(n) / FRAME_SIZE;
    assert AllStraddle(k.frames, count) <==> OnlyAcrossHint(k.frames, count);
    if Exhausted(k, n) && 16 * n + 16 <= 0xFFFF_FFFF - 4095 {
      assert OnlyAcrossHint(k.frames, count);
    }
    if CannotGrow(k, n) && !ArenaOverflows(n) {
      forall c | ArenaFrames(n, c) ensures OnlyAcrossHint(k.frames, c) {
        FramesUnique(n, c, count);
      }
    }
  }

  lemma AskedIsGranules(size: int)
    requires 0 <= size
    ensures Asked(size) == Granules(size) && (0 < size ==> 0 < Asked(size))
  {
    AlignUp16(size);
    assert AlignUp(size, 16) == 16 * ((size + 15) / 16);
  }

  /** k_malloc fails exactly for an empty or overflowing request, before boot, or when the heap is exhausted. */
  lemma MallocRefused(k: Kernel, size: int, k': Kernel, r: int)
    requires k.Inv() && k'.Inv() && 0 <= size <= U32_MAX && MallocStep(k, size, k', r)
    ensures r == 0 <==> !k.frames.ready || size == 0 || size > 0xFFFF_FFFF - 15 || Exhausted(k, Asked(size))
  {
    MallocFailsExactly(k, size, k', r);
    AskedIsGranules(size);
    if k.frames.ready && 0 < size <= 0xFFFF_FFFF - 15 {
      CannotGrowIsExhausted(k, Asked(size));
    }
  }

  /** One more arena for n granules, made of free frames that are reserved from now on, and nothing else. */
  ghost predicate Grew(k: Kernel, n: int, m: Kernel) {
    && Live(m.blocks) == Live(k.blocks) && m.peak == k.peak && m.failures == k.failures
    && |m.frames.kinds| == |k.frames.kinds|
    && exists q, count :: ArenaFrames(n, count) && ArenaMade(k, q, count, m)
  }

  ghost predicate ArenaMade(k: Kernel, q: int, count: int, m: Kernel)
    requires |m.frames.kinds| == |k.frames.kinds|
  {
    && 1 <= q && RunFree(k.frames, q, count) && m.arenas == k.arenas + [Arena(256 * q, 256 * (q + count))]
    && forall f :: 0 <= f < |k.frames.kinds| ==>
         m.frames.kinds[f] == if q <= f < q + count then Reserved else k.frames.kinds[f]
  }

  lemma ExtendGrew(k: Kernel, n: int, m: Kernel)
    requires k.Inv() && 0 < n && ExtendStep(k, n, m, true)
    ensures Grew(k, n, m)
  {
    var count := ArenaBytes(n) / FRAME_SIZE;
    FramesOfArena(n);
    var address :| PinStep(k.frames, count, m.frames, address) && address != 0
                   && Adopted(k, address / FRAME_SIZE, count, m);
    PinMarks(k.frames, count, m.frames, address);
    assert ArenaMade(k, address / 4096, count, m);
  }

  /**
   * What k_malloc returns: the lowest gap that holds a header and the granules
   * asked for, of the heap as it is if there is one, else of the grown heap.
   */
  lemma MallocTakes(k: Kernel, size: int, k': Kernel, r: int) returns (m: Kernel, a: int, e: int)
    requires k.Inv() && k'.Inv() && 0 <= size <= U32_MAX && MallocStep(k, size, k', r) && r != 0
    ensures if NothingFits(k.arenas, Live(k.blocks), Asked(size)) then Grew(k, Asked(size), m) else m == k
    ensures TookLowest(m, Asked(size), k', r, a, e)
  {
    var n := Asked(size);
    AskedIsGranules(size);
    NoFitIsNothing(k, n);
    m := k;
    if NoFit(k.blocks, n) {
      m := GrownKernel(k, size, k', r);
    }
    a, e := TakeTookLowest(m, n, k', r);
  }

  lemma GrownKernel(k: Kernel, size: int, k': Kernel, r: int) returns (m: Kernel)
    requires k.Inv() && k'.Inv() && 0 <= size <= U32_MAX && MallocStep(k, size, k', r) && r != 0
    requires NoFit(k.blocks, Granules(size)) && 0 < Granules(size)
    ensures m.Inv() && Grew(k, Granules(size), m) && TakeStep(m, Granules(size), k', r)
  {
    var n := Granules(size);
    var ok;
    m, ok :| m.Inv() && ExtendStep(k, n, m, ok)
      && if ok then TakeStep(m, n, k', r) else k' == m.Failed() && r == 0;
    ExtendGrew(k, n, m);
  }

  /** A refused call changes nothing but the failure counters, which count it once if growing was tried. */
  lemma RefusedChangesNothing(k: Kernel, size: int, k': Kernel)
    requires k.Inv() && k'.Inv() && 0 <= size <= U32_MAX && MallocStep(k, size, k', 0)
    ensures k'.blocks == k.blocks && k'.arenas == k.arenas && k'.mem == k.mem && k'.peak == k.peak
    ensures k'.frames == k.frames.(failures := k'.frames.failures)
    ensures var tried := k.frames.ready && 0 < size <= 0xFFFF_FFFF - 15;
      k'.failures == if tried && k.failures < 0xFFFF_FFFF_FFFF_FFFF then k.failures + 1 else k.failures
  {
    if k.frames.ready && 0 < size <= 0xFFFF_FFFF - 15 {
      var n := Granules(size);
      AskedIsGranules(size);
      if NoFit(k.blocks, n) {
        FailedGrowth(k, size, n, k', 0);
      } else {
        TakeReturnsAddress(k, k', n, 0);
      }
    }
  }

  lemma FailedGrowth(k: Kernel, size: int, n: int, k': Kernel, r: int)
    requires k.Inv() && k.frames.ready && 0 < size <= 0xFFFF_FFFF - 15 && n == Granules(size) && 0 < n
    requires NoFit(k.blocks, n) && MallocStep(k, size, k', r) && r == 0
    ensures k'.blocks == k.blocks && k'.arenas == k.arenas && k'.mem == k.mem && k'.peak == k.peak
    ensures k'.frames == k.frames.(failures := k'.frames.failures)
    ensures k'.failures == if k.failures < 0xFFFF_FFFF_FFFF_FFFF then k.failures + 1 else k.failures
  {
    var m: Kernel, ok :| m.Inv() && ExtendStep(k, n, m, ok)
      && if ok then TakeStep(m, n, k', r) else k' == m.Failed() && r == 0;
    if ok {
      TakeReturnsAddress(m, k', n, r);
    } else if !ArenaOverflows(n) {
      var count := ArenaBytes(n) / FRAME_SIZE;
      ArenaHolds(n);
      var address :| PinStep(k.frames, count, m.frames, address) && ok == (address != 0);
      FailedPinInv(k, count, m.frames);
    }
  }

  // ----- Reallocation

  /** The free block behind b that makes it hold n granules without moving: its header is gained with it. */
  ghost predicate Follower(k: Kernel, b: Block, n: int, c: Block) {
    c in k.blocks && c.free && c.at == b.at + 1 + b.size && c.at + 1 + c.size >= b.at + 1 + n
  }

  ghost predicate HasFollower(k: Kernel, b: Block, n: int) { exists c :: Follower(k, b, n, c) }

  lemma GrowableIsFollower(k: Kernel, i: int, n: int)
    requires k.Inv() && 0 <= i < |k.blocks|
    ensures Growable(k.blocks, i, n) <==> HasFollower(k, k.blocks[i], n)
    ensures Growable(k.blocks, i, n) ==> Follower(k, k.blocks[i], n, k.blocks[i + 1])
    ensures forall c :: Follower(k, k.blocks[i], n, c) ==> i + 1 < |k.blocks| && c == k.blocks[i + 1]
  {
    if Growable(k.blocks, i, n) {
      assert Follower(k, k.blocks[i], n, k.blocks[i + 1]);
    }
    forall c | Follower(k, k.blocks[i], n, c) ensures i + 1 < |k.blocks| && c == k.blocks[i + 1] {
      var j :| 0 <= j < |k.blocks| && k.blocks[j] == c;
      assert Before(k.blocks, j, i) && Before(k.blocks, i, i + 1) && Before(k.blocks, i + 1, j);
    }
  }

  /** The locked part: it stays, is extended by its follower, or has to move. */
  lemma LockedExactly(k: Kernel, b: Block, n: int, m: Kernel, v: Verdict)
    requires k.Inv() && b in Live(k.blocks) && 0 < n && ReallocStep(k, 16 * (b.at + 1), n, m, v)
    ensures v.Stays? <==> n <= b.size
    ensures v.Grown? <==> n > b.size && HasFollower(k, b, n)
    ensures v.Stays? || v.Moves? ==> m == k
    ensures v.Moves? ==> v == Moves(b.size)
    ensures v != Missing
    ensures v.Grown? ==> forall c :: Follower(k, b, n, c) ==> GrownInPlace(k, b, n, m, c)
  {
    var i := LiveIndex(k.blocks, b);
    Distinct(k.blocks, i);
    GrowableIsFollower(k, i, n);
  }

  /** The follower is joined, and what is left of it is cut off again. */
  ghost predicate GrownInPlace(k: Kernel, b: Block, n: int, m: Kernel, c: Block) {
    && Live(m.blocks) == Live(k.blocks) - {b} + {Cut(b.at, c.at + 1 + c.size, n)}
    && m.arenas == k.arenas && m.frames == k.frames && m.failures == k.failures
    && m.peak == Numbers.Max(k.peak, m.Used())
  }

  lemma ReallocParts(k: Kernel, b: Block, size: int, k': Kernel, r: int) returns (m: Kernel, v: Verdict)
    requires k.Inv() && b in Live(k.blocks) && 0 < size <= 0xFFFF_FFFF - 15
    requires KReallocStep(k, 16 * (b.at + 1), size, k', r)
    ensures 0 < Asked(size) && 16 * Asked(size) <= U32_MAX && m.Inv()
    ensures ReallocStep(k, 16 * (b.at + 1), Asked(size), m, v) && Settled(m, v, 16 * (b.at + 1), Asked(size), k', r)
  {
    LiveBounds(k, b);
    AskedIsGranules(size);
    var n, ptr := Asked(size), 16 * (b.at + 1);
    m, v :| m.Inv() && ReallocStep(k, ptr, n, m, v) && Settled(m, v, ptr, n, k', r);
  }

  /**
   * k_realloc of a live block to more than it holds: it stays where it is exactly
   * when a free block begins at its end and reaches far enough. Otherwise it fails
   * exactly when the heap is exhausted, and else moves.
   */
  lemma ReallocExactly(k: Kernel, b: Block, size: int, k': Kernel, r: int)
    requires k.Inv() && k'.Inv() && b in Live(k.blocks) && 0 < size <= 0xFFFF_FFFF - 15
    requires KReallocStep(k, 16 * (b.at + 1), size, k', r)
    ensures Asked(size) <= b.size ==> r == 16 * (b.at + 1) && k' == k
    ensures Asked(size) > b.size ==>
      && (r == 16 * (b.at + 1) <==> HasFollower(k, b, Asked(size)))
      && (r == 0 <==> !HasFollower(k, b, Asked(size)) && Exhausted(k, Asked(size)))
  {
    LiveBounds(k, b);
    var m, v := ReallocParts(k, b, size, k', r);
    LockedExactly(k, b, Asked(size), m, v);
    if v.Moves? {
      MovedExactly(k, b, Asked(size), k', r);
    }
  }

  /** Staying: the follower is joined, and what is left of it is cut off again. */
  lemma ReallocStays(k: Kernel, b: Block, size: int, k': Kernel, r: int, c: Block)
    requires k.Inv() && k'.Inv() && b in Live(k.blocks) && 0 < size <= 0xFFFF_FFFF - 15
    requires KReallocStep(k, 16 * (b.at + 1), size, k', r)
    requires Asked(size) > b.size && Follower(k, b, Asked(size), c)
    ensures GrownInPlace(k, b, Asked(size), k', c)
  {
    var m, v := ReallocParts(k, b, size, k', r);
    LockedExactly(k, b, Asked(size), m, v);
    assert HasFollower(k, b, Asked(size));
  }

  lemma AskedWhole(n: int)
    ensures Asked(16 * n) == n
  {
  }

  /** An allocation never returns the address of a live block. */
  lemma MallocElsewhere(k: Kernel, b: Block, size: int, k': Kernel, r: int)
    requires k.Inv() && k'.Inv() && b in Live(k.blocks) && MallocStep(k, size, k', r) && r != 0
    ensures r != 16 * (b.at + 1)
  {
    var j := MallocGrants(k, size, k', r);
    assert b in Live(k'.blocks);
    var x := LiveIndex(k'.blocks, b);
    Distinct(k'.blocks, x);
  }

  lemma MovedExactly(k: Kernel, b: Block, n: int, k': Kernel, r: int)
    requires k.Inv() && k'.Inv() && b in Live(k.blocks) && 0 < n && 16 * n <= U32_MAX
    requires MoveStep(k, 16 * (b.at + 1), b.size, 16 * n, k', r)
    ensures r == 0 <==> Exhausted(k, n)
    ensures r != 16 * (b.at + 1)
  {
    var m1: Kernel :| m1.Inv() && MallocStep(k, 16 * n, m1, r);
    assert k.frames.ready;
    AskedWhole(n);
    MallocRefused(k, 16 * n, m1, r);
    LiveBounds(k, b);
    if r != 0 {
      MallocElsewhere(k, b, 16 * n, m1, r);
    }
  }

  /** Moving: a new block in the lowest fitting gap takes the place of the old one. */
  lemma ReallocMoves(k: Kernel, b: Block, size: int, k': Kernel, r: int) returns (m: Kernel, a: int, e: int)
    requires k.Inv() && k'.Inv() && b in Live(k.blocks) && 0 < size <= 0xFFFF_FFFF - 15
    requires KReallocStep(k, 16 * (b.at + 1), size, k', r) && r != 0 && r != 16 * (b.at + 1)
    ensures if NothingFits(k.arenas, Live(k.blocks), Asked(size)) then Grew(k, Asked(size), m) else m == k
    ensures LowestFit(m.arenas, Live(m.blocks), Asked(size), a, e) && r == 16 * (a + 1)
    ensures Live(k'.blocks) == Live(k.blocks) - {b} + {Cut(a, e, Asked(size))} && k'.arenas == m.arenas
  {
    var n, ptr := Asked(size), 16 * (b.at + 1);
    var l, v := ReallocParts(k, b, size, k', r);
    LockedExactly(k, b, n, l, v);
    var m1: Kernel, m2: Kernel :| m1.Inv() && m2.Inv() && MallocStep(k, GRANULE * n, m1, r)
      && CopyStep(m1, r / GRANULE, ptr / GRANULE, b.size, m2) && KFreeStep(m2, ptr, k');
    AskedWhole(n);
    m, a, e := MallocTakes(k, 16 * n, m1, r);
    OldBlockReleased(k, b, m1, Cut(a, e, n), m2, k');
  }

  lemma OldBlockReleased(k: Kernel, b: Block, m1: Kernel, c: Block, m2: Kernel, k': Kernel)
    requires k.Inv() && m1.Inv() && m2.Inv() && b in Live(k.blocks) && c != b && m2.blocks == m1.blocks
    requires Live(m1.blocks) == Live(k.blocks) + {c} && KFreeStep(m2, 16 * (b.at + 1), k')
    requires m2.arenas == m1.arenas
    ensures Live(k'.blocks) == Live(k.blocks) - {b} + {c} && k'.arenas == m1.arenas
  {
    assert b in Live(m2.blocks);
    var i := LiveIndex(m2.blocks, b);
    Distinct(m2.blocks, i);
  }

  /** A pointer that is not the payload address of a live block is refused, and nothing changes. */
  lemma ReallocElsewhere(k: Kernel, ptr: int, size: int, k': Kernel, r: int)
    requires k.Inv() && ptr != 0 && 0 < size <= U32_MAX && KReallocStep(k, ptr, size, k', r)
    requires forall b :: b in Live(k.blocks) ==> ptr != 16 * (b.at + 1)
    ensures r == 0 && k' == k
  {
    if size <= 0xFFFF_FFFF - 15 {
      var n := Granules(size);
      var m: Kernel, v :| m.Inv() && ReallocStep(k, ptr, n, m, v) && Settled(m, v, ptr, n, k', r);
      forall i ensures !LiveAddress(k.blocks, ptr, i) {
        assert 0 <= i < |k.blocks| && !k.blocks[i].free ==> k.blocks[i] in Live(k.blocks);
      }
    }
  }

  /** k_free ends exactly the live block whose payload begins at the address, if there is one. */
  lemma FreeExactly(k: Kernel, ptr: int, k': Kernel)
    requires k.Inv() && KFreeStep(k, ptr, k')
    ensures Live(k'.blocks) == (set b | b in Live(k.blocks) && ptr != 16 * (b.at + 1))
    ensures k'.arenas == k.arenas && k'.frames == k.frames && k'.peak == k.peak && k'.failures == k.failures
  {
    forall b | b in Live(k.blocks) ensures LiveAt(k.blocks, ptr, b) {
      var j := LiveIndex(k.blocks, b);
    }
    if !NoLiveAddress(k.blocks, ptr) {
      var i :| LiveAddress(k.blocks, ptr, i)
        && Relisted(k, k', Live(k.blocks) - {k.blocks[i]}) && k'.peak == k.peak;
      Distinct(k.blocks, i);
    }
  }

  ghost predicate LiveAt(bs: seq<Block>, ptr: int, b: Block) {
    ptr == 16 * (b.at + 1) ==> exists j :: LiveAddress(bs, ptr, j) && bs[j] == b
  }

  /** The remaining cases of k_realloc: nothing to resize, nothing asked for, too much asked for. */
  lemma ReallocEdges(k: Kernel, ptr: int, size: int, k': Kernel, r: int)
    requires k.Inv() && KReallocStep(k, ptr, size, k', r)
    ensures ptr == 0 ==> MallocStep(k, size, k', r)
    ensures ptr != 0 && size == 0 ==>
      r == 0 && Live(k'.blocks) == (set b | b in Live(k.blocks) && ptr != 16 * (b.at + 1))
    ensures ptr != 0 && size > 0xFFFF_FFFF - 15 ==> r == 0 && k' == k
  {
    if ptr != 0 && size == 0 {
      FreeExactly(k, ptr, k');
    }
  }
}
