/** What each step of the heap does to its invariant and to live payloads. */
module HeapLemmas {
  import opened Machine
  import opened Numbers
  import opened FrameSpec
  import opened Blocks
  import opened Canonical
  import opened HeapSpec

  predicate Sides(bs: seq<Block>, p: int, at: int, j: int) {
    0 <= j < |bs| ==> if j < p then bs[j].at < at else at < bs[j].at
  }

  /** The blocks before index p lie below the address and the others above it. */
  ghost predicate InsertsAt(bs: seq<Block>, p: int, at: int) {
    0 <= p <= |bs| && forall j :: Sides(bs, p, at, j)
  }

  /** Writing granule p touches no live payload. */
  ghost predicate NoLivePayload(bs: seq<Block>, p: int) {
    forall b :: b in Live(bs) ==> !(b.at < p < b.End())
  }

  lemma HeaderNotPayload(bs: seq<Block>, i: int)
    requires Sorted(bs) && 0 <= i < |bs|
    ensures NoLivePayload(bs, bs[i].at)
  {
    forall b | b in Live(bs) ensures !(b.at < bs[i].at < b.End()) {
      var k :| 0 <= k < |bs| && bs[k] == b;
      assert Before(bs, k, i) && Before(bs, i, k);
    }
  }

  lemma FreeNotPayload(bs: seq<Block>, i: int, p: int)
    requires Sorted(bs) && 0 <= i < |bs| && bs[i].free && Holds(bs[i], p)
    ensures NoLivePayload(bs, p)
  {
    forall b | b in Live(bs) ensures !(b.at < p < b.End()) {
      var k :| 0 <= k < |bs| && bs[k] == b;
      assert Before(bs, k, i) && Before(bs, i, k);
    }
  }

  lemma UncoveredNotPayload(bs: seq<Block>, p: int)
    requires !Covers(bs, p)
    ensures NoLivePayload(bs, p)
  {
    forall b | b in Live(bs) ensures !(b.at < p < b.End()) {
      var k :| 0 <= k < |bs| && bs[k] == b;
      assert !Holds(bs[k], p);
    }
  }

  lemma HeaderWritesKeep(bs: seq<Block>, m: seq<Granule>, m': seq<Granule>, p: int, q: int)
    requires SameBut(m, m', p, q) && NoLivePayload(bs, p) && NoLivePayload(bs, q)
    ensures Kept(m, m', Live(bs))
  {
  }

  lemma KeptTransitive(m: seq<Granule>, m1: seq<Granule>, m2: seq<Granule>, live: set<Block>)
    requires Kept(m, m1, live) && Kept(m1, m2, live)
    ensures Kept(m, m2, live)
  {
    forall b, g {:trigger b in live, m2[g]} | b in live && b.at < g < b.End() && 0 <= g < |m|
      ensures m2[g] == m[g]
    {
      assert m1[g] == m[g];
    }
  }

  lemma ConfinedTransitive(arenas: seq<Arena>, m: seq<Granule>, m1: seq<Granule>, m2: seq<Granule>)
    requires Confined(arenas, m, m1) && Confined(arenas, m1, m2)
    ensures Confined(arenas, m, m2)
  {
    forall g {:trigger InArenas(arenas, g), m2[g]} | 0 <= g < |m| && !InArenas(arenas, g) ensures m2[g] == m[g] {
      assert m1[g] == m[g];
    }
  }

  lemma PartCovered(bs: seq<Block>, i: int, p: int)
    requires 0 <= i < |bs| && Holds(bs[i], p)
    ensures Covers(bs, p)
  {
  }

  /** Writes to blocks of the list stay inside the arenas. */
  lemma BlockWritesConfined(k: Kernel, m: seq<Granule>, m': seq<Granule>, p: int, q: int)
    requires Tiled(k.blocks, k.arenas) && SameBut(m, m', p, q) && Covers(k.blocks, p) && Covers(k.blocks, q)
    ensures Confined(k.arenas, m, m')
  {
  }

  /** Payloads and headers together stay below the identity limit. */
  lemma SumsFit(mem: seq<Granule>, bs: seq<Block>)
    requires Sorted(bs) && Linked(mem, bs) && |mem| == GRANULES
    ensures 0 <= Payload(bs, false) <= Mass(bs) <= GRANULES
    ensures 0 <= Payload(bs, true)
    ensures Payload(bs, false) + Payload(bs, true) + |bs| == Mass(bs)
  {
    MassBound(bs, |bs|);
    assert HeaderAt(mem, bs, |bs| - 1) && HeaderAt(mem, bs, 0);
  }

  /** The step an allocation makes in the list, given that its writes re-linked it. */
  lemma TakeInv(k: Kernel, i: int, n: int, m1: seq<Granule>, m2: seq<Granule>)
    requires k.Inv() && FirstFit(k.blocks, n, i) && 0 < n
    requires var b := k.blocks[i];
             SameBut(k.mem, m1, b.at, RestAt(b, n)) && SameBut(m1, m2, b.at, b.at) && Linked(m2, Take(k.blocks, i, n))
    ensures var t := Take(k.blocks, i, n);
            var k' := k.(mem := m2, blocks := t, peak := Max(k.peak, GRANULE * Payload(t, false)));
            && k'.Inv() && Carved(k, k.blocks[i], n, k')
            && Mass(t) == Mass(k.blocks)
            && Payload(t, false) == Payload(k.blocks, false) + Portion(k.blocks[i], n).size
            && 0 <= Payload(k.blocks, false) && Payload(t, false) <= GRANULES
  {
    var b := k.blocks[i];
    TakeEffect(k.blocks, i, n);
    SumsFit(m2, Take(k.blocks, i, n));
    SumsFit(k.mem, k.blocks);
    HeaderNotPayload(k.blocks, i);
    FreeNotPayload(k.blocks, i, RestAt(b, n));
    HeaderWritesKeep(k.blocks, k.mem, m1, b.at, RestAt(b, n));
    HeaderWritesKeep(k.blocks, m1, m2, b.at, b.at);
    KeptTransitive(k.mem, m1, m2, Live(k.blocks));
    TakeConfined(k, i, n, m1, m2);
  }

  lemma TakeConfined(k: Kernel, i: int, n: int, m1: seq<Granule>, m2: seq<Granule>)
    requires Tiled(k.blocks, k.arenas) && 0 <= i < |k.blocks| && 0 < n <= k.blocks[i].size
    requires var b := k.blocks[i]; SameBut(k.mem, m1, b.at, RestAt(b, n)) && SameBut(m1, m2, b.at, b.at)
    ensures Confined(k.arenas, k.mem, m2)
  {
    var b := k.blocks[i];
    PartCovered(k.blocks, i, b.at);
    PartCovered(k.blocks, i, RestAt(b, n));
    BlockWritesConfined(k, k.mem, m1, b.at, RestAt(b, n));
    BlockWritesConfined(k, m1, m2, b.at, b.at);
    ConfinedTransitive(k.arenas, k.mem, m1, m2);
  }

  lemma ReleaseInv(k: Kernel, i: int, m1: seq<Granule>, m2: seq<Granule>, m3: seq<Granule>)
    requires k.Inv() && 0 <= i < |k.blocks| && !k.blocks[i].free
    requires var at := k.blocks[i].at;
             var previous := HeaderBefore(k.blocks, i, at);
             && SameBut(k.mem, m1, at, at) && SameBut(m1, m2, at, at) && SameBut(m2, m3, previous, previous)
             && Linked(m3, Release(k.blocks, i))
    ensures var t := Release(k.blocks, i);
            var k' := k.(mem := m3, blocks := t);
            && k'.Inv() && Relisted(k, k', Live(k.blocks) - {k.blocks[i]})
            && Mass(t) == Mass(k.blocks)
            && Payload(t, false) == Payload(k.blocks, false) - k.blocks[i].size && 0 <= Payload(t, false)
  {
    var at := k.blocks[i].at;
    var previous := HeaderBefore(k.blocks, i, at);
    ReleaseEffect(k.blocks, i);
    SumsFit(m3, Release(k.blocks, i));
    HeaderNotPayload(k.blocks, i);
    if i > 0 {
      HeaderNotPayload(k.blocks, i - 1);
    }
    HeaderWritesKeep(k.blocks, k.mem, m1, at, at);
    HeaderWritesKeep(k.blocks, m1, m2, at, at);
    HeaderWritesKeep(k.blocks, m2, m3, previous, previous);
    KeptTransitive(k.mem, m1, m2, Live(k.blocks));
    KeptTransitive(k.mem, m2, m3, Live(k.blocks));
    ReleaseConfined(k, i, m1, m2, m3);
  }

  lemma ReleaseConfined(k: Kernel, i: int, m1: seq<Granule>, m2: seq<Granule>, m3: seq<Granule>)
    requires k.Inv() && 0 <= i < |k.blocks|
    requires var at := k.blocks[i].at;
             var previous := HeaderBefore(k.blocks, i, at);
             SameBut(k.mem, m1, at, at) && SameBut(m1, m2, at, at) && SameBut(m2, m3, previous, previous)
    ensures Confined(k.arenas, k.mem, m3)
  {
    var at := k.blocks[i].at;
    var previous := HeaderBefore(k.blocks, i, at);
    HeaderCovered(k, i);
    if i > 0 {
      HeaderCovered(k, i - 1);
    }
    BlockWritesConfined(k, k.mem, m1, at, at);
    BlockWritesConfined(k, m1, m2, at, at);
    BlockWritesConfined(k, m2, m3, previous, previous);
    ConfinedTransitive(k.arenas, k.mem, m1, m2);
    ConfinedTransitive(k.arenas, k.mem, m2, m3);
  }

  lemma HeaderCovered(k: Kernel, i: int)
    requires k.Inv() && 0 <= i < |k.blocks|
    ensures Covers(k.blocks, k.blocks[i].at)
  {
    assert HeaderAt(k.mem, k.blocks, i);
    PartCovered(k.blocks, i, k.blocks[i].at);
  }

  lemma GrowInv(k: Kernel, i: int, n: int, m1: seq<Granule>, m2: seq<Granule>)
    requires k.Inv() && 0 <= i < |k.blocks| && !k.blocks[i].free && k.blocks[i].size < n && Growable(k.blocks, i, n)
    requires var b := k.blocks[i];
             && SameBut(k.mem, m1, b.at, b.at) && Linked(m2, Grow(k.blocks, i, n))
             && SameBut(m1, m2, b.at, RestAt(Merge(k.blocks, i)[i], n))
    ensures var t := Grow(k.blocks, i, n);
            var k' := k.(mem := m2, blocks := t, peak := Max(k.peak, GRANULE * Payload(t, false)));
            && k'.Inv() && Relisted(k, k', Live(k.blocks) - {k.blocks[i]} + {Portion(Joined(k.blocks, i), n)})
            && Mass(t) == Mass(k.blocks)
            && Payload(t, false) <= GRANULES && 0 <= Payload(k.blocks, false)
            && t[i].size > k.blocks[i].size
            && Payload(t, false) == Payload(k.blocks, false) + t[i].size - k.blocks[i].size
  {
    var b := k.blocks[i];
    GrowEffect(k.blocks, i, n);
    SplitAt(Merge(k.blocks, i), i, n);
    SumsFit(m2, Grow(k.blocks, i, n));
    SumsFit(k.mem, k.blocks);
    HeaderNotPayload(k.blocks, i);
    var rest := RestAt(Merge(k.blocks, i)[i], n);
    if rest != b.at {
      FreeNotPayload(k.blocks, i + 1, rest);
    }
    HeaderWritesKeep(k.blocks, m1, m2, b.at, rest);
    HeaderWritesKeep(k.blocks, k.mem, m1, b.at, b.at);
    KeptTransitive(k.mem, m1, m2, Live(k.blocks));
    GrowConfined(k, i, n, m1, m2);
  }

  lemma GrowConfined(k: Kernel, i: int, n: int, m1: seq<Granule>, m2: seq<Granule>)
    requires k.Inv() && 0 <= i < |k.blocks| && 0 < k.blocks[i].size < n && Growable(k.blocks, i, n)
    requires SameBut(k.mem, m1, k.blocks[i].at, k.blocks[i].at)
    requires SameBut(m1, m2, k.blocks[i].at, RestAt(Joined(k.blocks, i), n))
    ensures Confined(k.arenas, k.mem, m2)
  {
    var at, rest := k.blocks[i].at, RestAt(Joined(k.blocks, i), n);
    HeaderCovered(k, i);
    if rest != at {
      PartCovered(k.blocks, i + 1, rest);
    }
    BlockWritesConfined(k, k.mem, m1, at, at);
    BlockWritesConfined(k, m1, m2, at, rest);
    ConfinedTransitive(k.arenas, k.mem, m1, m2);
  }

  /** The run of frames that a successful pin step turned into reserved ones. */
  lemma PinnedRun(s: FrameState, n: int, s': FrameState, address: int)
    requires s.Wf() && 0 <= n && PinStep(s, n, s', address) && address != 0
    ensures var r := address / FRAME_SIZE;
            && address == FRAME_SIZE * r && 0 < n && 1 <= r && r + n <= s.Size() && RunFree(s, r, n)
            && s' == Pinned(s, r, n)
  {
  }

  lemma PinnedBelow(s: FrameState, size: int, s': FrameState, address: int)
    requires s.Wf() && 0 < size && size % FRAME_SIZE == 0
    requires PinStep(s, size / FRAME_SIZE, s', address) && address != 0
    ensures 0 < address && address + size <= PHYSICAL_LIMIT && address % FRAME_SIZE == 0
  {
    PinnedRun(s, size / FRAME_SIZE, s', address);
  }

  /** A block put into uncovered memory lies between its neighbours. */
  lemma BetweenNeighbours(bs: seq<Block>, p: int, b: Block)
    requires Sorted(bs) && InsertsAt(bs, p, b.at)
    requires forall g :: Holds(b, g) ==> !Covers(bs, g)
    requires 0 < b.size
    ensures p > 0 ==> bs[p - 1].End() <= b.at
    ensures p < |bs| ==> b.End() <= bs[p].at
  {
    assert Sides(bs, p, b.at, p - 1) && Sides(bs, p, b.at, p);
    if p > 0 {
      assert Holds(b, b.at);
      assert !Holds(bs[p - 1], b.at);
    }
    if p < |bs| {
      assert Holds(bs[p], bs[p].at);
      assert Covers(bs, bs[p].at);
      assert !Holds(b, bs[p].at);
    }
  }

  lemma InArenasAppend(arenas: seq<Arena>, a: Arena, g: int)
    ensures InArenas(arenas + [a], g) <==> InArenas(arenas, g) || InArena(a, g)
  {
    var t := arenas + [a];
    forall i | 0 <= i < |arenas| && InArena(arenas[i], g) ensures InArenas(t, g) {
      assert t[i] == arenas[i];
    }
    if InArena(a, g) {
      assert t[|arenas|] == a;
    }
  }

  lemma {:induction false} ArenaMassPrefix(arenas: seq<Arena>, a: Arena, n: nat)
    requires n <= |arenas|
    ensures ArenaMass(arenas + [a], n) == ArenaMass(arenas, n)
  {
    if n > 0 {
      ArenaMassPrefix(arenas, a, n - 1);
    }
  }

  /** Memory in free frames belongs to no arena. */
  lemma FreeFramesUncovered(k: Kernel, r: int, n: int, g: int)
    requires k.Inv() && 0 <= r && r + n <= k.frames.Size() && RunFree(k.frames, r, n)
    requires FRAME_GRANULES * r <= g < FRAME_GRANULES * (r + n)
    ensures !InArenas(k.arenas, g) && !Covers(k.blocks, g)
  {
    assert k.frames.IsFree(g / FRAME_GRANULES);
  }

  lemma PinnedUncovered(k: Kernel, n: int, f: FrameState, r: int)
    requires k.Inv() && 0 < n && r != 0 && PinStep(k.frames, n, f, FRAME_SIZE * r)
    ensures 0 < r && FRAME_GRANULES * (r + n) <= GRANULES
    ensures forall g :: FRAME_GRANULES * r <= g < FRAME_GRANULES * r + FRAME_GRANULES * n ==> !Covers(k.blocks, g)
  {
    PinnedRun(k.frames, n, f, FRAME_SIZE * r);
    forall g | FRAME_GRANULES * r <= g < FRAME_GRANULES * r + FRAME_GRANULES * n ensures !Covers(k.blocks, g) {
      FreeFramesUncovered(k, r, n, g);
    }
  }

  lemma NewArenaApart(arenas: seq<Arena>, a: Arena)
    requires ArenasApart(arenas) && a.lo < a.hi
    requires forall g :: InArena(a, g) ==> !InArenas(arenas, g)
    ensures ArenasApart(arenas + [a])
  {
    forall i, j ensures Apart(arenas + [a], i, j) {
      if 0 <= i < j < |arenas| {
        assert Apart(arenas, i, j);
      } else if 0 <= i < j == |arenas| {
        var g := Max(arenas[i].lo, a.lo);
        assert InArena(a, g) ==> !InArena(arenas[i], g);
      }
    }
  }

  lemma PinnedGuards(k: Kernel, r: int, n: int)
    requires k.Inv() && 0 <= r && r + n <= k.frames.Size()
    ensures var a := Arena(FRAME_GRANULES * r, FRAME_GRANULES * (r + n));
            Guarded(Pinned(k.frames, r, n).kinds, k.arenas + [a])
  {
    var a := Arena(FRAME_GRANULES * r, FRAME_GRANULES * (r + n));
    var kinds := Pinned(k.frames, r, n).kinds;
    MarkedAt(k.frames.kinds, r, r + n, Reserved);
    forall g {:trigger InArenas(k.arenas + [a], g)} | InArenas(k.arenas + [a], g)
      ensures Secured(kinds, g / FRAME_GRANULES)
    {
      InArenasAppend(k.arenas, a, g);
      if InArenas(k.arenas, g) {
        assert Secured(k.frames.kinds, g / FRAME_GRANULES);
      }
    }
  }

  lemma PinnedWf(s: FrameState, r: int, n: int)
    requires s.Wf() && 0 <= r && 0 < n && r + n <= s.Size() && RunFree(s, r, n)
    ensures Pinned(s, r, n).Wf()
  {
    forall i | r <= i < r + n ensures s.kinds[i] == Free {
      assert s.IsFree(i);
    }
    MarkedAt(s.kinds, r, r + n, Reserved);
    CountMarked(s.kinds, r, r + n, Free, Reserved, Allocated);
  }

  /** A list made of the old one and of a whole new arena. */
  ghost predicate Extended(bs: seq<Block>, at: int, size: int, t: seq<Block>) {
    && Normal(t) && Live(t) == Live(bs)
    && (forall g :: Covers(t, g) <==> Covers(bs, g) || at <= g < at + size)
    && Mass(t) == Mass(bs) + size && Payload(t, false) == Payload(bs, false)
  }

  lemma AdoptExtends(bs: seq<Block>, p: int, at: int, size: int)
    requires Normal(bs) && InsertsAt(bs, p, at) && 0 < at && 1 < size
    requires forall g :: at <= g < at + size ==> !Covers(bs, g)
    ensures Extended(bs, at, size, Adopt(bs, p, Block(at, size - 1, true)))
  {
    var b := Block(at, size - 1, true);
    BetweenNeighbours(bs, p, b);
    AdoptEffect(bs, p, b);
  }

  /** The list tiles the old arenas and the new one. */
  lemma ExtendedTiles(k: Kernel, r: int, n: int, t: seq<Block>)
    requires k.Inv() && 0 < n && 1 <= r && r + n <= k.frames.Size() && RunFree(k.frames, r, n)
    requires Extended(k.blocks, FRAME_GRANULES * r, FRAME_GRANULES * n, t)
    ensures var arenas := k.arenas + [Arena(FRAME_GRANULES * r, FRAME_GRANULES * (r + n))];
            Tiled(t, arenas) && ArenasApart(arenas)
  {
    var a := Arena(FRAME_GRANULES * r, FRAME_GRANULES * (r + n));
    forall g | InArena(a, g) ensures !InArenas(k.arenas, g) {
      FreeFramesUncovered(k, r, n, g);
    }
    forall g ensures Covers(t, g) <==> InArenas(k.arenas + [a], g) {
      InArenasAppend(k.arenas, a, g);
    }
    ArenaMassPrefix(k.arenas, a, |k.arenas|);
    NewArenaApart(k.arenas, a);
  }

  /** The writes that link the new block touch only headers and new memory. */
  lemma AdoptKeeps(k: Kernel, r: int, n: int, p: int, m: seq<Granule>)
    requires k.Inv() && 0 < n && 1 <= r && r + n <= k.frames.Size() && RunFree(k.frames, r, n)
    requires 0 <= p <= |k.blocks|
    requires SameBut(k.mem, m, FRAME_GRANULES * r, HeaderBefore(k.blocks, p, FRAME_GRANULES * r))
    ensures Kept(k.mem, m, Live(k.blocks))
  {
    FreeFramesUncovered(k, r, n, FRAME_GRANULES * r);
    UncoveredNotPayload(k.blocks, FRAME_GRANULES * r);
    if p > 0 {
      HeaderNotPayload(k.blocks, p - 1);
    }
    HeaderWritesKeep(k.blocks, k.mem, m, FRAME_GRANULES * r, HeaderBefore(k.blocks, p, FRAME_GRANULES * r));
  }

  /** They stay inside the old arenas and the new one. */
  lemma AdoptConfined(k: Kernel, r: int, n: int, p: int, m: seq<Granule>)
    requires k.Inv() && 0 < n && 0 <= p <= |k.blocks|
    requires SameBut(k.mem, m, FRAME_GRANULES * r, HeaderBefore(k.blocks, p, FRAME_GRANULES * r))
    ensures Confined(k.arenas + [Arena(FRAME_GRANULES * r, FRAME_GRANULES * (r + n))], k.mem, m)
  {
    var a := Arena(FRAME_GRANULES * r, FRAME_GRANULES * (r + n));
    var previous := HeaderBefore(k.blocks, p, FRAME_GRANULES * r);
    if p > 0 {
      HeaderCovered(k, p - 1);
      InArenasAppend(k.arenas, a, previous);
    }
    InArenasAppend(k.arenas, a, FRAME_GRANULES * r);
  }

  /** A new arena keeps the invariant, whatever blocks it merges with. */
  lemma AdoptInv(k: Kernel, n: int, f: FrameState, r: int, p: int, m: seq<Granule>, t: seq<Block>)
    requires k.Inv() && 0 < n && PinStep(k.frames, n, f, FRAME_SIZE * r) && r != 0
    requires Extended(k.blocks, FRAME_GRANULES * r, FRAME_GRANULES * n, t) && Linked(m, t)
    requires 0 <= p <= |k.blocks|
    requires SameBut(k.mem, m, FRAME_GRANULES * r, HeaderBefore(k.blocks, p, FRAME_GRANULES * r))
    ensures var arenas := k.arenas + [Arena(FRAME_GRANULES * r, FRAME_GRANULES * (r + n))];
            && Kernel(f, m, t, arenas, k.peak, k.failures).Inv()
            && Kept(k.mem, m, Live(k.blocks)) && Confined(arenas, k.mem, m)
  {
    PinnedRun(k.frames, n, f, FRAME_SIZE * r);
    PinnedWf(k.frames, r, n);
    PinnedGuards(k, r, n);
    ExtendedTiles(k, r, n, t);
    AdoptKeeps(k, r, n, p, m);
    AdoptConfined(k, r, n, p, m);
  }

  lemma FailedPinInv(k: Kernel, n: int, f: FrameState)
    requires k.Inv() && PinStep(k.frames, n, f, 0) && 0 <= n
    ensures k.(frames := f).Inv()
    ensures f == k.frames || f == k.frames.Failed()
  {
  }

  /** The frames of a new arena belong to no arena so far. */
  ghost predicate Unclaimed(k: Kernel, lo: int, hi: int) {
    forall g :: lo <= g < hi ==> !Covers(k.blocks, g)
  }

  /** In a coalesced list a free block that starts inside fresh memory reaches its end. */
  lemma FreeReachesEnd(k: Kernel, r: int, n: int, k': Kernel, i: int)
    requires k.Inv() && k'.Inv() && Adopted(k, r, n, k') && 0 < n
    requires Unclaimed(k, FRAME_GRANULES * r, FRAME_GRANULES * (r + n))
    requires 0 <= i < |k'.blocks| && Holds(k'.blocks[i], FRAME_GRANULES * r)
    ensures k'.blocks[i].free && k'.blocks[i].End() >= FRAME_GRANULES * (r + n)
  {
    var lo, hi := FRAME_GRANULES * r, FRAME_GRANULES * (r + n);
    var b := k'.blocks[i];
    FreshBlockFree(k, lo, hi, k', i, lo);
    var e := b.End();
    if e < hi {
      InArenasAppend(k.arenas, Arena(lo, hi), e);
      assert InArenas(k'.arenas, e);
      var j :| 0 <= j < |k'.blocks| && Holds(k'.blocks[j], e);
      assert Before(k'.blocks, i, j) && Before(k'.blocks, j, i);
      assert Before(k'.blocks, i, i + 1) && Before(k'.blocks, i + 1, j);
      assert j == i + 1 && Parted(k'.blocks, i);
      FreshBlockFree(k, lo, hi, k', j, e);
    }
  }

  lemma FreshBlockFree(k: Kernel, lo: int, hi: int, k': Kernel, i: int, g: int)
    requires Live(k'.blocks) == Live(k.blocks) && Unclaimed(k, lo, hi) && lo <= g < hi
    requires 0 <= i < |k'.blocks| && Holds(k'.blocks[i], g)
    ensures k'.blocks[i].free
  {
    if !k'.blocks[i].free {
      assert k'.blocks[i] in Live(k'.blocks);
      NotCoveredByLive(k.blocks, k'.blocks[i], g);
    }
  }

  lemma NotCoveredByLive(bs: seq<Block>, b: Block, g: int)
    requires b in Live(bs) && Holds(b, g)
    ensures Covers(bs, g)
  {
    var k :| 0 <= k < |bs| && bs[k] == b;
  }

  /** The block at the start of the new arena is free and holds n granules. */
  lemma NewArenaFits(k: Kernel, n: int, r: int, count: int, k': Kernel)
    requires k.Inv() && k'.Inv() && 0 < n && 1 <= r && r + count <= k.frames.Size() && RunFree(k.frames, r, count)
    requires Adopted(k, r, count, k') && FRAME_GRANULES * count >= n + 1
    ensures !NoFit(k'.blocks, n)
  {
    var lo, hi := FRAME_GRANULES * r, FRAME_GRANULES * (r + count);
    forall g | lo <= g < hi ensures !Covers(k.blocks, g) {
      FreeFramesUncovered(k, r, count, g);
    }
    InArenasAppend(k.arenas, Arena(lo, hi), lo);
    assert InArenas(k'.arenas, lo);
    var i :| 0 <= i < |k'.blocks| && Holds(k'.blocks[i], lo);
    FreeReachesEnd(k, r, count, k', i);
    assert Fits(k'.blocks[i], n);
  }

  /** An arena is made of whole frames and holds the request with its header. */
  lemma ArenaHolds(n: int)
    ensures FRAME_SIZE * (ArenaBytes(n) / FRAME_SIZE) == ArenaBytes(n) >= GRANULE * n + GRANULE
  {
  }

  lemma GrownBy(k: Kernel, n: int, k': Kernel) returns (r: int)
    requires k.Inv() && ExtendStep(k, n, k', true)
    ensures var count := ArenaBytes(n) / FRAME_SIZE;
            1 <= r && r + count <= k.frames.Size() && RunFree(k.frames, r, count) && Adopted(k, r, count, k')
  {
    var count := ArenaBytes(n) / FRAME_SIZE;
    var address :| PinStep(k.frames, count, k'.frames, address) && address != 0
                   && Adopted(k, address / FRAME_SIZE, count, k');
    ArenaHolds(n);
    PinnedRun(k.frames, count, k'.frames, address);
    r := address / FRAME_SIZE;
  }

  /** After a successful growth the second scan always finds a block, merged or not. */
  lemma GrowthSuffices(k: Kernel, n: int, k': Kernel)
    requires k.Inv() && k'.Inv() && 0 < n && ExtendStep(k, n, k', true)
    ensures !NoFit(k'.blocks, n)
  {
    var r := GrownBy(k, n, k');
    ArenaHolds(n);
    NewArenaFits(k, n, r, ArenaBytes(n) / FRAME_SIZE, k');
  }

  /** Writes into one payload leave every header alone. */
  lemma PayloadWritesKeepLinks(m: seq<Granule>, m': seq<Granule>, bs: seq<Block>, i: int)
    requires Sorted(bs) && Linked(m, bs) && 0 <= i < |bs| && |m'| == |m|
    requires forall g :: 0 <= g < |m| && !(bs[i].at < g < bs[i].End()) ==> m'[g] == m[g]
    ensures Linked(m', bs)
  {
    forall j ensures HeaderAt(m', bs, j) {
      assert HeaderAt(m, bs, j);
      assert Before(bs, i, j) && Before(bs, j, i);
    }
  }

  /** Writes into one payload change no other live payload. */
  lemma PayloadWritesKeepOthers(m: seq<Granule>, m': seq<Granule>, bs: seq<Block>, i: int)
    requires Sorted(bs) && 0 <= i < |bs| && |m'| == |m|
    requires forall g :: 0 <= g < |m| && !(bs[i].at < g < bs[i].End()) ==> m'[g] == m[g]
    ensures Kept(m, m', Live(bs) - {bs[i]})
  {
    forall b, g {:trigger b in Live(bs), m'[g]} | b in Live(bs) - {bs[i]} && b.at < g < b.End() && 0 <= g < |m|
      ensures m'[g] == m[g]
    {
      var j :| 0 <= j < |bs| && bs[j] == b;
      assert Before(bs, i, j) && Before(bs, j, i);
    }
  }

  /** The copy of a move stays inside the new block's payload. */
  lemma CopyInv(k: Kernel, dst: int, src: int, count: int, k': Kernel, i: int)
    requires k.Inv() && CopyStep(k, dst, src, count, k')
    requires 0 <= i < |k.blocks| && k.blocks[i].at < dst && dst + count <= k.blocks[i].End()
    ensures k'.Inv() && Kept(k.mem, k'.mem, Live(k.blocks) - {k.blocks[i]})
  {
    PayloadWritesKeepLinks(k.mem, k'.mem, k.blocks, i);
    PayloadWritesKeepOthers(k.mem, k'.mem, k.blocks, i);
  }

  /** What a successful allocation returned: a live block of the requested size at that address. */
  ghost predicate Granted(k: Kernel, n: int, k': Kernel, r: int, i: int) {
    && LiveAddress(k'.blocks, r, i) && k'.blocks[i].size >= n && k'.blocks[i] !in Live(k.blocks)
    && Live(k'.blocks) == Live(k.blocks) + {k'.blocks[i]} && Kept(k.mem, k'.mem, Live(k.blocks))
  }

  lemma TakeGrants(k: Kernel, n: int, k': Kernel, r: int) returns (i: int)
    requires k.Inv() && k'.Inv() && TakeStep(k, n, k', r)
    ensures Granted(k, n, k', r, i)
  {
    var j :| FirstFit(k.blocks, n, j) && Carved(k, k.blocks[j], n, k') && r == PayloadAddress(k.blocks[j].at);
    var b := Portion(k.blocks[j], n);
    Distinct(k.blocks, j);
    assert b !in Live(k.blocks);
    assert b in Live(k'.blocks);
    i :| 0 <= i < |k'.blocks| && k'.blocks[i] == b;
  }

  lemma MallocGrants(k: Kernel, size: int, k': Kernel, r: int) returns (i: int)
    requires k.Inv() && k'.Inv() && MallocStep(k, size, k', r) && r != 0
    ensures Granted(k, Granules(size), k', r, i)
  {
    var n := Granules(size);
    if NoFit(k.blocks, n) {
      var m: Kernel, ok :| m.Inv() && ExtendStep(k, n, m, ok)
        && if ok then TakeStep(m, n, k', r) else k' == m.Failed() && r == 0;
      i := TakeGrants(m, n, k', r);
      KeptTransitive(k.mem, m.mem, k'.mem, Live(k.blocks));
    } else {
      i := TakeGrants(k, n, k', r);
    }
  }

  /** Two different live blocks share no payload granule. */
  lemma LivePayloadsApart(bs: seq<Block>, i: int, j: int)
    requires Sorted(bs) && 0 <= i < |bs| && 0 <= j < |bs| && i != j
    ensures bs[i].End() <= bs[j].at || bs[j].End() <= bs[i].at
  {
    assert Before(bs, i, j) && Before(bs, j, i);
  }

  lemma LiveIndex(bs: seq<Block>, b: Block) returns (i: int)
    requires b in Live(bs)
    ensures 0 <= i < |bs| && bs[i] == b && LiveAddress(bs, PayloadAddress(b.at), i)
  {
    i :| 0 <= i < |bs| && bs[i] == b;
  }

  /** Frame allocation leaves every frame of the heap secured. */
  lemma AllocateInv(k: Kernel, minimum: int, user: bool, f: FrameState, r: int)
    requires k.Inv() && AllocateStep(k.frames, minimum, user, f, r) && f.Wf()
    ensures k.(frames := f).Inv()
  {
    forall g {:trigger InArenas(k.arenas, g)} | InArenas(k.arenas, g) ensures Secured(f.kinds, g / FRAME_GRANULES) {
      assert Secured(k.frames.kinds, g / FRAME_GRANULES);
    }
  }

  lemma ReleaseInvFrames(k: Kernel, address: int, f: FrameState)
    requires k.Inv() && FrameSpec.FreeStep(k.frames, address, f) && f.Wf()
    ensures k.(frames := f).Inv()
  {
    forall g {:trigger InArenas(k.arenas, g)} | InArenas(k.arenas, g) ensures Secured(f.kinds, g / FRAME_GRANULES) {
      assert Secured(k.frames.kinds, g / FRAME_GRANULES);
    }
  }
}
