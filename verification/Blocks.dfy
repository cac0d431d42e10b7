/**
 * The heap as a list of blocks, in granules of 16 bytes: a block is one header
 * granule at its address followed by its payload.
 */
module Blocks {

  datatype Block = Block(at: int, size: int, free: bool) {
    function End(): int { at + 1 + size }
  }

  ghost predicate Holds(b: Block, g: int) { b.at <= g < b.End() }

  ghost predicate Covers(bs: seq<Block>, g: int) {
    exists i :: 0 <= i < |bs| && Holds(bs[i], g)
  }

  predicate Before(bs: seq<Block>, i: int, j: int) {
    0 <= i < j < |bs| ==> bs[i].End() <= bs[j].at
  }

  /** Strictly ascending, nonempty payloads, no overlap. */
  ghost predicate Sorted(bs: seq<Block>) {
    && (forall i :: 0 <= i < |bs| ==> 0 < bs[i].at && 0 < bs[i].size)
    && (forall i, j :: Before(bs, i, j))
  }

  predicate Adjacent(a: Block, b: Block) { a.End() == b.at }

  predicate Parted(bs: seq<Block>, i: int) {
    0 <= i && i + 1 < |bs| ==> !(bs[i].free && bs[i + 1].free && Adjacent(bs[i], bs[i + 1]))
  }

  /** No two touching blocks are both free. */
  ghost predicate Coalesced(bs: seq<Block>) {
    forall i :: Parted(bs, i)
  }

  ghost function Live(bs: seq<Block>): set<Block> { set b | b in bs && !b.free }

  /** Granules taken by the first n blocks, headers included. */
  function MassTo(bs: seq<Block>, n: nat): int
    requires n <= |bs|
  {
    if n == 0 then 0 else MassTo(bs, n - 1) + 1 + bs[n - 1].size
  }

  function Mass(bs: seq<Block>): int { MassTo(bs, |bs|) }

  /** Payload granules of those of the first n blocks that have the given flag. */
  function PayloadTo(bs: seq<Block>, n: nat, free: bool): int
    requires n <= |bs|
  {
    if n == 0 then 0 else PayloadTo(bs, n - 1, free) + if bs[n - 1].free == free then bs[n - 1].size else 0
  }

  function Payload(bs: seq<Block>, free: bool): int { PayloadTo(bs, |bs|, free) }

  lemma {:induction false} SumsPrefix(a: seq<Block>, b: seq<Block>, n: nat)
    requires n <= |a|
    ensures MassTo(a + b, n) == MassTo(a, n)
    ensures forall f :: PayloadTo(a + b, n, f) == PayloadTo(a, n, f)
  {
    if n > 0 {
      SumsPrefix(a, b, n - 1);
    }
  }

  lemma {:induction false} SumsSuffix(a: seq<Block>, b: seq<Block>, n: nat)
    requires n <= |b|
    ensures MassTo(a + b, |a| + n) == Mass(a) + MassTo(b, n)
    ensures forall f :: PayloadTo(a + b, |a| + n, f) == Payload(a, f) + PayloadTo(b, n, f)
  {
    if n > 0 {
      SumsSuffix(a, b, n - 1);
    } else {
      SumsPrefix(a, b, |a|);
    }
  }

  lemma SumsAppend(a: seq<Block>, b: seq<Block>)
    ensures Mass(a + b) == Mass(a) + Mass(b)
    ensures forall f :: Payload(a + b, f) == Payload(a, f) + Payload(b, f)
  {
    SumsSuffix(a, b, |b|);
  }

  lemma CoversAppend(a: seq<Block>, b: seq<Block>, g: int)
    ensures Covers(a + b, g) <==> Covers(a, g) || Covers(b, g)
  {
    forall i | 0 <= i < |a| && Holds(a[i], g) ensures Covers(a + b, g) {
      assert (a + b)[i] == a[i];
    }
    forall i | 0 <= i < |b| && Holds(b[i], g) ensures Covers(a + b, g) {
      assert (a + b)[|a| + i] == b[i];
    }
  }

  lemma CoversOne(b: Block, g: int)
    ensures Covers([b], g) <==> Holds(b, g)
  {
    assert [b][0] == b;
  }

  /** Replaces k blocks from index i on by mid. */
  function Splice(bs: seq<Block>, i: int, k: int, mid: seq<Block>): seq<Block>
    requires 0 <= i && 0 <= k && i + k <= |bs|
  {
    bs[..i] + mid + bs[i + k..]
  }

  /** What a splice inside one stretch of the list changes, for every measure of the list. */
  lemma SpliceEffect(bs: seq<Block>, i: int, k: int, mid: seq<Block>)
    requires 0 <= i && 0 <= k && i + k <= |bs|
    ensures var t := Splice(bs, i, k, mid);
            var cut := bs[i..i + k];
            && Mass(t) == Mass(bs) - Mass(cut) + Mass(mid)
            && (forall f :: Payload(t, f) == Payload(bs, f) - Payload(cut, f) + Payload(mid, f))
            && (forall g :: Covers(t, g) <==> Covers(bs[..i], g) || Covers(mid, g) || Covers(bs[i + k..], g))
            && (forall g :: Covers(bs, g) <==> Covers(bs[..i], g) || Covers(cut, g) || Covers(bs[i + k..], g))
  {
    var a, cut, z := bs[..i], bs[i..i + k], bs[i + k..];
    assert bs == a + cut + z;
    SumsAppend(a, cut);
    SumsAppend(a + cut, z);
    SumsAppend(a, mid);
    SumsAppend(a + mid, z);
    forall g ensures Covers(a + mid + z, g) <==> Covers(a, g) || Covers(mid, g) || Covers(z, g)
             ensures Covers(bs, g) <==> Covers(a, g) || Covers(cut, g) || Covers(z, g)
    {
      CoversAppend(a, cut, g);
      CoversAppend(a + cut, z, g);
      CoversAppend(a, mid, g);
      CoversAppend(a + mid, z, g);
    }
  }

  lemma SumsOne(a: Block)
    ensures Mass([a]) == 1 + a.size
    ensures forall f :: Payload([a], f) == if a.free == f then a.size else 0
  {
    assert MassTo([a], 0) == 0;
    forall f ensures Payload([a], f) == if a.free == f then a.size else 0 {
      assert PayloadTo([a], 0, f) == 0;
    }
  }

  lemma SumsTwo(a: Block, b: Block)
    ensures Mass([a, b]) == 2 + a.size + b.size
    ensures forall f :: Payload([a, b], f)
                     == (if a.free == f then a.size else 0) + (if b.free == f then b.size else 0)
  {
    assert [a, b] == [a] + [b];
    SumsAppend([a], [b]);
    SumsOne(a);
    SumsOne(b);
  }

  /** The same blocks up to one flag. */
  function SetFree(bs: seq<Block>, i: int, free: bool): seq<Block>
    requires 0 <= i < |bs|
  {
    Splice(bs, i, 1, [bs[i].(free := free)])
  }

  lemma LiveAppend(a: seq<Block>, b: seq<Block>)
    ensures Live(a + b) == Live(a) + Live(b)
  {
  }

  /** In a sorted list a block occurs once, so cutting it out removes it. */
  lemma SpliceLive(bs: seq<Block>, i: int, k: int, mid: seq<Block>)
    requires Sorted(bs) && 0 <= i && 0 <= k && i + k <= |bs|
    ensures Live(Splice(bs, i, k, mid)) == Live(bs) - Live(bs[i..i + k]) + Live(mid)
  {
    var a, cut, z := bs[..i], bs[i..i + k], bs[i + k..];
    assert bs == a + cut + z;
    LiveAppend(a, cut);
    LiveAppend(a + cut, z);
    LiveAppend(a, mid);
    LiveAppend(a + mid, z);
    SliceDisjoint(bs, i, k);
    ReplacePart(Live(a), Live(cut), Live(z), Live(mid));
  }

  lemma ReplacePart<T>(a: set<T>, cut: set<T>, z: set<T>, mid: set<T>)
    requires cut !! a && cut !! z
    ensures a + mid + z == a + cut + z - cut + mid
  {
  }

  lemma SliceDisjoint(bs: seq<Block>, i: int, k: int)
    requires Sorted(bs) && 0 <= i && 0 <= k && i + k <= |bs|
    ensures Live(bs[i..i + k]) !! Live(bs[..i]) && Live(bs[i..i + k]) !! Live(bs[i + k..])
  {
    SliceOrder(bs, i);
    SliceOrder(bs, i + k);
    assert forall x :: x in bs[i..i + k] ==> x in bs[i..] && x in bs[..i + k];
  }

  lemma SliceOrder(bs: seq<Block>, i: int)
    requires Sorted(bs) && 0 <= i <= |bs|
    ensures forall x, y :: x in bs[..i] && y in bs[i..] ==> x.at < x.End() <= y.at
  {
    forall x, y | x in bs[..i] && y in bs[i..] ensures x.at < x.End() <= y.at {
      var m :| 0 <= m < i && bs[m] == x;
      var n :| i <= n < |bs| && bs[n] == y;
      assert Before(bs, m, n);
    }
  }

  lemma SameExtentSorted(bs: seq<Block>, i: int, c: Block)
    requires Sorted(bs) && 0 <= i < |bs| && c.at == bs[i].at && c.size == bs[i].size
    ensures Sorted(bs[i := c])
  {
    var t := bs[i := c];
    forall x, y ensures Before(t, x, y) {
      assert Before(bs, x, y);
    }
  }

  lemma SetFreeShape(bs: seq<Block>, i: int, free: bool)
    requires Sorted(bs) && 0 <= i < |bs|
    ensures var t := SetFree(bs, i, free);
            t == bs[i := bs[i].(free := free)] && Sorted(t) && forall g :: Covers(t, g) <==> Covers(bs, g)
  {
    var t, c := SetFree(bs, i, free), bs[i].(free := free);
    assert t == bs[i := c];
    SameExtentSorted(bs, i, c);
    forall g ensures Covers(t, g) <==> Covers(bs, g) {
      assert forall m :: 0 <= m < |t| ==> (Holds(t[m], g) <==> Holds(bs[m], g));
    }
  }

  lemma SetFreeSums(bs: seq<Block>, i: int, free: bool)
    requires 0 <= i < |bs|
    ensures var t := SetFree(bs, i, free);
            && Mass(t) == Mass(bs)
            && (forall f :: Payload(t, f) == Payload(bs, f) - (if bs[i].free == f then bs[i].size else 0)
                                             + (if free == f then bs[i].size else 0))
  {
    assert bs[i..i + 1] == [bs[i]];
    SpliceEffect(bs, i, 1, [bs[i].(free := free)]);
    SumsOne(bs[i]);
    SumsOne(bs[i].(free := free));
  }

  lemma SetFreeLive(bs: seq<Block>, i: int, free: bool)
    requires Sorted(bs) && 0 <= i < |bs|
    ensures Live(SetFree(bs, i, free)) == Live(bs) - {bs[i]} + if free then {} else {bs[i].(free := false)}
  {
    SpliceLive(bs, i, 1, [bs[i].(free := free)]);
    assert bs[i..i + 1] == [bs[i]];
    assert bs[i].free ==> bs[i] !in Live(bs);
  }

  lemma Distinct(bs: seq<Block>, i: int)
    requires Sorted(bs) && 0 <= i < |bs|
    ensures forall k :: 0 <= k < |bs| && k != i ==> bs[k].at != bs[i].at
  {
    forall k | 0 <= k < |bs| && k != i ensures bs[k].at != bs[i].at {
      assert Before(bs, k, i) && Before(bs, i, k);
    }
  }

  lemma SpliceAt(bs: seq<Block>, i: int, k: int, mid: seq<Block>)
    requires 0 <= i && 0 <= k && i + k <= |bs|
    ensures var t := Splice(bs, i, k, mid);
            && |t| == |bs| - k + |mid|
            && forall m :: 0 <= m < |t| ==>
                 t[m] == if m < i then bs[m] else if m < i + |mid| then mid[m - i] else bs[m - |mid| + k]
  {
  }

  lemma AppendSorted(a: seq<Block>, b: seq<Block>)
    requires Sorted(a) && Sorted(b)
    requires a != [] && b != [] ==> a[|a| - 1].End() <= b[0].at
    ensures Sorted(a + b)
  {
    var t := a + b;
    forall x, y ensures Before(t, x, y) {
      if 0 <= x < y < |t| {
        if y < |a| {
          assert Before(a, x, y);
        } else if |a| <= x {
          assert Before(b, x - |a|, y - |a|);
        } else {
          assert Before(a, x, |a| - 1) && Before(b, 0, y - |a|);
        }
      }
    }
  }

  /** A splice that stays between its neighbours keeps the order. */
  lemma SpliceSorted(bs: seq<Block>, i: int, k: int, mid: seq<Block>)
    requires Sorted(bs) && 0 <= i && 0 <= k && i + k <= |bs| && Sorted(mid) && mid != []
    requires i > 0 ==> bs[i - 1].End() <= mid[0].at
    requires i + k < |bs| ==> mid[|mid| - 1].End() <= bs[i + k].at
    ensures Sorted(Splice(bs, i, k, mid))
  {
    SlicesSorted(bs, i, i + k);
    AppendSorted(bs[..i], mid);
    AppendSorted(bs[..i] + mid, bs[i + k..]);
  }

  lemma SlicesSorted(bs: seq<Block>, i: int, j: int)
    requires Sorted(bs) && 0 <= i <= |bs| && 0 <= j <= |bs|
    ensures Sorted(bs[..i]) && Sorted(bs[j..])
  {
    forall x, y ensures Before(bs[..i], x, y) && (0 <= x ==> Before(bs[j..], x, y)) {
      assert Before(bs, x, y) && Before(bs, x + j, y + j);
    }
  }

  /** Cuts block i to n granules when the rest can hold a header and a payload of its own. */
  function Split(bs: seq<Block>, i: int, n: int): seq<Block>
    requires 0 <= i < |bs|
  {
    var b := bs[i];
    if b.size - n < 2 then bs
    else Splice(bs, i, 1, [Block(b.at, n, b.free), Block(b.at + 1 + n, b.size - n - 1, true)])
  }

  lemma SplitSorted(bs: seq<Block>, i: int, l: Block, r: Block)
    requires Sorted(bs) && 0 <= i < |bs| && l.at == bs[i].at && r.End() == bs[i].End()
    requires 0 < l.size && 0 < r.size && l.End() <= r.at
    ensures Sorted(Splice(bs, i, 1, [l, r]))
  {
    SortedTwo(l, r);
    assert Before(bs, i - 1, i) && Before(bs, i, i + 1);
    SpliceSorted(bs, i, 1, [l, r]);
  }

  lemma SplitShape(bs: seq<Block>, i: int, n: int)
    requires Sorted(bs) && 0 <= i < |bs| && 0 < n
    ensures Sorted(Split(bs, i, n))
    ensures forall g :: Covers(Split(bs, i, n), g) <==> Covers(bs, g)
  {
    var b := bs[i];
    if b.size - n >= 2 {
      var l, r := Block(b.at, n, b.free), Block(b.at + 1 + n, b.size - n - 1, true);
      assert Split(bs, i, n) == Splice(bs, i, 1, [l, r]);
      SplitSorted(bs, i, l, r);
      SplitCovers(bs, i, l, r);
    }
  }

  lemma SplitAt(bs: seq<Block>, i: int, n: int)
    requires 0 <= i < |bs|
    ensures var t := Split(bs, i, n);
            && |t| >= |bs| && i < |t|
            && t[i] == Block(bs[i].at, if bs[i].size - n < 2 then bs[i].size else n, bs[i].free)
  {
  }

  lemma SortedTwo(l: Block, r: Block)
    requires 0 < l.at && 0 < l.size && l.End() <= r.at && 0 < r.size
    ensures Sorted([l, r])
  {
  }

  lemma SortedOne(b: Block)
    requires 0 < b.at && 0 < b.size
    ensures Sorted([b])
  {
  }

  lemma SplitCovers(bs: seq<Block>, i: int, l: Block, r: Block)
    requires 0 <= i < |bs| && l.at == bs[i].at && 0 < l.size && Adjacent(l, r) && 0 < r.size && r.End() == bs[i].End()
    ensures forall g :: Covers(Splice(bs, i, 1, [l, r]), g) <==> Covers(bs, g)
  {
    var b := bs[i];
    SpliceEffect(bs, i, 1, [l, r]);
    assert bs[i..i + 1] == [b];
    TwoCover(l, r, b);
  }

  /** Two adjacent blocks hold the granules of the block spanning both. */
  lemma TwoCover(l: Block, r: Block, b: Block)
    requires 0 < l.size && Adjacent(l, r) && 0 < r.size && b.at == l.at && b.End() == r.End()
    ensures forall g :: Covers([l, r], g) <==> Covers([b], g)
  {
    forall g ensures Covers([l, r], g) <==> Covers([b], g) {
      CoversOne(b, g);
      CoversOne(l, g);
      CoversOne(r, g);
      CoversAppend([l], [r], g);
      assert [l, r] == [l] + [r];
    }
  }

  lemma SplitSums(bs: seq<Block>, i: int, n: int)
    requires 0 <= i < |bs|
    ensures var t := Split(bs, i, n);
            && Mass(t) == Mass(bs)
            && (!bs[i].free ==> Payload(t, false) == Payload(bs, false) + (if bs[i].size - n < 2 then 0 else n - bs[i].size))
            && (bs[i].free ==> Payload(t, false) == Payload(bs, false))
  {
    var b := bs[i];
    if b.size - n >= 2 {
      var l, r := Block(b.at, n, b.free), Block(b.at + 1 + n, b.size - n - 1, true);
      assert bs[i..i + 1] == [b];
      SpliceEffect(bs, i, 1, [l, r]);
      SumsOne(b);
      SumsTwo(l, r);
    }
  }

  lemma SplitLive(bs: seq<Block>, i: int, n: int)
    requires Sorted(bs) && 0 <= i < |bs|
    ensures Live(Split(bs, i, n))
         == if bs[i].free || bs[i].size - n < 2 then Live(bs)
            else Live(bs) - {bs[i]} + {Block(bs[i].at, n, false)}
  {
    var b := bs[i];
    if b.size - n >= 2 {
      SpliceLive(bs, i, 1, [Block(b.at, n, b.free), Block(b.at + 1 + n, b.size - n - 1, true)]);
      assert bs[i..i + 1] == [b];
    }
  }

  /** Joins block i with the one after it; the second header becomes payload. */
  function Merge(bs: seq<Block>, i: int): seq<Block>
    requires 0 <= i && i + 1 < |bs|
  {
    Splice(bs, i, 2, [Block(bs[i].at, bs[i].size + 1 + bs[i + 1].size, bs[i].free)])
  }

  lemma MergeShape(bs: seq<Block>, i: int)
    requires Sorted(bs) && 0 <= i && i + 1 < |bs| && Adjacent(bs[i], bs[i + 1])
    ensures var t := Merge(bs, i);
            Sorted(t) && |t| == |bs| - 1 && forall g :: Covers(t, g) <==> Covers(bs, g)
  {
    var a, b := bs[i], bs[i + 1];
    var c := Block(a.at, a.size + 1 + b.size, a.free);
    SortedOne(c);
    assert Before(bs, i - 1, i) && Before(bs, i + 1, i + 2);
    SpliceSorted(bs, i, 2, [c]);
    MergeCovers(bs, i, c);
  }

  lemma MergeCovers(bs: seq<Block>, i: int, c: Block)
    requires 0 <= i && i + 1 < |bs| && Adjacent(bs[i], bs[i + 1]) && 0 < bs[i].size && 0 < bs[i + 1].size
    requires c.at == bs[i].at && c.End() == bs[i + 1].End()
    ensures forall g :: Covers(Splice(bs, i, 2, [c]), g) <==> Covers(bs, g)
  {
    SpliceEffect(bs, i, 2, [c]);
    assert bs[i..i + 2] == [bs[i], bs[i + 1]];
    TwoCover(bs[i], bs[i + 1], c);
  }

  lemma MergeSums(bs: seq<Block>, i: int)
    requires 0 <= i && i + 1 < |bs|
    ensures var t := Merge(bs, i);
            && Mass(t) == Mass(bs)
            && (bs[i].free && bs[i + 1].free ==> Payload(t, false) == Payload(bs, false))
            && (!bs[i].free && bs[i + 1].free ==> Payload(t, false) == Payload(bs, false) + 1 + bs[i + 1].size)
  {
    var a, b := bs[i], bs[i + 1];
    var c := Block(a.at, a.size + 1 + b.size, a.free);
    assert bs[i..i + 2] == [a, b];
    SpliceEffect(bs, i, 2, [c]);
    SumsOne(c);
    SumsTwo(a, b);
  }

  lemma MergeLive(bs: seq<Block>, i: int)
    requires Sorted(bs) && 0 <= i && i + 1 < |bs| && bs[i + 1].free
    ensures Live(Merge(bs, i))
         == if bs[i].free then Live(bs)
            else Live(bs) - {bs[i]} + {Block(bs[i].at, bs[i].size + 1 + bs[i + 1].size, false)}
  {
    SpliceLive(bs, i, 2, [Block(bs[i].at, bs[i].size + 1 + bs[i + 1].size, bs[i].free)]);
    assert bs[i..i + 2] == [bs[i], bs[i + 1]];
  }

  predicate MergesNext(bs: seq<Block>, i: int)
    requires 0 <= i < |bs|
  {
    i + 1 < |bs| && bs[i + 1].free && Adjacent(bs[i], bs[i + 1])
  }

  predicate MergesPrevious(bs: seq<Block>, i: int)
    requires 0 <= i < |bs|
  {
    i > 0 && bs[i - 1].free && Adjacent(bs[i - 1], bs[i])
  }

  function AbsorbNext(bs: seq<Block>, i: int): seq<Block>
    requires 0 <= i < |bs|
  {
    if MergesNext(bs, i) then Merge(bs, i) else bs
  }

  function AbsorbPrevious(bs: seq<Block>, i: int): seq<Block>
    requires 0 <= i < |bs|
  {
    if MergesPrevious(bs, i) then Merge(bs, i - 1) else bs
  }

  /** Joins free block i with its free neighbours: first the next one, then the previous one. */
  function Settle(bs: seq<Block>, i: int): seq<Block>
    requires 0 <= i < |bs|
  {
    AbsorbPrevious(AbsorbNext(bs, i), i)
  }

  /** Coalesced except that block i may touch free neighbours. */
  ghost predicate CoalescedAround(bs: seq<Block>, i: int) {
    forall j :: j != i && j + 1 != i ==> Parted(bs, j)
  }

  /** Only the pair ending in block i may still be uncoalesced. */
  ghost predicate CoalescedBut(bs: seq<Block>, i: int) {
    forall j :: j + 1 != i ==> Parted(bs, j)
  }

  lemma AbsorbNextCoalesces(bs: seq<Block>, i: int)
    requires 0 <= i < |bs| && bs[i].free && CoalescedAround(bs, i)
    ensures CoalescedBut(AbsorbNext(bs, i), i)
  {
    var t := AbsorbNext(bs, i);
    forall j | j + 1 != i ensures Parted(t, j) {
      assert j != i ==> Parted(bs, j);
      assert j >= i ==> Parted(bs, j + 1);
    }
  }

  lemma AbsorbPreviousCoalesces(bs: seq<Block>, i: int)
    requires 0 <= i < |bs| && bs[i].free && CoalescedBut(bs, i)
    ensures Coalesced(AbsorbPrevious(bs, i))
  {
    var t := AbsorbPrevious(bs, i);
    forall j ensures Parted(t, j) {
      assert j + 1 != i ==> Parted(bs, j);
      assert j + 1 >= i ==> Parted(bs, j + 1);
    }
  }

  lemma SettleEffect(bs: seq<Block>, i: int)
    requires Sorted(bs) && 0 <= i < |bs| && bs[i].free && CoalescedAround(bs, i)
    ensures var t := Settle(bs, i);
            && Sorted(t) && Coalesced(t) && Live(t) == Live(bs)
            && (forall g :: Covers(t, g) <==> Covers(bs, g))
            && Mass(t) == Mass(bs) && Payload(t, false) == Payload(bs, false)
  {
    var u := AbsorbNext(bs, i);
    AbsorbNextCoalesces(bs, i);
    if MergesNext(bs, i) {
      MergeShape(bs, i);
      MergeSums(bs, i);
      MergeLive(bs, i);
    }
    AbsorbPreviousCoalesces(u, i);
    if MergesPrevious(u, i) {
      MergeShape(u, i - 1);
      MergeSums(u, i - 1);
      MergeLive(u, i - 1);
    }
  }

  /** Allocation of n granules from free block i. */
  function Take(bs: seq<Block>, i: int, n: int): seq<Block>
    requires 0 <= i < |bs| && 0 < n <= bs[i].size
  {
    var t := Split(bs, i, n);
    assert i < |t|;
    SetFree(t, i, false)
  }

  /** Release of block i. */
  function Release(bs: seq<Block>, i: int): seq<Block>
    requires 0 <= i < |bs|
  {
    Settle(SetFree(bs, i, true), i)
  }

  /** Growth of live block i into the free block after it. */
  function Grow(bs: seq<Block>, i: int, n: int): seq<Block>
    requires 0 <= i && i + 1 < |bs|
  {
    Split(Merge(bs, i), i, n)
  }

  /** A new free block put at index i. */
  function Adopt(bs: seq<Block>, i: int, b: Block): seq<Block>
    requires 0 <= i <= |bs|
  {
    Settle(Splice(bs, i, 0, [b]), i)
  }

  /** The block an allocation of n granules from b yields. */
  function Portion(b: Block, n: int): Block {
    Block(b.at, if b.size - n < 2 then b.size else n, false)
  }

  lemma TakeEffect(bs: seq<Block>, i: int, n: int)
    requires Sorted(bs) && Coalesced(bs) && 0 <= i < |bs| && 0 < n <= bs[i].size && bs[i].free
    ensures var t := Take(bs, i, n);
            && Sorted(t) && Coalesced(t)
            && (forall g :: Covers(t, g) <==> Covers(bs, g))
            && Live(t) == Live(bs) + {Portion(bs[i], n)}
            && Mass(t) == Mass(bs) && Payload(t, false) == Payload(bs, false) + Portion(bs[i], n).size
  {
    var u := Split(bs, i, n);
    SplitShape(bs, i, n);
    SplitAt(bs, i, n);
    SplitSums(bs, i, n);
    SplitLive(bs, i, n);
    SetFreeShape(u, i, false);
    SetFreeSums(u, i, false);
    SetFreeLive(u, i, false);
    TakeCoalesced(bs, i, n);
    assert u[i] !in Live(u);
  }

  lemma TakeCoalesced(bs: seq<Block>, i: int, n: int)
    requires Coalesced(bs) && 0 <= i < |bs| && 0 < n <= bs[i].size && bs[i].free
    ensures Coalesced(Take(bs, i, n))
  {
    var b := bs[i];
    var u, t := Split(bs, i, n), Take(bs, i, n);
    SplitAt(bs, i, n);
    assert t == u[i := u[i].(free := false)];
    forall j ensures Parted(t, j) {
      assert Parted(bs, j);
      if b.size - n >= 2 {
        assert Parted(bs, j - 1);
        SpliceAt(bs, i, 1, [Block(b.at, n, b.free), Block(b.at + 1 + n, b.size - n - 1, true)]);
      }
    }
  }

  lemma ReleaseEffect(bs: seq<Block>, i: int)
    requires Sorted(bs) && Coalesced(bs) && 0 <= i < |bs| && !bs[i].free
    ensures var t := Release(bs, i);
            && Sorted(t) && Coalesced(t)
            && (forall g :: Covers(t, g) <==> Covers(bs, g))
            && Live(t) == Live(bs) - {bs[i]}
            && Mass(t) == Mass(bs) && Payload(t, false) == Payload(bs, false) - bs[i].size
  {
    SetFreeShape(bs, i, true);
    SetFreeSums(bs, i, true);
    SetFreeLive(bs, i, true);
    assert CoalescedAround(SetFree(bs, i, true), i) by {
      forall j | j != i && j + 1 != i ensures Parted(SetFree(bs, i, true), j) {
        assert Parted(bs, j);
      }
    }
    SettleEffect(SetFree(bs, i, true), i);
  }

  lemma GrowEffect(bs: seq<Block>, i: int, n: int)
    requires Sorted(bs) && Coalesced(bs) && 0 <= i < |bs| && !bs[i].free && MergesNext(bs, i)
    requires 0 < n <= bs[i].size + 1 + bs[i + 1].size
    ensures var whole := Block(bs[i].at, bs[i].size + 1 + bs[i + 1].size, false);
            var t := Grow(bs, i, n);
            && Sorted(t) && Coalesced(t)
            && (forall g :: Covers(t, g) <==> Covers(bs, g))
            && Live(t) == Live(bs) - {bs[i]} + {Portion(whole, n)}
            && Mass(t) == Mass(bs)
            && Payload(t, false) == Payload(bs, false) - bs[i].size + Portion(whole, n).size
  {
    var u := Merge(bs, i);
    MergeShape(bs, i);
    MergeSums(bs, i);
    MergeLive(bs, i);
    SplitShape(u, i, n);
    SplitAt(u, i, n);
    SplitSums(u, i, n);
    SplitLive(u, i, n);
    GrowCoalesced(bs, i, n);
    WholeNotLive(bs, i);
  }

  lemma WholeNotLive(bs: seq<Block>, i: int)
    requires Sorted(bs) && 0 <= i < |bs|
    ensures forall b :: b in Live(bs) && b.at == bs[i].at ==> b == bs[i]
  {
    Distinct(bs, i);
  }

  lemma GrowCoalesced(bs: seq<Block>, i: int, n: int)
    requires Sorted(bs) && Coalesced(bs) && 0 <= i < |bs| && !bs[i].free && MergesNext(bs, i)
    ensures Coalesced(Grow(bs, i, n))
  {
    var u, t := Merge(bs, i), Grow(bs, i, n);
    SpliceAt(bs, i, 2, [Block(bs[i].at, bs[i].size + 1 + bs[i + 1].size, false)]);
    forall j ensures Parted(u, j) {
      assert Parted(bs, j) && Parted(bs, j + 1);
    }
    if u[i].size - n >= 2 {
      var rest := Block(u[i].at + 1 + n, u[i].size - n - 1, true);
      SpliceAt(u, i, 1, [Block(u[i].at, n, false), rest]);
      forall j ensures Parted(t, j) {
        assert Parted(bs, j);
        assert Parted(u, j) && Parted(u, j - 1);
      }
    }
  }

  lemma AdoptEffect(bs: seq<Block>, i: int, b: Block)
    requires Sorted(bs) && Coalesced(bs) && 0 <= i <= |bs| && b.free && 0 < b.at && 0 < b.size
    requires i > 0 ==> bs[i - 1].End() <= b.at
    requires i < |bs| ==> b.End() <= bs[i].at
    ensures var t := Adopt(bs, i, b);
            && Sorted(t) && Coalesced(t)
            && (forall g :: Covers(t, g) <==> Covers(bs, g) || Holds(b, g))
            && Live(t) == Live(bs)
            && Mass(t) == Mass(bs) + 1 + b.size && Payload(t, false) == Payload(bs, false)
  {
    var u := Splice(bs, i, 0, [b]);
    SortedOne(b);
    SpliceSorted(bs, i, 0, [b]);
    SpliceEffect(bs, i, 0, [b]);
    SpliceLive(bs, i, 0, [b]);
    SumsOne(b);
    assert bs[i..i] == [];
    forall g ensures Covers([b], g) <==> Holds(b, g) {
      CoversOne(b, g);
    }
    AdoptCoalescedAround(bs, i, b);
    SettleEffect(u, i);
  }

  lemma AdoptCoalescedAround(bs: seq<Block>, i: int, b: Block)
    requires Coalesced(bs) && 0 <= i <= |bs|
    ensures CoalescedAround(Splice(bs, i, 0, [b]), i)
  {
    forall j | j != i && j + 1 != i ensures Parted(Splice(bs, i, 0, [b]), j) {
      assert Parted(bs, j) && Parted(bs, j - 1);
    }
  }
}
