/** The block list is determined by the memory of the heap and the live blocks in it. */
module Canonical {
  import opened Blocks

  /** Every block list of a heap: ordered and coalesced. */
  ghost predicate Normal(bs: seq<Block>) {
    Sorted(bs) && Coalesced(bs)
  }

  ghost predicate SameCover(a: seq<Block>, b: seq<Block>) {
    forall g :: Covers(a, g) <==> Covers(b, g)
  }

  lemma HeadCovers(a: seq<Block>)
    requires Sorted(a) && a != []
    ensures Covers(a, a[0].at)
  {
    assert Holds(a[0], a[0].at);
  }

  lemma FirstAddress(a: seq<Block>, b: seq<Block>)
    requires Sorted(a) && Sorted(b) && SameCover(a, b) && a != [] && b != []
    ensures b[0].at <= a[0].at
  {
    HeadCovers(a);
    var k :| 0 <= k < |b| && Holds(b[k], a[0].at);
    assert Before(b, 0, k);
  }

  lemma LiveHead(a: seq<Block>, b: seq<Block>)
    requires Sorted(a) && Sorted(b) && Live(a) == Live(b) && a != [] && b != []
    requires a[0].at == b[0].at && !a[0].free
    ensures a[0] == b[0]
  {
    assert a[0] in Live(a);
    var k :| 0 <= k < |b| && b[k] == a[0];
    Distinct(b, 0);
  }

  lemma NoneInside(a: seq<Block>, x: Block)
    requires Sorted(a) && a != [] && x in Live(a)
    ensures !(a[0].at < x.at < a[0].End())
  {
    var m :| 0 <= m < |a| && a[m] == x;
    assert Before(a, 0, m);
  }

  /** A free first block ends no later than the other list's free first block. */
  lemma FreeHeadEnd(a: seq<Block>, b: seq<Block>)
    requires Normal(a) && Normal(b) && SameCover(a, b) && Live(a) == Live(b) && a != [] && b != []
    requires a[0].at == b[0].at && b[0].free
    ensures a[0].End() <= b[0].End()
  {
    var g := b[0].End();
    if a[0].at < g < a[0].End() {
      assert Holds(a[0], g);
      assert Covers(a, g);
      var k :| 0 <= k < |b| && Holds(b[k], g);
      assert Before(b, 0, 1) && Before(b, 1, k);
      assert k == 1 && b[1].at == g;
      assert Parted(b, 0);
      assert b[1] in Live(b);
      NoneInside(a, b[1]);
    }
  }

  lemma TailFacts(a: seq<Block>)
    requires Normal(a) && a != []
    ensures Normal(a[1..])
    ensures Live(a[1..]) == Live(a) - {a[0]}
    ensures forall g :: Covers(a[1..], g) <==> Covers(a, g) && !Holds(a[0], g)
  {
    SlicesSorted(a, 0, 1);
    assert forall j :: Parted(a[1..], j) by {
      forall j ensures Parted(a[1..], j) {
        assert Parted(a, j + 1);
      }
    }
    SpliceLive(a, 0, 1, []);
    assert Splice(a, 0, 1, []) == a[1..] && a[0..1] == [a[0]];
    forall g ensures Covers(a[1..], g) <==> Covers(a, g) && !Holds(a[0], g) {
      assert a == [a[0]] + a[1..];
      CoversAppend([a[0]], a[1..], g);
      CoversOne(a[0], g);
      if Covers(a[1..], g) {
        var k :| 0 <= k < |a[1..]| && Holds(a[1..][k], g);
        assert Before(a, 0, k + 1);
      }
    }
  }

  /**
   * Canonical form: memory extent and live blocks determine the list, so no
   * history of splits and merges can be read off it.
   */
  lemma {:induction false} CanonicalForm(a: seq<Block>, b: seq<Block>)
    requires Normal(a) && Normal(b) && SameCover(a, b) && Live(a) == Live(b)
    ensures a == b
    decreases |a|
  {
    if a == [] || b == [] {
      if a != [] { HeadCovers(a); }
      if b != [] { HeadCovers(b); }
    } else {
      FirstAddress(a, b);
      FirstAddress(b, a);
      if !a[0].free {
        LiveHead(a, b);
      } else if !b[0].free {
        LiveHead(b, a);
      } else {
        FreeHeadEnd(a, b);
        FreeHeadEnd(b, a);
      }
      TailFacts(a);
      TailFacts(b);
      CanonicalForm(a[1..], b[1..]);
      assert a == [a[0]] + a[1..] && b == [b[0]] + b[1..];
    }
  }

  /** Index of the block with the given address. */
  ghost predicate LiveAt(bs: seq<Block>, i: int, b: Block) {
    0 <= i < |bs| && bs[i] == b && !b.free
  }

  /** Releasing what an allocation returned restores the list exactly. */
  lemma ReleaseUndoesTake(bs: seq<Block>, i: int, n: int)
    requires Normal(bs) && 0 <= i < |bs| && 0 < n <= bs[i].size && bs[i].free
    ensures i < |Take(bs, i, n)| && Release(Take(bs, i, n), i) == bs
  {
    var t := Take(bs, i, n);
    TakeEffect(bs, i, n);
    SplitAt(bs, i, n);
    var b := Portion(bs[i], n);
    assert t[i] == b;
    ReleaseEffect(t, i);
    assert b !in Live(bs) by { Distinct(bs, i); }
    CanonicalForm(Release(t, i), bs);
  }

  /** The list reached by releasing the given live blocks one after the other, if all are live. */
  ghost predicate Releases(bs: seq<Block>, order: seq<Block>, t: seq<Block>)
    decreases |order|
  {
    if order == [] then t == bs
    else exists i :: LiveAt(bs, i, order[0]) && Releases(Release(bs, i), order[1..], t)
  }

  ghost function Elements(s: seq<Block>): set<Block> { set b | b in s }

  lemma ElementsOfTail(order: seq<Block>)
    requires order != []
    ensures Elements(order) == {order[0]} + Elements(order[1..])
  {
    assert order == [order[0]] + order[1..];
  }

  lemma {:induction false} ReleasesEffect(bs: seq<Block>, order: seq<Block>, t: seq<Block>)
    requires Normal(bs) && Releases(bs, order, t)
    ensures Normal(t) && SameCover(bs, t) && Live(t) == Live(bs) - Elements(order)
    decreases |order|
  {
    if order != [] {
      var i :| LiveAt(bs, i, order[0]) && Releases(Release(bs, i), order[1..], t);
      ReleaseEffect(bs, i);
      ReleasesEffect(Release(bs, i), order[1..], t);
      ElementsOfTail(order);
    }
  }

  /** Releasing the same blocks in two orders gives the same heap. */
  lemma ReleaseOrderIrrelevant(bs: seq<Block>, p: seq<Block>, q: seq<Block>, t: seq<Block>, u: seq<Block>)
    requires Normal(bs) && Elements(p) == Elements(q)
    requires Releases(bs, p, t) && Releases(bs, q, u)
    ensures t == u
  {
    ReleasesEffect(bs, p, t);
    ReleasesEffect(bs, q, u);
    CanonicalForm(t, u);
  }

  /** The granules of a list lie between its first and its last address, so their number is bounded. */
  lemma {:induction false} MassBound(bs: seq<Block>, n: nat)
    requires Sorted(bs) && n <= |bs|
    ensures 0 <= MassTo(bs, n) <= if n == 0 then 0 else bs[n - 1].End() - bs[0].at
    ensures 0 <= PayloadTo(bs, n, false) && 0 <= PayloadTo(bs, n, true)
    ensures PayloadTo(bs, n, false) + PayloadTo(bs, n, true) + n == MassTo(bs, n)
  {
    if n > 0 {
      MassBound(bs, n - 1);
      assert Before(bs, n - 2, n - 1);
    }
  }
}
