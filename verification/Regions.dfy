/** The normalised tables of physical byte ranges. */
module Regions {
  import opened Machine
  import opened Numbers

  const MAX_REGIONS := 64

  datatype Region = Region(base: int, length: int) {
    function End(): int { base + length }
  }

  /** 64-bit base + length, pinned to the largest word on overflow. */
  function SaturatedEnd(base: int, length: int): int {
    if length > U64_MAX - base then U64_MAX else base + length
  }

  ghost predicate InRegion(r: Region, x: int) {
    r.base <= x < r.End()
  }

  ghost predicate Contains(s: seq<Region>, x: int) {
    exists i :: 0 <= i < |s| && InRegion(s[i], x)
  }

  ghost predicate WellFormed(r: Region) {
    0 <= r.base && 0 < r.length && r.End() <= U64_MAX
  }

  /** Ascending, disjoint, and with a gap between neighbours. */
  ghost predicate Normalized(s: seq<Region>) {
    && (forall i :: 0 <= i < |s| ==> WellFormed(s[i]))
    && (forall i, j :: 0 <= i < j < |s| ==> s[i].End() < s[j].base)
  }

  /** The two closed ranges share a point, so that their union is one range. */
  predicate Touches(r: Region, base: int, end: int) {
    base <= r.End() && r.base <= end
  }

  /** No entry reaches the last word, so saturation does not change what a range touches. */
  lemma TouchesSaturated(s: seq<Region>, base: int, length: int)
    requires Normalized(s) && 0 <= base <= U64_MAX && 0 <= length <= U64_MAX
    ensures forall r :: r in s ==> (Touches(r, base, SaturatedEnd(base, length)) <==> Touches(r, base, base + length))
  {
  }

  function Remove(s: seq<Region>, i: int): seq<Region>
    requires 0 <= i < |s|
  {
    s[..i] + s[i + 1..]
  }

  function Insert(s: seq<Region>, i: int, r: Region): seq<Region>
    requires 0 <= i <= |s|
  {
    s[..i] + [r] + s[i..]
  }

  lemma RemoveContains(s: seq<Region>, i: int, x: int)
    requires 0 <= i < |s|
    ensures Contains(s, x) <==> Contains(Remove(s, i), x) || InRegion(s[i], x)
  {
    var t := Remove(s, i);
    forall k | 0 <= k < |s| && k != i && InRegion(s[k], x) ensures Contains(t, x) {
      assert t[if k < i then k else k - 1] == s[k];
    }
    forall k | 0 <= k < |t| && InRegion(t[k], x) ensures Contains(s, x) {
      assert s[if k < i then k else k + 1] == t[k];
    }
  }

  lemma InsertContains(s: seq<Region>, i: int, r: Region, x: int)
    requires 0 <= i <= |s|
    ensures Contains(Insert(s, i, r), x) <==> Contains(s, x) || InRegion(r, x)
  {
    var t := Insert(s, i, r);
    assert t[i] == r && Remove(t, i) == s;
    RemoveContains(t, i, x);
  }

  /**
   * A normalised table is determined by the bytes it represents, so the order
   * in which ranges were added leaves no trace in it.
   */
  lemma {:induction false} NormalForm(s: seq<Region>, t: seq<Region>)
    requires Normalized(s) && Normalized(t)
    requires forall x :: Contains(s, x) <==> Contains(t, x)
    ensures s == t
    decreases |s|
  {
    if s == [] {
      if t != [] {
        EntryContains(t, 0, t[0].base);
      }
    } else if t == [] {
      EntryContains(s, 0, s[0].base);
    } else {
      FirstNotBelow(s, t);
      FirstNotBelow(t, s);
      EndNotBeyond(s, t);
      EndNotBeyond(t, s);
      forall x ensures Contains(s[1..], x) <==> Contains(t[1..], x) {
        RemoveContains(s, 0, x);
        RemoveContains(t, 0, x);
        assert Remove(s, 0) == s[1..] && Remove(t, 0) == t[1..];
        TailAbove(s, x);
        TailAbove(t, x);
      }
      NormalForm(s[1..], t[1..]);
      assert s == [s[0]] + s[1..] && t == [t[0]] + t[1..];
    }
  }

  lemma TailAbove(s: seq<Region>, x: int)
    requires Normalized(s) && s != []
    ensures Contains(s[1..], x) ==> !InRegion(s[0], x)
  {
  }

  lemma FirstNotBelow(s: seq<Region>, t: seq<Region>)
    requires Normalized(s) && Normalized(t) && s != [] && t != []
    requires forall x :: Contains(s, x) <==> Contains(t, x)
    ensures s[0].base >= t[0].base
  {
    assert InRegion(s[0], s[0].base);
    assert Contains(s, s[0].base);
    var k :| 0 <= k < |t| && InRegion(t[k], s[0].base);
  }

  lemma EndNotBeyond(s: seq<Region>, t: seq<Region>)
    requires Normalized(s) && Normalized(t) && s != [] && t != []
    requires s[0].base == t[0].base
    requires forall x :: Contains(s, x) <==> Contains(t, x)
    ensures s[0].End() <= t[0].End()
  {
    GapAfter(t, 0);
    EntryContains(s, 0, t[0].End());
  }

  lemma EntryContains(s: seq<Region>, i: int, x: int)
    requires 0 <= i < |s|
    ensures InRegion(s[i], x) ==> Contains(s, x)
  {
  }

  /** The byte just after an entry belongs to no entry. */
  lemma GapAfter(s: seq<Region>, i: int)
    requires Normalized(s) && 0 <= i < |s|
    ensures !Contains(s, s[i].End())
  {
    forall k | 0 <= k < |s| ensures !InRegion(s[k], s[i].End()) {
      assert k < i ==> s[k].End() < s[i].base;
      assert i < k ==> s[i].End() < s[k].base;
    }
  }

  /** In a normalised table a range lies in the union iff it lies in one entry. */
  lemma {:induction false} IntervalInOneRegion(s: seq<Region>, lo: int, hi: int)
    requires Normalized(s) && lo < hi
    ensures (forall x :: lo <= x < hi ==> Contains(s, x))
            <==> exists i :: 0 <= i < |s| && s[i].base <= lo && hi <= s[i].End()
  {
    if forall x :: lo <= x < hi ==> Contains(s, x) {
      assert Contains(s, lo);
      var i :| 0 <= i < |s| && InRegion(s[i], lo);
      GapAfter(s, i);
      assert !(lo <= s[i].End() < hi);
    }
    if i :| 0 <= i < |s| && s[i].base <= lo && hi <= s[i].End() {
      forall x | lo <= x < hi ensures Contains(s, x) {
        assert InRegion(s[i], x);
      }
    }
  }

  /** The summed lengths of the first n entries. */
  function TotalLength(s: seq<Region>, n: nat): int
    requires n <= |s|
  {
    if n == 0 then 0 else TotalLength(s, n - 1) + s[n - 1].length
  }

  predicate Between(lo: int, x: int, hi: int) { lo <= x < hi }

  function Interval(lo: int, hi: int): set<int> {
    set x {:trigger Between(lo, x, hi)} | lo <= x < hi && Between(lo, x, hi)
  }

  lemma {:induction false} IntervalSize(lo: int, hi: int)
    requires lo <= hi
    ensures |Interval(lo, hi)| == hi - lo
    decreases hi - lo
  {
    if lo < hi {
      IntervalSize(lo, hi - 1);
      assert Interval(lo, hi) == Interval(lo, hi - 1) + {hi - 1} by {
        forall x ensures x in Interval(lo, hi) <==> x in Interval(lo, hi - 1) || x == hi - 1 {
          assert Between(lo, x, hi) <==> Between(lo, x, hi - 1) || x == hi - 1;
        }
      }
    } else {
      assert Interval(lo, hi) == {};
    }
  }

  /** The bytes of the first n entries. */
  function Bytes(s: seq<Region>, n: nat): set<int>
    requires n <= |s|
  {
    if n == 0 then {} else Bytes(s, n - 1) + Interval(s[n - 1].base, s[n - 1].End())
  }

  lemma {:induction false} BytesAre(s: seq<Region>, n: nat, x: int)
    requires n <= |s|
    ensures x in Bytes(s, n) <==> exists i :: 0 <= i < n && InRegion(s[i], x)
  {
    if n > 0 {
      BytesAre(s, n - 1, x);
      assert Between(s[n - 1].base, x, s[n - 1].End()) <==> InRegion(s[n - 1], x);
    }
  }

  /** The summed lengths are the number of distinct bytes, which fits in a word. */
  lemma {:induction false} TotalLengthCountsBytes(s: seq<Region>, n: nat)
    requires Normalized(s) && n <= |s|
    ensures |Bytes(s, n)| == TotalLength(s, n)
    ensures 0 <= TotalLength(s, n) <= if n == 0 then 0 else s[n - 1].End()
    ensures TotalLength(s, n) <= U64_MAX
    ensures forall x :: x in Bytes(s, n) ==> n > 0 && x < s[n - 1].End()
  {
    if n > 0 {
      TotalLengthCountsBytes(s, n - 1);
      assert n > 1 ==> s[n - 2].End() < s[n - 1].base;
      IntervalSize(s[n - 1].base, s[n - 1].End());
      assert Bytes(s, n - 1) !! Interval(s[n - 1].base, s[n - 1].End());
    }
  }

  /** A table of physical ranges: a fixed buffer and the number of entries in use. */
  class RegionTable {
    const regions: array<Region>
    var count: nat

    ghost predicate Valid()
      reads this, regions
    {
      regions.Length == MAX_REGIONS && count <= MAX_REGIONS && Normalized(View())
    }

    function View(): seq<Region>
      requires count <= regions.Length
      reads this, regions
    {
      regions[..count]
    }

    constructor ()
      ensures Valid() && View() == [] && fresh(regions)
    {
      regions := new Region[MAX_REGIONS](_ => Region(0, 0));
      count := 0;
    }

    method Delete(i: nat)
      requires i < count <= regions.Length
      modifies this, regions
      ensures count == old(count) - 1
      ensures View() == Remove(old(View()), i)
    {
      ghost var was := View();
      var move := i + 1;
      while move < count
        invariant i + 1 <= move <= count
        invariant forall k :: 0 <= k < count
                    ==> regions[k] == was[if i <= k < move - 1 then k + 1 else k]
        modifies regions
      {
        regions[move - 1] := regions[move];
        move := move + 1;
      }
      count := count - 1;
    }

    method InsertAt(i: nat, r: Region)
      requires i <= count < regions.Length
      modifies this, regions
      ensures count == old(count) + 1
      ensures View() == Insert(old(View()), i, r)
    {
      ghost var was := View();
      var move := count;
      while move > i
        invariant i <= move <= count
        invariant forall k :: 0 <= k < move ==> regions[k] == was[k]
        invariant forall k :: move < k <= count ==> regions[k] == was[k - 1]
        modifies regions
      {
        regions[move] := regions[move - 1];
        move := move - 1;
      }
      regions[i] := r;
      count := count + 1;
    }

    /** Removes every entry touching [base, end) and returns the hull of what was merged. */
    method Absorb(base: int, end: int) returns (lo: int, hi: int)
      requires Valid() && 0 <= base < end <= U64_MAX
      modifies this, regions
      ensures Valid() && 0 <= lo <= base && end <= hi <= U64_MAX
      ensures forall k :: 0 <= k < |View()| ==> !Touches(View()[k], lo, hi)
      ensures forall x :: Contains(View(), x) || lo <= x < hi
                          <==> Contains(old(View()), x) || base <= x < end
      ensures count <= old(count)
      ensures count == old(count) ==> View() == old(View()) && lo == base && hi == end
      ensures count < old(count) ==> exists r :: r in old(View()) && Touches(r, base, end)
    {
      lo, hi := base, end;
      var i := 0;
      while i < count
        invariant 0 <= i <= count <= old(count)
        invariant Valid()
        invariant 0 <= lo <= base && end <= hi <= U64_MAX
        invariant forall k :: 0 <= k < i ==> !Touches(View()[k], lo, hi)
        invariant forall x :: Contains(View(), x) || lo <= x < hi
                              <==> Contains(old(View()), x) || base <= x < end
        invariant count == old(count) ==> View() == old(View()) && lo == base && hi == end
        invariant count < old(count) ==> exists r :: r in old(View()) && Touches(r, base, end)
        decreases count - i
      {
        var current := regions[i];
        assert current == View()[i];
        var currentEnd := SaturatedEnd(current.base, current.length);
        if lo <= currentEnd && current.base <= hi {
          AbsorbStep(View(), i, lo, hi);
          assert count == old(count) ==> current in old(View()) && Touches(current, base, end);
          if current.base < lo { lo := current.base; }
          if currentEnd > hi { hi := currentEnd; }
          Delete(i);
        } else {
          i := i + 1;
        }
      }
    }

    /**
     * Adds [base, base + length), saturated at the top of the address space.
     * It is refused exactly when the range is empty or when the table is full
     * and no entry touches the range.
     */
    method Add(base: int, length: int) returns (ok: bool)
      requires Valid() && 0 <= base <= U64_MAX && 0 <= length <= U64_MAX
      modifies this, regions
      ensures Valid()
      ensures ok <==> && length != 0 && base < U64_MAX
                      && (old(count) < 64
                          || exists r :: r in old(View()) && Touches(r, base, base + length))
      ensures !ok ==> View() == old(View())
      ensures ok ==> forall x :: Contains(View(), x)
                                 <==> Contains(old(View()), x) || (base <= x < base + length && x < 0xFFFF_FFFF_FFFF_FFFF)
    {
      if length == 0 { return false; }
      var end := SaturatedEnd(base, length);
      if end <= base { return false; }
      TouchesSaturated(View(), base, length);
      var lo, hi := Absorb(base, end);
      if count >= MAX_REGIONS { return false; }
      var insert := 0;
      while insert < count && regions[insert].base < lo
        invariant 0 <= insert <= count
        invariant forall k :: 0 <= k < insert ==> View()[k].base < lo
      {
        assert View()[insert] == regions[insert];
        insert := insert + 1;
      }
      var r := Region(lo, hi - lo);
      assert insert < count ==> View()[insert] == regions[insert];
      forall x ensures Contains(Insert(View(), insert, r), x) <==> Contains(View(), x) || lo <= x < hi {
        InsertContains(View(), insert, r, x);
      }
      InsertNormalized(View(), insert, r);
      InsertAt(insert, r);
      return true;
    }

    /** Exactly: the range is nonempty, in the union of this table, and free of reservations. */
    method IsUsable(reserved: RegionTable, base: int, length: int) returns (usable: bool)
      requires Valid() && reserved.Valid() && 0 <= base <= U64_MAX && 0 <= length <= U64_MAX
      ensures usable <==> RangeUsable(View(), reserved.View(), base, length)
    {
      if length == 0 || length > U64_MAX - base {
        return false;
      }
      var requestedEnd := base + length;
      ghost var blocked, allowed := reserved.View(), View();
      var i := 0;
      while i < reserved.count
        invariant 0 <= i <= reserved.count
        invariant forall k, x :: 0 <= k < i && base <= x < requestedEnd ==> !InRegion(blocked[k], x)
      {
        var r := reserved.regions[i];
        assert r == blocked[i];
        if base < SaturatedEnd(r.base, r.length) && r.base < requestedEnd {
          assert InRegion(blocked[i], Max(base, r.base));
          assert Contains(blocked, Max(base, r.base));
          return false;
        }
        i := i + 1;
      }
      i := 0;
      while i < count
        invariant 0 <= i <= count
        invariant forall k :: 0 <= k < i ==> !(allowed[k].base <= base && requestedEnd <= allowed[k].End())
      {
        var r := regions[i];
        assert r == allowed[i];
        if base >= r.base && requestedEnd <= SaturatedEnd(r.base, r.length) {
          IntervalInOneRegion(allowed, base, requestedEnd);
          return true;
        }
        i := i + 1;
      }
      IntervalInOneRegion(allowed, base, requestedEnd);
      return false;
    }

    /** The saturating sum of the lengths is the number of bytes of the table: it never saturates. */
    method Total() returns (total: int)
      requires Valid()
      ensures total == |Bytes(View(), count)|
    {
      total := 0;
      var i := 0;
      ghost var s := View();
      while i < count
        invariant 0 <= i <= count
        invariant total == TotalLength(s, i)
      {
        TotalLengthCountsBytes(s, i + 1);
        var length := regions[i].length;
        assert length == s[i].length;
        if U64_MAX - total < length {
          assert false;
        }
        total := total + length;
        i := i + 1;
      }
      TotalLengthCountsBytes(s, count);
    }
  }

  ghost predicate RangeUsable(usable: seq<Region>, reserved: seq<Region>, base: int, length: int) {
    && length > 0 && base + length <= U64_MAX
    && forall x :: base <= x < base + length ==> Contains(usable, x) && !Contains(reserved, x)
  }

  /** Deleting a touching entry and widening the range keeps the union and the earlier gaps. */
  lemma AbsorbStep(s: seq<Region>, i: int, lo: int, hi: int)
    requires Normalized(s) && 0 <= i < |s| && Touches(s[i], lo, hi) && lo < hi
    requires forall k :: 0 <= k < i ==> !Touches(s[k], lo, hi)
    ensures var lo' := Min(lo, s[i].base);
            var hi' := Max(hi, s[i].End());
            var t := Remove(s, i);
            && Normalized(t)
            && (forall k :: 0 <= k < i ==> !Touches(t[k], lo', hi'))
            && (forall x :: Contains(t, x) || lo' <= x < hi' <==> Contains(s, x) || lo <= x < hi)
  {
    var t := Remove(s, i);
    forall x ensures Contains(s, x) <==> Contains(t, x) || InRegion(s[i], x) {
      RemoveContains(s, i, x);
    }
    assert forall k :: 0 <= k < |t| ==> t[k] == if k < i then s[k] else s[k + 1];
  }

  lemma InsertNormalized(s: seq<Region>, i: int, r: Region)
    requires Normalized(s) && WellFormed(r) && 0 <= i <= |s|
    requires forall k :: 0 <= k < |s| ==> !Touches(s[k], r.base, r.End())
    requires forall k :: 0 <= k < i ==> s[k].base < r.base
    requires i < |s| ==> s[i].base >= r.base
    ensures Normalized(Insert(s, i, r))
  {
    var t := Insert(s, i, r);
    forall k | i <= k < |s| ensures s[k].base >= r.base {
    }
    forall a, b | 0 <= a < b < |t| ensures t[a].End() < t[b].base {
      if b < i {
      } else if b == i {
        assert t[a] == s[a];
      } else if a < i {
        assert t[a] == s[a] && t[b] == s[b - 1];
      } else if a == i {
        assert t[b] == s[b - 1];
      } else {
        assert t[a] == s[a - 1] && t[b] == s[b - 1];
      }
    }
  }
}
