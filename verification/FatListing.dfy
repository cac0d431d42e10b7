/** The names a directory gives its entries, as a function of the order in which they are first asked for. */
module FatListing {
  import opened FatNames

  type Path = seq<string>

  const MAX_DIRECTORY_ENTRIES := 224

  const LONG_NAME_CHARACTERS := 13

  /** The slots of a long name, thirteen characters each. */
  function LongSlots(length: nat): nat {
    if length == 0 then 0
    else if length <= LONG_NAME_CHARACTERS then 1
    else 1 + LongSlots(length - LONG_NAME_CHARACTERS)
  }

  lemma {:induction false} LongSlotsRounded(length: nat)
    ensures LongSlots(length) == (length + LONG_NAME_CHARACTERS - 1) / LONG_NAME_CHARACTERS
  {
    if length > LONG_NAME_CHARACTERS {
      LongSlotsRounded(length - LONG_NAME_CHARACTERS);
    }
  }

  /** An entry takes one slot, and those of its long name if it has one. */
  function Slots(name: string, long: bool): (n: nat)
    ensures n >= 1
  {
    1 + if long then LongSlots(|name|) else 0
  }

  /** The short name of every entry of one directory, and the slots in use. */
  datatype Listing = Listing(shorts: map<string, string>, slots: nat)

  const EMPTY := Listing(map[], 0)

  /** Enters a component, unless it is there already: under its own name if that is free, else under the first free alias. */
  ghost function Enter(l: Listing, c: string): Listing {
    if c in l.shorts then l
    else Listing(l.shorts[c := ChosenName(c, l.shorts.Values)], l.slots + Slots(c, NeedsAlias(c, l.shorts.Values)))
  }

  predicate ChildOf(q: Path, p: Path) { |q| > 0 && q[..|q| - 1] == p }

  function Leaf(q: Path): string
    requires |q| > 0
  {
    q[|q| - 1]
  }

  /** What directory p lists after these paths were asked for, one after the other. */
  ghost function Listed(demands: seq<Path>, p: Path): Listing {
    if demands == [] then EMPTY
    else
      var before, q := Listed(demands[..|demands| - 1], p), demands[|demands| - 1];
      if ChildOf(q, p) then Enter(before, Leaf(q)) else before
  }

  lemma ListedNext(demands: seq<Path>, q: Path, p: Path)
    ensures Listed(demands + [q], p)
         == if ChildOf(q, p) then Enter(Listed(demands, p), Leaf(q)) else Listed(demands, p)
  {
    assert (demands + [q])[..|demands|] == demands;
  }

  /** Some directory would take more slots than it may. */
  ghost predicate Overfull(demands: seq<Path>) {
    exists p :: Listed(demands, p).slots > 224
  }

  /** A directory only grows, and what it named keeps its name. */
  ghost predicate Extends(l: Listing, m: Listing) {
    l.slots <= m.slots && forall c :: c in l.shorts ==> c in m.shorts && m.shorts[c] == l.shorts[c]
  }

  lemma {:induction false} ListedMore(demands: seq<Path>, more: seq<Path>, p: Path)
    requires demands <= more
    ensures Extends(Listed(demands, p), Listed(more, p))
    decreases |more|
  {
    if |demands| < |more| {
      ListedMore(demands, more[..|more| - 1], p);
    } else {
      assert demands == more;
    }
  }

  /** Nothing asked for later makes room again. */
  lemma StaysOverfull(demands: seq<Path>, more: seq<Path>)
    requires demands <= more && Overfull(demands)
    ensures Overfull(more)
  {
    var p :| Listed(demands, p).slots > 224;
    ListedMore(demands, more, p);
  }

  /** The names asked for in directory p. */
  function Names(demands: seq<Path>, p: Path): set<string> { set q | q in demands && ChildOf(q, p) :: Leaf(q) }

  lemma NamesNext(demands: seq<Path>, q: Path, p: Path)
    ensures Names(demands + [q], p) == Names(demands, p) + if ChildOf(q, p) then {Leaf(q)} else {}
  {
    assert forall x :: x in demands + [q] <==> x in demands || x == q;
  }

  /** A directory lists exactly the names asked for. */
  lemma {:induction false} ListedNames(demands: seq<Path>, p: Path)
    ensures Listed(demands, p).shorts.Keys == Names(demands, p)
  {
    if demands != [] {
      var before, q := demands[..|demands| - 1], demands[|demands| - 1];
      ListedNames(before, p);
      NamesNext(before, q, p);
      assert before + [q] == demands;
    }
  }

  lemma NothingListed(demands: seq<Path>, p: Path)
    requires forall i :: 0 <= i < |demands| ==> !ChildOf(demands[i], p)
    ensures Listed(demands, p) == EMPTY
  {
    if demands != [] {
      NothingListed(demands[..|demands| - 1], p);
    }
  }

  lemma OneMoreValue(shorts: map<string, string>, c: string, n: string)
    ensures |shorts[c := n].Values| <= |shorts.Values| + 1
  {
    var more := shorts[c := n].Values;
    assert more <= shorts.Values + {n};
    Subset(more, shorts.Values + {n});
  }

  lemma Subset(a: set<string>, b: set<string>)
    requires a <= b
    ensures |a| <= |b|
  {
    assert b == a + (b - a);
  }

  /** Every name in use takes a slot. */
  lemma {:induction false} NamesTakeSlots(demands: seq<Path>, p: Path)
    ensures |Listed(demands, p).shorts.Values| <= Listed(demands, p).slots
  {
    if demands != [] {
      var before, q := Listed(demands[..|demands| - 1], p), demands[|demands| - 1];
      NamesTakeSlots(demands[..|demands| - 1], p);
      if ChildOf(q, p) && Leaf(q) !in before.shorts {
        OneMoreValue(before.shorts, Leaf(q), ChosenName(Leaf(q), before.shorts.Values));
      }
    }
  }

  /** A short name that can stand for the component: its own 8.3 name, or one of its aliases. */
  ghost predicate StandsFor(n: string, c: string) {
    (IsShort(c) && n == ShortName(c)) || exists k: nat :: InRange(k) && n == AliasOf(c, k)
  }

  /** Every name listed is the component's own or one of its aliases. */
  lemma {:induction false} ListedStandFor(demands: seq<Path>, p: Path)
    requires Listed(demands, p).slots < SEQUENCE_LIMIT - 1
    ensures forall c :: c in Listed(demands, p).shorts ==> StandsFor(Listed(demands, p).shorts[c], c)
  {
    if demands != [] {
      var rest, q := demands[..|demands| - 1], demands[|demands| - 1];
      ListedMore(rest, demands, p);
      ListedStandFor(rest, p);
      var used := Listed(rest, p).shorts.Values;
      NamesTakeSlots(rest, p);
      if ChildOf(q, p) {
        ChosenIsFresh(Leaf(q), used);
      }
    }
  }

  /** All names asked for in directory p are 8.3 names. */
  predicate AllShort(demands: seq<Path>, p: Path) {
    forall q :: q in demands && ChildOf(q, p) ==> IsShort(Leaf(q))
  }

  /** Every entry has its own 8.3 name, and one slot. */
  ghost predicate OwnNames(l: Listing) {
    l.slots == |l.shorts| && forall c :: c in l.shorts ==> IsShort(c) && l.shorts[c] == ShortName(c)
  }

  lemma EnterOwnName(l: Listing, c: string)
    requires OwnNames(l) && IsShort(c)
    ensures OwnNames(Enter(l, c))
  {
    if c !in l.shorts && ShortName(c) in l.shorts.Values {
      var b :| b in l.shorts && l.shorts[b] == ShortName(c);
      ShortNameInjective(b, c);
    }
  }

  /** Names that are all 8.3 never collide: each entry keeps its own name and takes one slot. */
  lemma {:induction false} ShortNamesKept(demands: seq<Path>, p: Path)
    requires AllShort(demands, p)
    ensures OwnNames(Listed(demands, p)) && Listed(demands, p).slots == |Names(demands, p)|
  {
    ListedNames(demands, p);
    if demands != [] {
      var rest, q := demands[..|demands| - 1], demands[|demands| - 1];
      ShortNamesKept(rest, p);
      if ChildOf(q, p) {
        EnterOwnName(Listed(rest, p), Leaf(q));
      }
    }
  }

  /** With 8.3 names only, a directory is overfull exactly when more than 224 names are asked for in it. */
  lemma ShortOverfull(demands: seq<Path>)
    requires forall p :: AllShort(demands, p)
    ensures Overfull(demands) <==> exists p :: |Names(demands, p)| > 224
  {
    forall p ensures Listed(demands, p).slots == |Names(demands, p)| {
      ShortNamesKept(demands, p);
    }
  }

  // ----- Paths

  function ShortIn(l: Listing, c: string): string { if c in l.shorts then l.shorts[c] else "" }

  /** A path in short names: each component under the name its directory gives it. */
  ghost function ShortPath(demands: seq<Path>, p: Path): (s: seq<string>)
    ensures |s| == |p| && forall m :: 0 <= m < |p| ==> s[m] == ShortIn(Listed(demands, p[..m]), p[m])
  {
    seq(|p|, m requires 0 <= m < |p| => ShortIn(Listed(demands, p[..m]), p[m]))
  }

  /** The ways from the root to a path: all its prefixes but the empty one, shortest first. */
  function Steps(p: Path, n: nat): (s: seq<Path>)
    requires n <= |p|
    ensures |s| == n && forall k :: 0 <= k < n ==> s[k] == p[..k + 1]
  {
    seq(n, k requires 0 <= k < n => p[..k + 1])
  }
}
