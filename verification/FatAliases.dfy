/** What an alias looks like, said of its eleven characters and of the component alone. */
module FatAliases {
  import opened FatNames
  import opened FatListing

  // ----- The alphanumerics of a text, in order

  predicate Kept(c: char) { 'a' <= c <= 'z' || 'A' <= c <= 'Z' || '0' <= c <= '9' }

  /** The positions of the alphanumerics of s, ascending. */
  ghost predicate Picks(s: string, ps: seq<int>) {
    && (forall i, j :: 0 <= i < j < |ps| ==> ps[i] < ps[j])
    && (forall i :: 0 <= i < |ps| ==> 0 <= ps[i] < |s| && Kept(s[ps[i]]))
    && (forall p :: 0 <= p < |s| && Kept(s[p]) ==> p in ps)
  }

  /** r is what stands at these positions. */
  ghost predicate Picked(s: string, ps: seq<int>, r: string) {
    Picks(s, ps) && |r| == |ps| && forall i :: 0 <= i < |r| ==> r[i] == s[ps[i]]
  }

  ghost predicate Sifted(s: string, r: string) { exists ps :: Picked(s, ps, r) }

  lemma PickLast(s: string, c: char, ps: seq<int>, r: string)
    requires Picked(s, ps, r)
    ensures if Kept(c) then Picked(s + [c], ps + [|s|], r + [c]) else Picked(s + [c], ps, r)
  {
    var t := s + [c];
    forall p | 0 <= p < |t| && Kept(t[p]) ensures p in ps + [|s|] && (!Kept(c) ==> p in ps) {
      if p < |s| {
        assert s[p] == t[p];
      }
    }
  }

  lemma FilteredLast(s: string, c: char)
    ensures Filtered(s + [c]) == Filtered(s) + if Kept(c) then [c] else ""
  {
    if s != "" {
      FilteredLast(s[1..], c);
      assert (s + [c])[1..] == s[1..] + [c];
    } else {
      assert (s + [c])[1..] == "";
    }
  }

  lemma SiftLast(s: string, c: char, r: string)
    requires Sifted(s, r)
    ensures Sifted(s + [c], r + if Kept(c) then [c] else "")
  {
    var ps :| Picked(s, ps, r);
    PickLast(s, c, ps, r);
    assert r + "" == r;
  }

  /** The filter keeps exactly the alphanumerics, in order. */
  lemma {:induction false} FilteredIsSifted(s: string)
    ensures Sifted(s, Filtered(s))
  {
    if s == "" {
      assert Picked(s, [], Filtered(s));
    } else {
      var rest, c := s[..|s| - 1], s[|s| - 1];
      FilteredIsSifted(rest);
      SiftLast(rest, c, Filtered(rest));
      FilteredLast(rest, c);
      assert s == rest + [c];
    }
  }

  // ----- Numerals

  /** The number written in decimal digits, without a leading zero. */
  ghost function Value(d: string): int {
    if d == "" then 0 else 10 * Value(d[..|d| - 1]) + ((d[|d| - 1] as int) - 48)
  }

  ghost predicate Numeral(d: string, k: int) {
    d != "" && d[0] != '0' && (forall i :: 0 <= i < |d| ==> '0' <= d[i] <= '9') && Value(d) == k
  }

  lemma {:induction false} DecimalIsNumeral(k: nat)
    requires k > 0
    ensures Numeral(Decimal(k), k)
  {
    var d := Decimal(k);
    if k < 10 {
      assert d[..0] == "";
    } else {
      DecimalIsNumeral(k / 10);
      assert d[..|d| - 1] == Decimal(k / 10);
    }
  }

  // ----- Aliases

  /** The stem and extension of a component: what stands before and behind its last dot, unless it has none but a leading one. */
  ghost predicate Parts(c: string, a: string, e: string) {
    || (a != "" && c == a + "." + e && '.' !in e)
    || (a == c && e == "" && forall i :: 1 <= i < |c| ==> c[i] != '.')
  }

  function UpperCase(c: char): char { if 'a' <= c <= 'z' then ((c as int) - 32) as char else c }

  /** The eight characters before the extension: as much of the stem as leaves room, a tilde, the number, spaces. */
  ghost predicate AliasStem(n: string, stem: string, d: string)
    requires |n| == 8
  {
    exists w: nat :: StemCut(n, stem, d, w)
  }

  /** w characters of the stem are left. */
  ghost predicate StemCut(n: string, stem: string, d: string, w: nat)
    requires |n| == 8
  {
    && w + 1 + |d| <= 8 && w <= |stem| && (w == |stem| || w + 1 + |d| == 8)
    && (forall i :: 0 <= i < w ==> n[i] == UpperCase(stem[i]))
    && n[w] == '~' && n[w + 1..w + 1 + |d|] == d
    && (forall i :: w + 1 + |d| <= i < 8 ==> n[i] == ' ')
  }

  /** The three characters of the extension: its first alphanumerics, and spaces. */
  ghost predicate AliasExtension(n: string, extension: string)
    requires |n| == 3
  {
    forall i :: 0 <= i < 3 ==> n[i] == if i < |extension| then UpperCase(extension[i]) else ' '
  }

  ghost predicate AliasParts(n: string, stem: string, extension: string, d: string) {
    |n| == 11 && AliasStem(n[..8], if stem == "" then "_" else stem, d) && AliasExtension(n[8..], extension)
  }

  /** n is the k-th alias of a component with these parts. */
  ghost predicate IsAlias(n: string, a: string, e: string, k: int) {
    exists stem, extension, d ::
      Sifted(a, stem) && Sifted(e, extension) && Numeral(d, k) && AliasParts(n, stem, extension, d)
  }

  /** The parts are where the source's last dot puts them. */
  lemma LastDot(c: string, a: string, e: string)
    requires Parts(c, a, e)
    ensures var dot := Last(c, '.', |c|);
      if dot > 0 then a == c[..dot] && e == c[dot + 1..] else a == c && e == ""
  {
    var dot := Last(c, '.', |c|);
    if a != "" && c == a + "." + e && '.' !in e {
      assert c[|a|] == '.';
      forall i | |a| < i < |c| ensures c[i] != '.' {
        assert c[i] == e[i - |a| - 1];
      }
      assert dot == |a|;
    }
  }

  lemma BaseIsAliasStem(stem: string, k: nat)
    requires 0 < k && |Decimal(k)| <= 6 && Tildeless(stem)
    ensures |Base(stem, k)| == 8 && AliasStem(Base(stem, k), stem, Decimal(k))
  {
    var d := Decimal(k);
    var head := Take(stem, 7 - |d|);
    UppersSplit(head, d);
    BaseParts(Uppers(head), d, Base(stem, k));
    BaseHead(Uppers(head), d, Base(stem, k));
    CutHere(Base(stem, k), stem, d, head);
  }

  lemma BaseHead(head: string, d: string, b: string)
    requires |head| + 1 + |d| <= 8 && b == Padded(head + ("~" + d), 8)
    ensures |b| == 8 && forall i :: 0 <= i < |head| ==> b[i] == head[i]
  {
  }

  lemma CutHere(b: string, stem: string, d: string, head: string)
    requires |b| == 8 && |d| <= 6 && head == Take(stem, 7 - |d|)
    requires forall i :: 0 <= i < |head| ==> b[i] == UpperCase(head[i])
    requires b[|head|] == '~' && b[|head| + 1..|head| + 1 + |d|] == d
    requires forall i :: |head| + 1 + |d| <= i < 8 ==> b[i] == ' '
    ensures AliasStem(b, stem, d)
  {
    assert StemCut(b, stem, d, |head|);
  }

  lemma TakenExtension(x: string)
    ensures |Padded(Uppers(Take(x, 3)), 3)| == 3 && AliasExtension(Padded(Uppers(Take(x, 3)), 3), x)
  {
  }

  lemma CleanParts(c: string, a: string, e: string)
    requires Parts(c, a, e)
    ensures CleanStem(c) == (if Filtered(a) == "" then "_" else Filtered(a)) && CleanExtension(c) == Take(Filtered(e), 3)
  {
    LastDot(c, a, e);
    assert Filtered("") == "";
  }

  lemma AliasHalves(c: string, k: nat)
    requires InRange(k) && |Decimal(k)| <= 6
    ensures AliasOf(c, k)[..8] == Base(CleanStem(c), k)
    ensures AliasOf(c, k)[8..] == Padded(Uppers(CleanExtension(c)), 3)
  {
    AliasBase(c, k);
  }

  /** Every alias has the shape promised. */
  lemma AliasShape(c: string, a: string, e: string, k: nat)
    requires InRange(k) && Parts(c, a, e)
    ensures IsAlias(AliasOf(c, k), a, e, k)
  {
    var n, stem, extension := AliasOf(c, k), Filtered(a), Filtered(e);
    DecimalShort(k);
    AliasHalves(c, k);
    CleanParts(c, a, e);
    BaseIsAliasStem(CleanStem(c), k);
    TakenExtension(extension);
    assert AliasParts(n, stem, extension, Decimal(k));
    DecimalIsNumeral(k);
    FilteredIsSifted(a);
    FilteredIsSifted(e);
  }

  // ----- 8.3 names

  predicate Spelled(s: string) {
    forall i :: 0 <= i < |s| ==> 'a' <= s[i] <= 'z' || '0' <= s[i] <= '9' || s[i] in "!#$%&'()-@^_`{}~"
  }

  /** The component is a stem of one to eight of these characters, or such a stem, a dot and one to three of them. */
  predicate EightDotThree(c: string, a: string, e: string) {
    && 1 <= |a| <= 8 && |e| <= 3 && Spelled(a) && Spelled(e)
    && c == if e == "" then a else a + "." + e
  }

  /** The 8.3 name: both parts in capitals, filled up with spaces. */
  ghost predicate OwnName(n: string, a: string, e: string) {
    && |n| == 11 && AliasExtension(n[8..], e)
    && forall i :: 0 <= i < 8 ==> n[i] == if i < |a| then UpperCase(a[i]) else ' '
  }

  lemma DotFollows(c: string, a: string, e: string)
    requires EightDotThree(c, a, e)
    ensures Stem(c) == a && Extension(c) == e && (e != "" <==> |Stem(c)| < |c|)
  {
    if e != "" {
      assert c[|a|] == '.';
      FirstIs(c, '.', 0, |a|) by {
        assert forall i :: 0 <= i < |a| ==> c[i] == a[i];
      }
      assert c[..|a|] == a && c[|a| + 1..] == e;
    }
  }

  lemma ShortIfParted(c: string, a: string, e: string)
    requires EightDotThree(c, a, e)
    ensures IsShort(c) && OwnName(ShortName(c), a, e)
  {
    DotFollows(c, a, e);
    PartedPlain(c, a, e);
    Halves(Padded(Uppers(a), 8), Padded(Uppers(e), 3));
  }

  lemma PartedPlain(c: string, a: string, e: string)
    requires EightDotThree(c, a, e)
    ensures Plain(c)
  {
    forall i | 0 <= i < |c| ensures c[i] < 128 as char && !Capital(c[i]) {
      assert c[i] == if i < |a| then a[i] else if i == |a| then '.' else e[i - |a| - 1];
    }
  }

  lemma PartedIfShort(c: string)
    requires IsShort(c)
    ensures EightDotThree(c, Stem(c), Extension(c))
  {
    SplitAtDot(c);
    PlainSpelled(Stem(c));
    PlainSpelled(Extension(c));
  }

  lemma PlainSpelled(s: string)
    requires ShortChars(s) && forall i :: 0 <= i < |s| ==> !Capital(s[i])
    ensures Spelled(s)
  {
    forall i | 0 <= i < |s| ensures 'a' <= s[i] <= 'z' || '0' <= s[i] <= '9' || s[i] in "!#$%&'()-@^_`{}~" {
      assert ShortChar(s[i]);
    }
  }

  // ----- The name given

  /** No name in use is the component's own 8.3 name. */
  ghost predicate OwnNameFree(c: string, used: set<string>, n: string) {
    n !in used && exists a, e :: EightDotThree(c, a, e) && OwnName(n, a, e)
  }

  ghost predicate InUse(used: set<string>, a: string, e: string, k: int) {
    exists m :: m in used && IsAlias(m, a, e, k)
  }

  /** n is the k-th alias, and those before it are in use. */
  ghost predicate NextAlias(n: string, used: set<string>, a: string, e: string, k: int) {
    IsAlias(n, a, e, k) && forall j :: 1 <= j < k ==> InUse(used, a, e, j)
  }

  /** n is an alias of the component, not in use, and all aliases with smaller numbers are. */
  ghost predicate FirstFree(c: string, used: set<string>, n: string, k: int) {
    n !in used && 1 <= k && forall a, e :: Parts(c, a, e) ==> NextAlias(n, used, a, e, k)
  }

  /**
   * The name a directory gives a component: its own 8.3 name if it has one that
   * is not in use, and else the first free one of its aliases.
   */
  lemma NameChosen(c: string, used: set<string>)
    requires |used| < SEQUENCE_LIMIT - 1
    ensures var n := ChosenName(c, used);
      if exists m :: OwnNameFree(c, used, m) then OwnNameFree(c, used, n) else exists k :: FirstFree(c, used, n, k)
    ensures NeedsAlias(c, used) <==> !exists m :: OwnNameFree(c, used, m)
  {
    if IsShort(c) && ShortName(c) !in used {
      PartedIfShort(c);
      ShortIfParted(c, Stem(c), Extension(c));
      assert OwnNameFree(c, used, ShortName(c));
    } else {
      if m :| OwnNameFree(c, used, m) {
        var a, e :| EightDotThree(c, a, e) && OwnName(m, a, e);
        ShortIfParted(c, a, e);
        OneOwnName(m, ShortName(c), a, e);
      }
      var k := FirstFreeNumber(c, used, 1);
      FreeAliasIs(c, used, 1, k);
      FirstFreeIs(c, used, k);
    }
  }

  lemma OneOwnName(m: string, n: string, a: string, e: string)
    requires OwnName(m, a, e) && OwnName(n, a, e)
    ensures m == n
  {
    forall i | 0 <= i < 11 ensures m[i] == n[i] {
      if i >= 8 {
        assert m[8..][i - 8] == n[8..][i - 8];
      }
    }
  }

  lemma NextAliasIs(c: string, used: set<string>, k: nat, a: string, e: string)
    requires InRange(k) && TakenBefore(c, k, used) && Parts(c, a, e)
    ensures NextAlias(AliasOf(c, k), used, a, e, k)
  {
    AliasShape(c, a, e, k);
    forall j | 1 <= j < k ensures InUse(used, a, e, j) {
      AliasShape(c, a, e, j);
      assert AliasOf(c, j) in used;
    }
  }

  lemma FirstFreeIs(c: string, used: set<string>, k: nat)
    requires InRange(k) && TakenBefore(c, k, used) && AliasOf(c, k) !in used
    ensures FirstFree(c, used, AliasOf(c, k), k)
  {
    forall a, e | Parts(c, a, e) ensures NextAlias(AliasOf(c, k), used, a, e, k) {
      NextAliasIs(c, used, k, a, e);
    }
  }

  lemma PartsOf(c: string) returns (a: string, e: string)
    ensures Parts(c, a, e)
  {
    var dot := Last(c, '.', |c|);
    a, e := c, "";
    if dot > 0 {
      a, e := c[..dot], c[dot + 1..];
      assert c == a + "." + e;
    }
  }

  lemma {:induction false} FilteredWhole(s: string)
    requires forall i :: 0 <= i < |s| ==> Kept(s[i])
    ensures Filtered(s) == s
  {
    if s != "" {
      FilteredWhole(s[1..]);
    }
  }

  lemma IndexBase()
    ensures |Decimal(1)| <= 6 && Base("index", 1) == "INDEX~1 "
  {
    assert Decimal(1) == "1";
  }

  lemma IndexParts()
    ensures Parts("index.html", "index", "html")
  {
    assert "index.html" == "index" + "." + "html";
  }

  lemma IndexClean()
    ensures CleanStem("index.html") == "index" && CleanExtension("index.html") == "htm"
  {
    IndexParts();
    CleanParts("index.html", "index", "html");
    FilteredWhole("index");
    FilteredWhole("html");
  }

  /** An example: index.html, whose extension is too long for a name of its own. */
  lemma IndexHtml()
    ensures AliasOf("index.html", 1)[..8] == "INDEX~1 " && AliasOf("index.html", 1)[8..] == "HTM"
  {
    IndexClean();
    IndexBase();
    AliasHalves("index.html", 1);
  }

  // ----- Entering a name

  /**
   * A name entered into a listing gets the name chosen for it, and takes one
   * slot, and one more for every thirteen characters if it is an alias.
   */
  lemma EnteredExactly(l: Listing, c: string)
    requires c !in l.shorts && |l.shorts.Values| < SEQUENCE_LIMIT - 1
    ensures var used, m := l.shorts.Values, Enter(l, c);
      && m.shorts.Keys == l.shorts.Keys + {c} && (forall b :: b in l.shorts ==> m.shorts[b] == l.shorts[b])
      && if exists n :: OwnNameFree(c, used, n)
         then OwnNameFree(c, used, m.shorts[c]) && m.slots == l.slots + 1
         else (exists k :: FirstFree(c, used, m.shorts[c], k)) && m.slots == l.slots + 1 + (|c| + 12) / 13
  {
    NameChosen(c, l.shorts.Values);
    LongSlotsRounded(|c|);
  }
}
