/** What a directory listing shows of the image: the entries on the way to every file, and their names. */
module FloppyShown {
  import opened Bytes
  import L = FatListing
  import N = FatNames
  import A = FatAliases
  import T = FatTree
  import R = FloppyReader
  import opened FloppyTree
  import opened FloppySource

  /** The bytes are the characters. */
  ghost predicate Spells(b: seq<Byte>, s: string) {
    |b| == |s| && forall i :: 0 <= i < |b| ==> b[i] as int == s[i] as int
  }

  lemma BytesSpell(s: string)
    requires forall i :: 0 <= i < |s| ==> s[i] < 256 as char
    ensures Spells(NameBytes(s), s)
  {
  }

  // ----- Case flags

  /** A lower-case letter stands before the first dot. */
  ghost predicate LetterBefore(c: string) {
    exists i :: 0 <= i < |c| && 'a' <= c[i] <= 'z' && forall j :: 0 <= j < i ==> c[j] != '.'
  }

  /** A lower-case letter stands behind the only dot. */
  ghost predicate LetterBehind(c: string) {
    exists d, i :: 0 <= d < i < |c| && OnlyDot(c, d) && 'a' <= c[i] <= 'z'
  }

  ghost predicate OnlyDot(c: string, d: int)
    requires 0 <= d < |c|
  {
    c[d] == '.' && forall j :: 0 <= j < |c| && j != d ==> c[j] != '.'
  }

  ghost function CaseOf(c: string): int { (if LetterBefore(c) then 8 else 0) + if LetterBehind(c) then 16 else 0 }

  lemma StemCase(c: string)
    ensures LetterBefore(c) <==> N.NtCase(c).stem
  {
    var stem := N.Stem(c);
    if LetterBefore(c) {
      var i :| 0 <= i < |c| && 'a' <= c[i] <= 'z' && forall j :: 0 <= j < i ==> c[j] != '.';
      assert i < |stem| && stem[i] == c[i];
    }
    if i :| 0 <= i < |stem| && N.Letter(stem[i]) {
      assert c[i] == stem[i];
    }
  }

  lemma ExtensionCase(c: string)
    ensures LetterBehind(c) <==> N.NtCase(c).extension
  {
    var dot, extension := N.First(c, '.', 0), N.Extension(c);
    if LetterBehind(c) {
      var d, i :| 0 <= d < i < |c| && OnlyDot(c, d) && 'a' <= c[i] <= 'z';
      assert dot == d && extension[i - d - 1] == c[i];
      forall j | 0 <= j < |extension| ensures extension[j] != '.' {
        assert extension[j] == c[d + 1 + j];
      }
    }
    if N.NtCase(c).extension {
      var i :| 0 <= i < |extension| && N.Letter(extension[i]);
      assert c[dot + 1 + i] == extension[i];
      forall j | 0 <= j < |c| && j != dot ensures c[j] != '.' {
        assert j > dot ==> c[j] == extension[j - dot - 1];
      }
      assert OnlyDot(c, dot);
    }
  }

  lemma CaseByteIs(c: string)
    ensures CaseByte(N.NtCase(c)) as int == CaseOf(c)
  {
    StemCase(c);
    ExtensionCase(c);
  }

  // ----- Names

  lemma {:induction false} UnpaddedIs(b: seq<Byte>, n: nat)
    requires n <= |b| && (forall i :: n <= i < |b| ==> b[i] == 32) && (n > 0 ==> b[n - 1] != 32)
    ensures R.Unpadded(b) == b[..n]
    decreases |b|
  {
    if n < |b| {
      UnpaddedIs(b[..|b| - 1], n);
      assert b[..|b| - 1][..n] == b[..n];
    } else {
      assert b[..n] == b;
    }
  }

  lemma LoweredSpells(b: seq<Byte>, s: string, lower: bool)
    requires (N.HasLetter(s) ==> lower) && forall i :: 0 <= i < |s| ==> !N.Capital(s[i]) && s[i] < 128 as char
    requires |b| == |s| && forall i :: 0 <= i < |b| ==> b[i] as int == N.Upper(s[i]) as int
    ensures Spells(R.Lowered(b, lower), s)
  {
    forall i | 0 <= i < |b| ensures R.Lowered(b, lower)[i] as int == s[i] as int {
      if N.Letter(s[i]) {
        assert N.HasLetter(s);
      }
    }
  }

  /** One field of a short name: capitals, then spaces. */
  ghost predicate Field(b: seq<Byte>, s: string) {
    |s| <= |b| && forall i :: 0 <= i < |b| ==> b[i] as int == (if i < |s| then N.Upper(s[i]) else ' ') as int
  }

  lemma PartShown(s: string, b: seq<Byte>, lower: bool)
    requires N.ShortChars(s) && (N.HasLetter(s) ==> lower) && forall i :: 0 <= i < |s| ==> !N.Capital(s[i])
    requires Field(b, s)
    ensures Spells(R.Lowered(R.Unpadded(b), lower), s)
  {
    forall i | 0 <= i < |s| ensures s[i] != ' ' && s[i] < 128 as char && N.Upper(s[i]) != ' ' {
      assert N.ShortChar(s[i]);
    }
    UnpaddedIs(b, |s|);
    LoweredSpells(b[..|s|], s, lower);
  }

  lemma FieldsOf(c: string, name: seq<Byte>)
    requires N.IsShort(c) && name == NameBytes(N.ShortName(c))
    ensures |name| == 11 && Field(name[..8], N.Stem(c)) && Field(name[8..], N.Extension(c))
  {
    N.ShortStorable(c);
    var n := N.ShortName(c);
    N.Halves(N.Padded(N.Uppers(N.Stem(c)), 8), N.Padded(N.Uppers(N.Extension(c)), 3));
    forall i | 0 <= i < 11 ensures name[i] as int == n[i] as int {
    }
    FieldIs(N.Stem(c), n[..8], name[..8]);
    FieldIs(N.Extension(c), n[8..], name[8..]);
  }

  lemma FieldIs(s: string, n: string, b: seq<Byte>)
    requires n == N.Padded(N.Uppers(s), |n|) && |s| <= |n| == |b| && forall i :: 0 <= i < |b| ==> b[i] as int == n[i] as int
    ensures Field(b, s)
  {
  }

  lemma CaseBits(x: Byte, stem: bool, extension: bool)
    requires x as int == (if stem then 8 else 0) + if extension then 16 else 0
    ensures ((x / 8) % 2 == 1 <==> stem) && ((x / 16) % 2 == 1 <==> extension)
  {
  }

  /** An entry under a component's own 8.3 name, with its case flags, shows the component. */
  lemma EntryShows(e: R.DirEntry, c: string)
    requires N.IsShort(c) && |e.name| == 11 && e.name == NameBytes(N.ShortName(c)) && e.ntCase as int == CaseOf(c)
    ensures Spells(R.ShownName(e), c)
  {
    var stem, extension := N.Stem(c), N.Extension(c);
    CaseBits(e.ntCase, LetterBefore(c), LetterBehind(c));
    FieldsOf(c, e.name);
    StemCase(c);
    ExtensionCase(c);
    N.SplitAtDot(c);
    PartShown(stem, e.name[..8], LetterBefore(c));
    assert '.' !in extension && (N.HasLetter(extension) ==> LetterBehind(c)) by {
      NoDot(extension);
    }
    PartShown(extension, e.name[8..], LetterBehind(c));
    WholeShown(R.Lowered(R.Unpadded(e.name[..8]), LetterBefore(c)),
               R.Lowered(R.Unpadded(e.name[8..]), LetterBehind(c)), stem, extension);
  }

  lemma NoDot(s: string)
    requires N.ShortChars(s)
    ensures '.' !in s
  {
    forall i | 0 <= i < |s| ensures s[i] != '.' {
      assert N.ShortChar(s[i]);
    }
  }

  lemma WholeShown(a: seq<Byte>, b: seq<Byte>, s: string, t: string)
    requires Spells(a, s) && Spells(b, t)
    ensures Spells(if b == [] then a else a + [R.DOT] + b, if t == "" then s else s + "." + t)
  {
    if t != "" {
      var whole, text := a + [R.DOT] + b, s + "." + t;
      forall i | 0 <= i < |whole| ensures whole[i] as int == text[i] as int {
      }
    }
  }

  // ----- The entries of an image

  /** The entry stands under the 8.3 name of the component. */
  ghost predicate UnderOwnName(e: R.DirEntry, c: string) {
    exists a, x, n :: A.EightDotThree(c, a, x) && A.OwnName(n, a, x) && Spells(e.name, n)
  }

  /** It stands under a numbered alias. */
  ghost predicate UnderAlias(e: R.DirEntry, c: string) {
    exists a, x, n, k :: A.Parts(c, a, x) && A.IsAlias(n, a, x, k) && Spells(e.name, n)
  }

  /** Under its 8.3 name a component is shown exactly as it was given; the case byte is right in any case. */
  ghost predicate ShownAs(e: R.DirEntry, c: string) {
    && |e.name| == 11 && e.ntCase as int == CaseOf(c)
    && (UnderOwnName(e, c) || UnderAlias(e, c))
    && (UnderOwnName(e, c) ==> Spells(R.ShownName(e), c))
  }

  lemma SpellsOne(b: seq<Byte>, s: string, t: string)
    requires Spells(b, s) && Spells(b, t)
    ensures s == t
  {
    forall i | 0 <= i < |s| ensures s[i] == t[i] {
      assert b[i] as int == s[i] as int == t[i] as int;
    }
  }

  lemma OwnIsShown(e: R.DirEntry, c: string)
    requires UnderOwnName(e, c) && |e.name| == 11 && e.ntCase as int == CaseOf(c)
    ensures Spells(R.ShownName(e), c)
  {
    var a, x, n :| A.EightDotThree(c, a, x) && A.OwnName(n, a, x) && Spells(e.name, n);
    A.ShortIfParted(c, a, x);
    A.OneOwnName(n, N.ShortName(c), a, x);
    SpelledBytes(e.name, n);
    EntryShows(e, c);
  }

  lemma SpelledBytes(b: seq<Byte>, s: string)
    requires Spells(b, s)
    ensures b == NameBytes(s)
  {
    forall i | 0 <= i < |s| ensures b[i] == NameBytes(s)[i] {
      assert b[i] as int == s[i] as int;
    }
  }

  /** Every entry that stores a component with its case flags shows it. */
  lemma StoredIsShown(e: R.DirEntry, c: string, short: string)
    requires e.name == NameBytes(short) && N.Storable(short) && L.StandsFor(short, c)
    requires e.ntCase == CaseByte(N.NtCase(c))
    ensures ShownAs(e, c)
  {
    CaseByteIs(c);
    BytesSpell(short);
    if N.IsShort(c) && short == N.ShortName(c) {
      A.PartedIfShort(c);
      A.ShortIfParted(c, N.Stem(c), N.Extension(c));
      assert UnderOwnName(e, c);
    } else {
      var k: nat :| N.InRange(k) && short == N.AliasOf(c, k);
      var a, x := A.PartsOf(c);
      A.AliasShape(c, a, x, k);
      assert UnderAlias(e, c);
    }
    if UnderOwnName(e, c) {
      OwnIsShown(e, c);
    }
  }

  /** The first two entries of a directory lead to itself and to the one above; the root is 0. */
  ghost predicate DotsShown(read: R.Reader, e: R.DirEntry, above: int)
    requires e.first >= 0
  {
    var table := read(e.first);
    && |table| >= 64
    && R.DecodeAt(table, 0) == R.DirEntry([46, 32, 32, 32, 32, 32, 32, 32, 32, 32, 32], 0x10, 0, e.first, 0)
    && R.DecodeAt(table, 1) == R.DirEntry([46, 46, 32, 32, 32, 32, 32, 32, 32, 32, 32], 0x10, 0, above, 0)
  }

  /** The entry of the directory or file reached by the first m + 1 names. */
  ghost predicate StepShown(read: R.Reader, root: seq<Byte>, path: seq<R.Name>, p: L.Path, m: nat, size: int)
    requires m < |p| == |path|
  {
    var r := R.EntryOn(read, root, path[..m + 1]);
    && r.Some? && r.value.first >= 0 && ShownAs(r.value, p[m])
    && if m == |p| - 1 then r.value.attributes == 0x20 && r.value.size == size
       else r.value.attributes == 0x10 && r.value.size == 0 && AboveShown(read, root, path, m, r.value)
  }

  ghost predicate AboveShown(read: R.Reader, root: seq<Byte>, path: seq<R.Name>, m: nat, e: R.DirEntry)
    requires m < |path| && e.first >= 0
  {
    if m == 0 then DotsShown(read, e, 0)
    else
      var above := R.EntryOn(read, root, path[..m]);
      above.Some? && DotsShown(read, e, above.value.first)
  }

  // ----- The way to a source

  lemma {:induction false} Ancestor(root: T.FatDirectory, nodes: set<T.FatDirectory>, list: seq<T.FatDirectory>,
                                    i: nat, n: nat)
    returns (x: nat)
    requires Walked(root, nodes, list) && i < |list| && n <= |list[i].path|
    ensures x < |list| && list[x].path == list[i].path[..n]
    decreases i
  {
    ListedNode(root, nodes, list, i);
    if n == |list[i].path| {
      x := i;
    } else {
      var k := T.ParentLists(root, nodes, list[i]);
      assert list[i] != root;
      ParentBefore(root, nodes, list, i);
      var above := IndexOf(list, list[i].parent, 0);
      x := Ancestor(root, nodes, list, above, n);
    }
  }

  lemma DiskPathPrefix(sources: seq<T.Source>, p: L.Path, n: nat)
    requires n <= |p|
    ensures DiskPath(sources, p[..n]) == DiskPath(sources, p)[..n]
  {
    forall m | 0 <= m < n ensures p[..n][..m] == p[..m] {
    }
  }

  /** A directory below the root: its entry, and its dot entries. */
  lemma FolderShown(root: T.FatDirectory, nodes: set<T.FatDirectory>, list: seq<T.FatDirectory>, sources: seq<T.Source>,
                    dirs: Tree, layout: Layout, read: R.Reader, table: seq<Byte>, x: nat)
    requires Flattened(root, nodes, list, sources, dirs) && Fits(layout, dirs) && Stored(read, table, dirs, layout)
    requires 0 < x < |list|
    ensures dirs[x].parent < x && list[dirs[x].parent] == list[x].parent
    ensures var r := R.EntryOn(read, table, PathTo(dirs, x));
      r == Some(R.DirEntry(NameBytes(list[x].shortName), 0x10, CaseByte(list[x].ntCase), layout.folders[x], 0))
      && DotsShown(read, r.value, if dirs[x].parent == 0 then 0 else layout.folders[dirs[x].parent])
  {
    FolderEntry(read, table, dirs, layout, x);
    DotsRead(read, table, dirs, layout, x);
    ParentBefore(root, nodes, list, x);
  }

  lemma FolderNames(root: T.FatDirectory, nodes: set<T.FatDirectory>, list: seq<T.FatDirectory>, sources: seq<T.Source>,
                    dirs: Tree, x: nat)
    requires Flattened(root, nodes, list, sources, dirs) && 0 < x < |list| && !L.Overfull(T.Demands([], sources))
    ensures list[x].path != [] && list[x].name == list[x].path[|list[x].path| - 1]
    ensures list[x].parent != null && list[x].parent.path == list[x].path[..|list[x].path| - 1]
    ensures N.Storable(list[x].shortName) && list[x].ntCase == N.NtCase(list[x].name)
    ensures L.StandsFor(list[x].shortName, list[x].name)
  {
    ListedNode(root, nodes, list, x);
    assert list[x] != root;
    var k := T.ParentLists(root, nodes, list[x]);
    var d := list[x].parent;
    assert d in nodes && T.FollowsAt(d, T.Demands([], sources));
    assert T.DirectoryListed(d.directories, L.Listed(T.Demands([], sources), d.path), k);
    assert L.Listed(T.Demands([], sources), d.path).slots <= L.MAX_DIRECTORY_ENTRIES;
    L.ListedStandFor(T.Demands([], sources), d.path);
  }

  lemma FileNames(root: T.FatDirectory, nodes: set<T.FatDirectory>, list: seq<T.FatDirectory>, sources: seq<T.Source>,
                  dirs: Tree, i: nat, j: nat)
    requires Flattened(root, nodes, list, sources, dirs) && i < |list| && j < |list[i].files|
    requires !L.Overfull(T.Demands([], sources))
    ensures var f := list[i].files[j];
      N.Storable(f.shortName) && f.ntCase == N.NtCase(f.name) && L.StandsFor(f.shortName, f.name)
  {
    SoundNode(root, nodes, list, i);
    ListedNode(root, nodes, list, i);
    var d := list[i];
    assert T.FileAt(d.files, j) && T.FollowsAt(d, T.Demands([], sources));
    assert T.FileListed(d.files, L.Listed(T.Demands([], sources), d.path), j);
    assert L.Listed(T.Demands([], sources), d.path).slots <= L.MAX_DIRECTORY_ENTRIES;
    L.ListedStandFor(T.Demands([], sources), d.path);
  }

  lemma StepIs(read: R.Reader, root: seq<Byte>, path: seq<R.Name>, p: L.Path, m: nat, size: int, e: R.DirEntry)
    requires m < |p| == |path| && R.EntryOn(read, root, path[..m + 1]) == Some(e) && e.first >= 0 && ShownAs(e, p[m])
    requires if m == |p| - 1 then e.attributes == 0x20 && e.size == size
             else e.attributes == 0x10 && e.size == 0 && AboveShown(read, root, path, m, e)
    ensures StepShown(read, root, path, p, m, size)
  {
  }

  lemma FileStep(root: T.FatDirectory, nodes: set<T.FatDirectory>, list: seq<T.FatDirectory>, sources: seq<T.Source>,
                 dirs: Tree, layout: Layout, read: R.Reader, table: seq<Byte>, k: nat, i: nat, j: nat, p: L.Path, m: nat)
    requires Flattened(root, nodes, list, sources, dirs) && Fits(layout, dirs) && Stored(read, table, dirs, layout)
    requires !L.Overfull(T.Demands([], sources)) && k < |sources| && IsSource(list, sources[k], i, j)
    requires p == T.Components(sources[k].path) && m + 1 == |p|
    ensures StepShown(read, table, DiskPath(sources, p), p, m, |sources[k].contents|)
  {
    FilePathIs(root, nodes, list, sources, dirs, k, i, j);
    FileEntry(read, table, dirs, layout, i, j);
    FileShort(root, nodes, list, dirs, i, j);
    FileNames(root, nodes, list, sources, dirs, i, j);
    var e := R.EntryOn(read, table, FilePath(dirs, i, j)).value;
    assert PathOf(sources, k)[..|p|] == PathOf(sources, k);
    StoredIsShown(e, p[m], list[i].files[j].shortName);
    StepIs(read, table, PathOf(sources, k), p, m, |sources[k].contents|, e);
  }

  lemma FolderOnTheWay(root: T.FatDirectory, nodes: set<T.FatDirectory>, list: seq<T.FatDirectory>,
                       sources: seq<T.Source>, dirs: Tree, p: L.Path, i: nat, n: nat)
    returns (x: nat)
    requires Flattened(root, nodes, list, sources, dirs) && i < |list| && n <= |list[i].path| <= |p|
    requires list[i].path == p[..|list[i].path|]
    ensures x < |list| && list[x].path == p[..n] && PathTo(dirs, x) == DiskPath(sources, p)[..n] && (x == 0 <==> n == 0)
  {
    x := Ancestor(root, nodes, list, i, n);
    assert p[..|list[i].path|][..n] == p[..n];
    FolderPathIs(root, nodes, list, sources, dirs, x);
    DiskPathPrefix(sources, p, n);
    ListedNode(root, nodes, list, x);
    var k := T.ParentLists(root, nodes, list[x]);
    assert x > 0 ==> list[x] != list[0];
  }

  /** The entry of the directory above, as the dot entries refer to it. */
  lemma AboveStep(root: T.FatDirectory, nodes: set<T.FatDirectory>, list: seq<T.FatDirectory>, sources: seq<T.Source>,
                  dirs: Tree, layout: Layout, read: R.Reader, table: seq<Byte>, p: L.Path, i: nat, x: nat, m: nat)
    requires Flattened(root, nodes, list, sources, dirs) && Fits(layout, dirs) && Stored(read, table, dirs, layout)
    requires 0 < x < |list| && m < |p| && list[x].path == p[..m + 1] && i < |list| && m < |list[i].path| <= |p|
    requires list[i].path == p[..|list[i].path|] && !L.Overfull(T.Demands([], sources))
    ensures AboveShown(read, table, DiskPath(sources, p), m,
                       R.DirEntry(NameBytes(list[x].shortName), 0x10, CaseByte(list[x].ntCase), layout.folders[x], 0))
  {
    FolderShown(root, nodes, list, sources, dirs, layout, read, table, x);
    FolderNames(root, nodes, list, sources, dirs, x);
    var y := FolderOnTheWay(root, nodes, list, sources, dirs, p, i, m);
    assert p[..m + 1][..m] == p[..m];
    SamePlace(root, nodes, list, dirs[x].parent, y, p, m);
    if m > 0 {
      FolderEntry(read, table, dirs, layout, y);
    }
  }

  lemma FolderStep(root: T.FatDirectory, nodes: set<T.FatDirectory>, list: seq<T.FatDirectory>, sources: seq<T.Source>,
                   dirs: Tree, layout: Layout, read: R.Reader, table: seq<Byte>, p: L.Path, i: nat, m: nat, size: int)
    requires Flattened(root, nodes, list, sources, dirs) && Fits(layout, dirs) && Stored(read, table, dirs, layout)
    requires !L.Overfull(T.Demands([], sources)) && i < |list| && m + 1 < |p| && list[i].path == p[..|p| - 1]
    ensures StepShown(read, table, DiskPath(sources, p), p, m, size)
  {
    var x := FolderOnTheWay(root, nodes, list, sources, dirs, p, i, m + 1);
    AboveStep(root, nodes, list, sources, dirs, layout, read, table, p, i, x, m);
    FolderShown(root, nodes, list, sources, dirs, layout, read, table, x);
    var e := R.DirEntry(NameBytes(list[x].shortName), 0x10, CaseByte(list[x].ntCase), layout.folders[x], 0);
    FolderNamed(root, nodes, list, sources, dirs, x, e, p, m);
    StepIs(read, table, DiskPath(sources, p), p, m, size, e);
  }

  lemma FolderNamed(root: T.FatDirectory, nodes: set<T.FatDirectory>, list: seq<T.FatDirectory>, sources: seq<T.Source>,
                    dirs: Tree, x: nat, e: R.DirEntry, p: L.Path, m: nat)
    requires Flattened(root, nodes, list, sources, dirs) && 0 < x < |list| && !L.Overfull(T.Demands([], sources))
    requires m < |p| && list[x].path == p[..m + 1]
    requires e.name == NameBytes(list[x].shortName) && e.ntCase == CaseByte(list[x].ntCase)
    ensures ShownAs(e, p[m])
  {
    FolderNames(root, nodes, list, sources, dirs, x);
    StoredIsShown(e, p[m], list[x].shortName);
  }

  lemma SamePlace(root: T.FatDirectory, nodes: set<T.FatDirectory>, list: seq<T.FatDirectory>, a: nat, b: nat,
                  p: L.Path, m: nat)
    requires Walked(root, nodes, list) && a < |list| && b < |list| && m < |p|
    requires list[a].path == p[..m] && list[b].path == p[..m]
    ensures a == b
  {
    ListedNode(root, nodes, list, a);
    ListedNode(root, nodes, list, b);
    T.PathsUnique(root, nodes, list[a], list[b]);
  }

  /** On the way to every source a reader of the image finds entries that show its components. */
  ghost predicate ShowsAll(image: seq<Byte>, sources: seq<T.Source>) {
    R.Sized(image) && forall k, m {:trigger Shown(image, sources, k, m)} ::
      0 <= k < |sources| && 0 <= m < |T.Components(sources[k].path)| ==> Shown(image, sources, k, m)
  }

  ghost predicate Shown(image: seq<Byte>, sources: seq<T.Source>, k: int, m: int)
    requires R.Sized(image) && 0 <= k < |sources| && 0 <= m < |T.Components(sources[k].path)|
  {
    StepShown(R.ReaderOf(image), R.RootOf(image), PathOf(sources, k), T.Components(sources[k].path), m,
              |sources[k].contents|)
  }

  lemma SourceShown(root: T.FatDirectory, nodes: set<T.FatDirectory>, list: seq<T.FatDirectory>, sources: seq<T.Source>,
                    dirs: Tree, layout: Layout, read: R.Reader, table: seq<Byte>, k: nat, p: L.Path, m: nat)
    requires Flattened(root, nodes, list, sources, dirs) && Fits(layout, dirs) && Stored(read, table, dirs, layout)
    requires !L.Overfull(T.Demands([], sources)) && k < |sources| && p == T.Components(sources[k].path) && m < |p|
    ensures StepShown(read, table, DiskPath(sources, p), p, m, |sources[k].contents|)
  {
    var i, j := SourceListed(root, nodes, list, sources, k);
    if m + 1 == |p| {
      FileStep(root, nodes, list, sources, dirs, layout, read, table, k, i, j, p, m);
    } else {
      assert list[i].path == p[..|p| - 1];
      FolderStep(root, nodes, list, sources, dirs, layout, read, table, p, i, m, |sources[k].contents|);
    }
  }

  /** Every image that stores the tree of the sources shows them. */
  lemma SourcesShown(root: T.FatDirectory, nodes: set<T.FatDirectory>, list: seq<T.FatDirectory>, sources: seq<T.Source>,
                     dirs: Tree, layout: Layout, image: seq<Byte>)
    requires Flattened(root, nodes, list, sources, dirs) && Fits(layout, dirs) && R.Sized(image)
    requires Stored(R.ReaderOf(image), R.RootOf(image), dirs, layout) && !L.Overfull(T.Demands([], sources))
    ensures ShowsAll(image, sources)
  {
    forall k, m | 0 <= k < |sources| && 0 <= m < |T.Components(sources[k].path)| ensures Shown(image, sources, k, m) {
      SourceShown(root, nodes, list, sources, dirs, layout, R.ReaderOf(image), R.RootOf(image), k,
                  T.Components(sources[k].path), m);
    }
  }
}
