/** From the tree of the given files to the list of directories the floppy builder lays out, and what a reader finds. */
module FloppySource {
  import opened Bytes
  import L = FatListing
  import N = FatNames
  import T = FatTree
  import W = FatWalk
  import R = FloppyReader
  import V = FloppyVolume
  import opened FloppyTree

  // ----- Directory objects as values

  function NameBytes(s: string): (b: seq<Byte>)
    ensures |b| == |s|
  {
    seq(|s|, i requires 0 <= i < |s| => ((s[i] as int) % 256) as Byte)
  }

  /** The bytes of a short name can stand in a directory entry. */
  lemma StorableName(s: string)
    requires N.Storable(s)
    ensures NameOk(NameBytes(s))
  {
  }

  lemma NamesInjective(s: string, t: string)
    requires N.Storable(s) && N.Storable(t) && NameBytes(s) == NameBytes(t)
    ensures s == t
  {
    forall i | 0 <= i < |s| ensures s[i] == t[i] {
      assert NameBytes(s)[i] == NameBytes(t)[i];
    }
  }

  function CaseByte(c: N.CaseFlags): Byte { (if c.stem then 0x08 else 0) + (if c.extension then 0x10 else 0) }

  /** The position of a directory in the list. */
  function IndexOf(list: seq<T.FatDirectory>, d: T.FatDirectory?, from: nat): (i: int)
    requires from <= |list|
    ensures from <= i <= |list| && (i < |list| ==> list[i] == d)
    ensures forall k :: from <= k < i ==> list[k] != d
    decreases |list| - from
  {
    if from == |list| || list[from] == d then from else IndexOf(list, d, from + 1)
  }

  lemma IndexIs(list: seq<T.FatDirectory>, i: nat)
    requires W.Once(list) && i < |list|
    ensures IndexOf(list, list[i], 0) == i
  {
  }

  function FileOf(f: T.FatFile): File { File(NameBytes(f.shortName), CaseByte(f.ntCase), f.contents) }

  function FilesOf(fs: seq<T.FatFile>): (r: seq<File>)
    ensures |r| == |fs| && forall j :: 0 <= j < |fs| ==> r[j] == FileOf(fs[j])
  {
    seq(|fs|, j requires 0 <= j < |fs| => FileOf(fs[j]))
  }

  function Positions(list: seq<T.FatDirectory>, ds: seq<T.FatDirectory>): (r: seq<int>)
    ensures |r| == |ds| && forall k :: 0 <= k < |ds| ==> r[k] == IndexOf(list, ds[k], 0)
  {
    seq(|ds|, k requires 0 <= k < |ds| => IndexOf(list, ds[k], 0))
  }

  function FolderOf(list: seq<T.FatDirectory>, d: T.FatDirectory): Folder
    reads d
  {
    Folder(NameBytes(d.shortName), CaseByte(d.ntCase), IndexOf(list, d.parent, 0), Positions(list, d.directories),
           FilesOf(d.files))
  }

  ghost predicate Mirrors(list: seq<T.FatDirectory>, dirs: Tree)
    reads list
  {
    |dirs| == |list| && forall i :: 0 <= i < |list| ==> dirs[i] == FolderOf(list, list[i])
  }

  method Flatten(list: seq<T.FatDirectory>) returns (dirs: Tree)
    ensures Mirrors(list, dirs)
  {
    dirs := [];
    while |dirs| < |list|
      invariant |dirs| <= |list| && forall i :: 0 <= i < |dirs| ==> dirs[i] == FolderOf(list, list[i])
    {
      dirs := dirs + [FolderOf(list, list[|dirs|])];
    }
  }

  /** A list that walks a whole tree. */
  ghost predicate Walked(root: T.FatDirectory, nodes: set<T.FatDirectory>, list: seq<T.FatDirectory>)
    reads nodes
  {
    && T.IsTree(root, nodes) && |list| > 0 && list[0] == root && W.Once(list) && W.Members(list) == nodes
    && W.ParentsFirst(list)
  }

  lemma ListedNode(root: T.FatDirectory, nodes: set<T.FatDirectory>, list: seq<T.FatDirectory>, i: nat)
    requires Walked(root, nodes, list) && i < |list|
    ensures list[i] in nodes && T.NodeGood(root, nodes, list[i])
  {
    assert list[i] in W.Members(list);
  }

  /** A child stands behind its directory in the list, and points back to it. */
  lemma ChildBehind(root: T.FatDirectory, nodes: set<T.FatDirectory>, list: seq<T.FatDirectory>, i: nat, k: nat)
    requires Walked(root, nodes, list) && i < |list| && k < |list[i].directories|
    ensures var c := list[i].directories[k]; var m := IndexOf(list, c, 0);
      i < m < |list| && list[m] == c && c.parent == list[i] && N.Storable(c.shortName)
  {
    ListedNode(root, nodes, list, i);
    T.ChildInTree(root, nodes, list[i], k);
    var c := list[i].directories[k];
    assert T.ChildAt(list[i], list[i].directories, k);
    var m := IndexOf(list, c, 0);
    assert c in W.Members(list) && m < |list|;
    assert m != 0 && W.ParentBefore(list, m);
    var j :| 0 <= j < m && list[j] == list[m].parent;
    assert j == i;
  }

  lemma ParentBefore(root: T.FatDirectory, nodes: set<T.FatDirectory>, list: seq<T.FatDirectory>, i: nat)
    requires Walked(root, nodes, list) && 0 < i < |list|
    ensures IndexOf(list, list[i].parent, 0) < i && list[IndexOf(list, list[i].parent, 0)] == list[i].parent
  {
    assert W.ParentBefore(list, i);
    var j :| 0 <= j < i && list[j] == list[i].parent;
  }

  lemma FilesFit(d: T.FatDirectory)
    requires T.Sound(d)
    ensures FilesOk(FilesOf(d.files)) && |d.directories| + |d.files| <= MAX_ENTRIES
    ensures forall j :: 0 <= j < |d.files| ==> N.Storable(d.files[j].shortName)
  {
    forall j | 0 <= j < |d.files|
      ensures N.Storable(d.files[j].shortName) && NameOk(NameBytes(d.files[j].shortName))
      ensures |d.files[j].contents| < WORD_LIMIT
    {
      assert T.FileAt(d.files, j);
      StorableName(d.files[j].shortName);
    }
  }

  /** Positions in the list take the place of references. */
  lemma LinksHold(root: T.FatDirectory, nodes: set<T.FatDirectory>, list: seq<T.FatDirectory>, dirs: Tree, i: nat)
    requires Walked(root, nodes, list) && Mirrors(list, dirs) && i < |list|
    ensures Links(dirs, i)
  {
    ListedNode(root, nodes, list, i);
    FilesFit(list[i]);
    if i > 0 {
      ParentBefore(root, nodes, list, i);
    }
    forall k | 0 <= k < |dirs[i].folders| ensures Placed(dirs, i, k) {
      ChildBehind(root, nodes, list, i, k);
      IndexIs(list, i);
      StorableName(list[i].directories[k].shortName);
    }
  }

  /** The short name behind an item's name. */
  function ShortOf(d: T.FatDirectory, k: int): string
    requires 0 <= k < |d.directories| + |d.files|
    reads d
  {
    if k < |d.directories| then d.directories[k].shortName else d.files[k - |d.directories|].shortName
  }

  lemma ShortNamesDiffer(d: T.FatDirectory, a: int, b: int)
    requires T.Sound(d) && 0 <= a < b < |d.directories| + |d.files|
    ensures ShortOf(d, a) != ShortOf(d, b)
  {
    var n := |d.directories|;
    assert T.DirectoryPair(d.directories, a, b) && T.FilePair(d.files, a - n, b - n);
    assert T.MixedPair(d.directories, d.files, a, b - n);
  }

  lemma SoundNode(root: T.FatDirectory, nodes: set<T.FatDirectory>, list: seq<T.FatDirectory>, i: nat)
    requires Walked(root, nodes, list) && i < |list|
    ensures T.Sound(list[i])
  {
    ListedNode(root, nodes, list, i);
  }

  lemma FolderShort(root: T.FatDirectory, nodes: set<T.FatDirectory>, list: seq<T.FatDirectory>, dirs: Tree, i: nat, k: nat)
    requires Walked(root, nodes, list) && Mirrors(list, dirs) && i < |list| && k < |dirs[i].folders|
    ensures k < |list[i].directories| && 0 <= dirs[i].folders[k] < |dirs| && N.Storable(list[i].directories[k].shortName)
    ensures dirs[dirs[i].folders[k]].name == NameBytes(list[i].directories[k].shortName)
  {
    ChildBehind(root, nodes, list, i, k);
  }

  lemma FileShort(root: T.FatDirectory, nodes: set<T.FatDirectory>, list: seq<T.FatDirectory>, dirs: Tree, i: nat, j: nat)
    requires Walked(root, nodes, list) && Mirrors(list, dirs) && i < |list| && j < |dirs[i].files|
    ensures j < |list[i].files| && dirs[i].files[j] == FileOf(list[i].files[j]) && N.Storable(list[i].files[j].shortName)
  {
    SoundNode(root, nodes, list, i);
    FilesFit(list[i]);
  }

  lemma ItemShort(root: T.FatDirectory, nodes: set<T.FatDirectory>, list: seq<T.FatDirectory>, dirs: Tree, i: nat, k: nat)
    requires Walked(root, nodes, list) && Mirrors(list, dirs) && i < |list| && Links(dirs, i) && k < ItemCount(dirs[i])
    ensures ItemName(dirs, i, k) == NameBytes(ShortOf(list[i], k)) && N.Storable(ShortOf(list[i], k))
  {
    if k < |dirs[i].folders| {
      FolderShort(root, nodes, list, dirs, i, k);
    } else {
      FileShort(root, nodes, list, dirs, i, k - |dirs[i].folders|);
    }
  }

  /** The flattened list is a tree: what the floppy builder asks for always holds. */
  lemma FlatIsTree(root: T.FatDirectory, nodes: set<T.FatDirectory>, list: seq<T.FatDirectory>, dirs: Tree)
    requires Walked(root, nodes, list) && Mirrors(list, dirs)
    ensures IsTree(dirs)
  {
    forall i | 0 <= i < |dirs| ensures FolderOk(dirs, i) {
      LinksHold(root, nodes, list, dirs, i);
      ListedNode(root, nodes, list, i);
      forall a, b | 0 <= a < b < ItemCount(dirs[i]) ensures ItemName(dirs, i, a) != ItemName(dirs, i, b) {
        ItemShort(root, nodes, list, dirs, i, a);
        ItemShort(root, nodes, list, dirs, i, b);
        ShortNamesDiffer(list[i], a, b);
        if NameBytes(ShortOf(list[i], a)) == NameBytes(ShortOf(list[i], b)) {
          NamesInjective(ShortOf(list[i], a), ShortOf(list[i], b));
        }
      }
    }
  }

  lemma FlatConnected(root: T.FatDirectory, nodes: set<T.FatDirectory>, list: seq<T.FatDirectory>, dirs: Tree)
    requires Walked(root, nodes, list) && Mirrors(list, dirs) && IsTree(dirs)
    ensures Connected(dirs)
  {
    forall i | 0 < i < |dirs| && FolderOk(dirs, i) ensures i in dirs[dirs[i].parent].folders {
      ListedNode(root, nodes, list, i);
      ParentBefore(root, nodes, list, i);
      var m := IndexOf(list, list[i].parent, 0);
      var k :| 0 <= k < |list[m].directories| && list[m].directories[k] == list[i];
      IndexIs(list, i);
      assert dirs[m].folders[k] == i;
    }
  }

  // ----- The whole way

  /** File k of the sources is file j of directory i in the list. */
  ghost predicate IsSource(list: seq<T.FatDirectory>, s: T.Source, i: int, j: int)
    reads list
  {
    && 0 <= i < |list| && 0 <= j < |list[i].files|
    && T.Components(s.path) == list[i].path + [list[i].files[j].name] && s.contents == list[i].files[j].contents
  }

  lemma SourceListed(root: T.FatDirectory, nodes: set<T.FatDirectory>, list: seq<T.FatDirectory>,
                     sources: seq<T.Source>, k: nat)
    returns (i: int, j: int)
    requires Walked(root, nodes, list) && k < |sources| && T.Contents(nodes) == T.FileEntries(sources, |sources|)
    ensures IsSource(list, sources[k], i, j)
  {
    T.EntryGiven(sources, |sources|, k);
    var e: T.Entry := (T.Components(sources[k].path), sources[k].contents);
    var n :| n in nodes && e in T.FilesIn(n);
    j :| 0 <= j < |n.files| && e == (n.path + [n.files[j].name], n.files[j].contents);
    assert n in W.Members(list);
    i :| 0 <= i < |list| && list[i] == n;
  }

  lemma ListedIsSource(root: T.FatDirectory, nodes: set<T.FatDirectory>, list: seq<T.FatDirectory>,
                       sources: seq<T.Source>, i: int, j: int)
    returns (k: int)
    requires Walked(root, nodes, list) && T.Contents(nodes) == T.FileEntries(sources, |sources|)
    requires 0 <= i < |list| && 0 <= j < |list[i].files|
    ensures 0 <= k < |sources| && IsSource(list, sources[k], i, j)
  {
    ListedNode(root, nodes, list, i);
    var e: T.Entry := (list[i].path + [list[i].files[j].name], list[i].files[j].contents);
    assert e in T.FilesIn(list[i]) && e in T.Contents(nodes);
    k := T.EntryFrom(sources, |sources|, e);
  }

  /** One path, one place in the tree. */
  lemma PlaceUnique(root: T.FatDirectory, nodes: set<T.FatDirectory>, list: seq<T.FatDirectory>, s: T.Source,
                    i: int, j: int, i': int, j': int)
    requires Walked(root, nodes, list) && IsSource(list, s, i, j) && IsSource(list, s, i', j')
    ensures i == i' && j == j'
  {
    var p := T.Components(s.path);
    assert p[..|p| - 1] == list[i].path == list[i'].path;
    ListedNode(root, nodes, list, i);
    ListedNode(root, nodes, list, i');
    T.PathsUnique(root, nodes, list[i], list[i']);
    assert p[|p| - 1] == list[i].files[j].name == list[i'].files[j'].name;
    assert T.FilePair(list[i].files, j, j') && T.FilePair(list[i].files, j', j);
  }

  /** A reader of the image finds the source under this path. */
  predicate Reads(image: seq<Byte>, path: seq<R.Name>, contents: seq<Byte>) {
    R.Sized(image) && PathOk(path) && R.Resolve(R.ReaderOf(image), R.RootOf(image), path) == Some(contents)
  }

  // ----- Under which names

  /** A path as the builder stores it: each component under the short name its directory gives it. */
  ghost function DiskPath(sources: seq<T.Source>, p: L.Path): (path: seq<R.Name>)
    ensures |path| == |p|
  {
    var short := L.ShortPath(T.Demands([], sources), p);
    seq(|p|, m requires 0 <= m < |p| => NameBytes(short[m]))
  }

  /** The path of source k in the image. */
  ghost function PathOf(sources: seq<T.Source>, k: int): seq<R.Name>
    requires 0 <= k < |sources|
  {
    DiskPath(sources, T.Components(sources[k].path))
  }

  lemma OneMoreComponent(sources: seq<T.Source>, p: L.Path, c: string)
    ensures DiskPath(sources, p + [c])
         == DiskPath(sources, p) + [NameBytes(L.ShortIn(L.Listed(T.Demands([], sources), p), c))]
  {
    forall m | 0 <= m < |p| ensures (p + [c])[..m] == p[..m] {
    }
    assert (p + [c])[..|p|] == p;
  }

  /** Each component of a given path was listed by its directory. */
  lemma ComponentListed(sources: seq<T.Source>, k: nat, m: nat)
    requires k < |sources| && m < |T.Components(sources[k].path)|
    ensures var p := T.Components(sources[k].path); p[m] in L.Listed(T.Demands([], sources), p[..m]).shorts
  {
    var p, demands := T.Components(sources[k].path), T.Demands([], sources);
    T.StepDemanded([], sources, |sources|, k, m);
    var q := p[..m + 1];
    assert L.ChildOf(q, p[..m]) && L.Leaf(q) == p[m];
    L.ListedNames(demands, p[..m]);
  }

  /** Each component is stored under its own 8.3 name or under one of its aliases. */
  lemma NamesStandFor(sources: seq<T.Source>, k: nat, m: nat) returns (short: string)
    requires k < |sources| && m < |T.Components(sources[k].path)| && !L.Overfull(T.Demands([], sources))
    ensures PathOf(sources, k)[m] == NameBytes(short) && L.StandsFor(short, T.Components(sources[k].path)[m])
  {
    var p, demands := T.Components(sources[k].path), T.Demands([], sources);
    ComponentListed(sources, k, m);
    assert L.Listed(demands, p[..m]).slots <= L.MAX_DIRECTORY_ENTRIES;
    L.ListedStandFor(demands, p[..m]);
    short := L.Listed(demands, p[..m]).shorts[p[m]];
  }

  /** When all components are 8.3 names, every path in the image is exactly the 8.3 form of the path given. */
  lemma ShortPathsKept(sources: seq<T.Source>, k: nat, m: nat)
    requires T.ShortInput([], sources) && k < |sources| && m < |T.Components(sources[k].path)|
    ensures var c := T.Components(sources[k].path)[m];
      N.IsShort(c) && PathOf(sources, k)[m] == NameBytes(N.ShortName(c))
  {
    var p, demands := T.Components(sources[k].path), T.Demands([], sources);
    T.InputNamesShort([], sources, p[..m]);
    ComponentListed(sources, k, m);
    L.ShortNamesKept(demands, p[..m]);
  }

  /** The image holds each source under its path, the paths differ, and there is no other file. */
  ghost predicate HoldsExactly(image: seq<Byte>, sources: seq<T.Source>) {
    && (forall k :: 0 <= k < |sources| ==> Reads(image, PathOf(sources, k), sources[k].contents))
    && (forall k, l :: 0 <= k < l < |sources| ==> PathOf(sources, k) != PathOf(sources, l))
    && (forall path, c :: Reads(image, path, c) ==> exists k :: 0 <= k < |sources| && path == PathOf(sources, k))
  }

  /** The places of all sources in the list. */
  ghost predicate Places(list: seq<T.FatDirectory>, sources: seq<T.Source>, at: seq<(int, int)>)
    reads list
  {
    |at| <= |sources| && forall k :: 0 <= k < |at| ==> IsSource(list, sources[k], at[k].0, at[k].1)
  }

  lemma FindPlaces(root: T.FatDirectory, nodes: set<T.FatDirectory>, list: seq<T.FatDirectory>, sources: seq<T.Source>)
    returns (at: seq<(int, int)>)
    requires Walked(root, nodes, list) && T.Contents(nodes) == T.FileEntries(sources, |sources|)
    ensures |at| == |sources| && Places(list, sources, at)
  {
    at := [];
    while |at| < |sources|
      invariant Places(list, sources, at)
    {
      var i, j := SourceListed(root, nodes, list, sources, |at|);
      at := at + [(i, j)];
    }
  }

  /** A tree of exactly the sources, as a value. */
  ghost predicate Flattened(root: T.FatDirectory, nodes: set<T.FatDirectory>, list: seq<T.FatDirectory>,
                            sources: seq<T.Source>, dirs: Tree)
    reads nodes, list
  {
    && Walked(root, nodes, list) && T.Contents(nodes) == T.FileEntries(sources, |sources|) && T.Keyed(sources)
    && Mirrors(list, dirs) && IsTree(dirs) && Connected(dirs)
    && T.Follows(nodes, T.Demands([], sources))
  }

  /** The names on the way to directory i are the short names of its path. */
  lemma {:induction false} FolderPathIs(root: T.FatDirectory, nodes: set<T.FatDirectory>, list: seq<T.FatDirectory>,
                                        sources: seq<T.Source>, dirs: Tree, i: nat)
    requires Flattened(root, nodes, list, sources, dirs) && i < |list|
    ensures PathTo(dirs, i) == DiskPath(sources, list[i].path)
  {
    assert FolderOk(dirs, i);
    ListedNode(root, nodes, list, i);
    if i > 0 {
      ParentBefore(root, nodes, list, i);
      var m := IndexOf(list, list[i].parent, 0);
      FolderPathIs(root, nodes, list, sources, dirs, m);
      ListedNode(root, nodes, list, m);
      var k := T.ParentLists(root, nodes, list[i]);
      assert T.FollowsAt(list[m], T.Demands([], sources));
      assert T.DirectoryListed(list[m].directories, L.Listed(T.Demands([], sources), list[m].path), k);
      OneMoreComponent(sources, list[m].path, list[i].name);
    }
  }

  /** The path to a source in the image is the path of that source. */
  lemma FilePathIs(root: T.FatDirectory, nodes: set<T.FatDirectory>, list: seq<T.FatDirectory>, sources: seq<T.Source>,
                   dirs: Tree, k: nat, i: int, j: int)
    requires Flattened(root, nodes, list, sources, dirs) && k < |sources| && IsSource(list, sources[k], i, j)
    ensures 0 <= i < |dirs| && 0 <= j < |dirs[i].files| && FilePath(dirs, i, j) == PathOf(sources, k)
  {
    FolderPathIs(root, nodes, list, sources, dirs, i);
    ListedNode(root, nodes, list, i);
    FileShort(root, nodes, list, dirs, i, j);
    assert T.FollowsAt(list[i], T.Demands([], sources));
    assert T.FileListed(list[i].files, L.Listed(T.Demands([], sources), list[i].path), j);
    OneMoreComponent(sources, list[i].path, list[i].files[j].name);
  }

  lemma PlaceReads(root: T.FatDirectory, nodes: set<T.FatDirectory>, list: seq<T.FatDirectory>, sources: seq<T.Source>,
                   dirs: Tree, k: nat, i: int, j: int)
    requires Flattened(root, nodes, list, sources, dirs) && k < |sources| && IsSource(list, sources[k], i, j)
    ensures 0 <= i < |dirs| && 0 <= j < |dirs[i].files| && PathOk(FilePath(dirs, i, j))
    ensures Lookup(dirs, 0, FilePath(dirs, i, j)) == Some(sources[k].contents)
  {
    assert |dirs[i].files| == |list[i].files|;
    FileShort(root, nodes, list, dirs, i, j);
    StorableName(list[i].files[j].shortName);
    PathToOk(dirs, i);
    LookupFile(dirs, i, j);
  }

  lemma PlacesDiffer(root: T.FatDirectory, nodes: set<T.FatDirectory>, list: seq<T.FatDirectory>, sources: seq<T.Source>,
                     dirs: Tree, at: seq<(int, int)>, k: nat, l: nat)
    requires Flattened(root, nodes, list, sources, dirs) && Places(list, sources, at) && k < l < |at|
    requires 0 <= at[k].0 < |dirs| && 0 <= at[k].1 < |dirs[at[k].0].files|
    requires 0 <= at[l].0 < |dirs| && 0 <= at[l].1 < |dirs[at[l].0].files|
    ensures FilePath(dirs, at[k].0, at[k].1) != FilePath(dirs, at[l].0, at[l].1)
  {
    if FilePath(dirs, at[k].0, at[k].1) == FilePath(dirs, at[l].0, at[l].1) {
      FilePathsDiffer(dirs, at[k].0, at[k].1, at[l].0, at[l].1);
      assert IsSource(list, sources[k], at[k].0, at[k].1) && IsSource(list, sources[l], at[l].0, at[l].1);
      T.ComponentsInjective(sources[k].path, sources[l].path);
    }
  }

  /** Whatever the tree has under a path is one of the sources, at its place. */
  lemma OnlySources(root: T.FatDirectory, nodes: set<T.FatDirectory>, list: seq<T.FatDirectory>, sources: seq<T.Source>,
                    dirs: Tree, at: seq<(int, int)>, path: seq<R.Name>)
    returns (k: int)
    requires Flattened(root, nodes, list, sources, dirs) && Places(list, sources, at) && |at| == |sources|
    requires |path| > 0 && Lookup(dirs, 0, path).Some?
    ensures 0 <= k < |at| && 0 <= at[k].0 < |dirs| && 0 <= at[k].1 < |dirs[at[k].0].files|
    ensures path == FilePath(dirs, at[k].0, at[k].1)
  {
    var i, j := LookupIsFile(dirs, 0, path);
    assert PathTo(dirs, 0) + path == path;
    assert |dirs[i].files| == |list[i].files|;
    k := ListedIsSource(root, nodes, list, sources, i, j);
    assert IsSource(list, sources[k], at[k].0, at[k].1);
    PlaceUnique(root, nodes, list, sources[k], i, j, at[k].0, at[k].1);
  }

  /** What the tree holds under paths, the image holds. */
  lemma SourcesRead(root: T.FatDirectory, nodes: set<T.FatDirectory>, list: seq<T.FatDirectory>, sources: seq<T.Source>,
                    dirs: Tree, image: seq<Byte>)
    requires Flattened(root, nodes, list, sources, dirs) && R.Sized(image)
    requires forall path :: PathOk(path) ==> R.Resolve(R.ReaderOf(image), R.RootOf(image), path) == Lookup(dirs, 0, path)
    ensures HoldsExactly(image, sources)
  {
    var at := FindPlaces(root, nodes, list, sources);
    forall k | 0 <= k < |sources|
      ensures 0 <= at[k].0 < |dirs| && 0 <= at[k].1 < |dirs[at[k].0].files|
      ensures FilePath(dirs, at[k].0, at[k].1) == PathOf(sources, k)
      ensures Reads(image, PathOf(sources, k), sources[k].contents)
    {
      PlaceReads(root, nodes, list, sources, dirs, k, at[k].0, at[k].1);
      FilePathIs(root, nodes, list, sources, dirs, k, at[k].0, at[k].1);
    }
    forall k, l | 0 <= k < l < |sources| ensures PathOf(sources, k) != PathOf(sources, l) {
      PlacesDiffer(root, nodes, list, sources, dirs, at, k, l);
    }
    forall path, c | Reads(image, path, c) ensures exists k :: 0 <= k < |sources| && path == PathOf(sources, k) {
      var k := OnlySources(root, nodes, list, sources, dirs, at, path);
      assert path == PathOf(sources, k);
    }
  }
}
