/** How many clusters the given files take, counted before anything is built. */
module FloppyRoom {
  import opened Bytes
  import L = FatListing
  import T = FatTree
  import W = FatWalk
  import R = FloppyReader
  import V = FloppyVolume
  import opened FloppyTree
  import opened FloppySource

  // ----- Sums over sets

  ghost function Sum<X(!new)>(s: set<X>, f: X -> nat): nat {
    if s == {} then 0 else
      var x :| x in s;
      f(x) + Sum(s - {x}, f)
  }

  /** The sum does not depend on the order in which the elements are taken. */
  lemma {:induction false} SumTakes<X(!new)>(s: set<X>, f: X -> nat, y: X)
    requires y in s
    ensures Sum(s, f) == f(y) + Sum(s - {y}, f)
    decreases s
  {
    var x :| x in s && Sum(s, f) == f(x) + Sum(s - {x}, f);
    if x != y {
      SumTakes(s - {x}, f, y);
      SumTakes(s - {y}, f, x);
      assert s - {x} - {y} == s - {y} - {x};
    }
  }

  lemma SumAdds<X(!new)>(s: set<X>, f: X -> nat, y: X)
    requires y !in s
    ensures Sum(s + {y}, f) == Sum(s, f) + f(y)
  {
    SumTakes(s + {y}, f, y);
    assert s + {y} - {y} == s;
  }

  // ----- Entries of a directory

  lemma {:induction false} NoRepeats(s: seq<string>)
    requires forall i, j :: 0 <= i < j < |s| ==> s[i] != s[j]
    ensures |set x | x in s| == |s|
  {
    if s != [] {
      var rest, last := s[..|s| - 1], s[|s| - 1];
      NoRepeats(rest);
      assert (set x | x in s) == (set x | x in rest) + {last};
    } else {
      assert (set x | x in s) == {};
    }
  }

  function EntryName(ds: seq<T.FatDirectory>, fs: seq<T.FatFile>, k: int): string
    requires 0 <= k < |ds| + |fs|
  {
    if k < |ds| then ds[k].name else fs[k - |ds|].name
  }

  function EntryNames(ds: seq<T.FatDirectory>, fs: seq<T.FatFile>): (names: seq<string>)
    ensures |names| == |ds| + |fs| && forall k :: 0 <= k < |names| ==> names[k] == EntryName(ds, fs, k)
  {
    seq(|ds| + |fs|, k requires 0 <= k < |ds| + |fs| => EntryName(ds, fs, k))
  }

  lemma EntryNamesDiffer(ds: seq<T.FatDirectory>, fs: seq<T.FatFile>, a: int, b: int)
    requires T.NamesDiffer(ds, fs) && 0 <= a < b < |ds| + |fs|
    ensures EntryName(ds, fs, a) != EntryName(ds, fs, b)
  {
    assert T.DirectoryPair(ds, a, b) && T.FilePair(fs, a - |ds|, b - |ds|) && T.MixedPair(ds, fs, a, b - |ds|);
  }

  /** A directory has as many entries as names were asked for in it. */
  lemma EntriesCounted(d: T.FatDirectory, demands: seq<L.Path>)
    requires T.Sound(d) && T.FollowsAt(d, demands)
    ensures |d.directories| + |d.files| == |L.Names(demands, d.path)|
  {
    var names := EntryNames(d.directories, d.files);
    forall a, b | 0 <= a < b < |names| ensures names[a] != names[b] {
      EntryNamesDiffer(d.directories, d.files, a, b);
    }
    NoRepeats(names);
    L.ListedNames(demands, d.path);
    forall c ensures c in L.Listed(demands, d.path).shorts <==> c in names {
      NameListed(d, demands, c, names);
    }
    assert (set x | x in names) == L.Names(demands, d.path);
  }

  lemma NameListed(d: T.FatDirectory, demands: seq<L.Path>, c: string, names: seq<string>)
    requires T.FollowsAt(d, demands) && names == EntryNames(d.directories, d.files)
    ensures c in L.Listed(demands, d.path).shorts <==> c in names
  {
    T.ListsItsNames(d, demands, c);
    if T.HasDirectory(d, c) {
      var i :| 0 <= i < |d.directories| && d.directories[i].name == c;
      assert names[i] == c;
    }
    if T.HasFile(d, c) {
      var i :| 0 <= i < |d.files| && d.files[i].name == c;
      assert names[|d.directories| + i] == c;
    }
    if c in names {
      var k :| 0 <= k < |names| && names[k] == c;
      if k >= |d.directories| {
        assert d.files[k - |d.directories|].name == c;
      }
    }
  }

  // ----- What the input takes

  /** Clusters of a directory: two dot entries, one entry for every name asked for, and the end mark. */
  ghost function FolderNeed(demands: seq<L.Path>): L.Path -> nat {
    p => V.Needed(R.ENTRY_SIZE * (2 + |L.Names(demands, p)| + 1))
  }

  ghost function FileNeed(): T.Entry -> nat { (e: T.Entry) => V.Needed(|e.1|) }

  function FileClusters(sources: seq<T.Source>, n: nat): nat
    requires n <= |sources|
  {
    if n == 0 then 0 else FileClusters(sources, n - 1) + V.Needed(|sources[n - 1].contents|)
  }

  /** Clusters for all directories but the root, and for all files. */
  ghost function ClustersFor(sources: seq<T.Source>): nat {
    Sum(T.Wanted([], sources) - {[]}, FolderNeed(T.Demands([], sources))) + FileClusters(sources, |sources|)
  }

  /** The clusters are there, in the FAT and on the medium. */
  ghost predicate RoomFor(sources: seq<T.Source>, reserved: nat) {
    2 + ClustersFor(sources) <= V.CLUSTER_LIMIT && V.DataAt(reserved, 2 + ClustersFor(sources)) <= V.FLOPPY_SIZE
  }

  /** The FAT describes 3070 clusters, and the medium has 2880 sectors, 32 of which hold both FATs and the root. */
  lemma RoomExactly(sources: seq<T.Source>, reserved: nat)
    ensures RoomFor(sources, reserved) <==> ClustersFor(sources) <= 3070 && reserved + 32 + ClustersFor(sources) <= 2880
  {
  }

  lemma {:induction false} FilesSummed(sources: seq<T.Source>, n: nat)
    requires T.Keyed(sources) && n <= |sources|
    ensures Sum(T.FileEntries(sources, n), FileNeed()) == FileClusters(sources, n)
  {
    if n > 0 {
      FilesSummed(sources, n - 1);
      T.NeverDuplicate(sources, n - 1, sources[n - 1].contents);
      SumAdds(T.FileEntries(sources, n - 1), FileNeed(), (T.Components(sources[n - 1].path), sources[n - 1].contents));
    }
  }

  // ----- What the layout takes

  /** Directory i of the layout has the files and as many folders as the i-th directory of the tree. */
  ghost predicate SameEntries(list: seq<T.FatDirectory>, dirs: Tree, i: int)
    requires 0 <= i < |dirs| == |list|
    reads list
  {
    && |dirs[i].files| == |list[i].files| && |dirs[i].folders| == |list[i].directories|
    && forall j :: 0 <= j < |list[i].files| ==> dirs[i].files[j].contents == list[i].files[j].contents
  }

  ghost predicate Matches(list: seq<T.FatDirectory>, dirs: Tree)
    reads list
  {
    |dirs| == |list| && forall i {:trigger SameEntries(list, dirs, i)} :: 0 <= i < |list| ==> SameEntries(list, dirs, i)
  }

  lemma MirrorsMatch(list: seq<T.FatDirectory>, dirs: Tree)
    requires Mirrors(list, dirs)
    ensures Matches(list, dirs)
  {
    forall i | 0 <= i < |list| ensures SameEntries(list, dirs, i) {
      assert dirs[i] == FolderOf(list, list[i]);
    }
  }

  /** The paths of the directories below the root up to the n-th. */
  ghost function PathsTo(list: seq<T.FatDirectory>, n: nat): set<L.Path>
    requires n < |list|
  {
    set i | 1 <= i <= n :: list[i].path
  }

  lemma OnePathEach(root: T.FatDirectory, nodes: set<T.FatDirectory>, list: seq<T.FatDirectory>, i: nat, j: nat)
    requires Walked(root, nodes, list) && i < |list| && j < |list| && list[i].path == list[j].path
    ensures i == j
  {
    ListedNode(root, nodes, list, i);
    ListedNode(root, nodes, list, j);
    T.PathsUnique(root, nodes, list[i], list[j]);
  }

  /** The next directory takes the clusters its names need. */
  lemma FolderStep(root: T.FatDirectory, nodes: set<T.FatDirectory>, list: seq<T.FatDirectory>,
                   demands: seq<L.Path>, dirs: Tree, n: nat)
    requires Walked(root, nodes, list) && T.Follows(nodes, demands) && Matches(list, dirs) && 1 <= n < |list|
    ensures n - 1 < V.ObjectCount(dirs)
    ensures V.Start(dirs, n) == V.Start(dirs, n - 1) + FolderNeed(demands)(list[n].path)
  {
    assert SameEntries(list, dirs, n);
    assert |list[n].directories| + |list[n].files| == |L.Names(demands, list[n].path)| by {
      ListedNode(root, nodes, list, n);
      assert T.FollowsAt(list[n], demands);
      EntriesCounted(list[n], demands);
    }
    FolderAt(dirs, n, |L.Names(demands, list[n].path)|);
  }

  lemma FolderAt(dirs: Tree, n: nat, entries: nat)
    requires 1 <= n < |dirs| && entries == ItemCount(dirs[n])
    ensures n - 1 < V.ObjectCount(dirs)
    ensures V.Start(dirs, n) == V.Start(dirs, n - 1) + V.Needed(R.ENTRY_SIZE * (2 + entries + 1))
  {
  }

  lemma NextPathNew(root: T.FatDirectory, nodes: set<T.FatDirectory>, list: seq<T.FatDirectory>, n: nat)
    requires Walked(root, nodes, list) && 1 <= n < |list|
    ensures list[n].path !in PathsTo(list, n - 1) && PathsTo(list, n) == PathsTo(list, n - 1) + {list[n].path}
  {
    forall i | 1 <= i < n ensures list[i].path != list[n].path {
      if list[i].path == list[n].path {
        OnePathEach(root, nodes, list, i, n);
      }
    }
  }

  /** The directories below the root up to the n-th take what the names asked for in them need. */
  ghost predicate FoldersTo(list: seq<T.FatDirectory>, demands: seq<L.Path>, dirs: Tree, n: nat)
    requires n < |list| == |dirs|
  {
    n <= V.ObjectCount(dirs) && V.Start(dirs, n) == 2 + Sum(PathsTo(list, n), FolderNeed(demands))
  }

  lemma NextFolderCounted(list: seq<T.FatDirectory>, demands: seq<L.Path>, dirs: Tree, n: nat)
    requires |dirs| == |list| && 1 <= n < |list| && FoldersTo(list, demands, dirs, n - 1) && n <= V.ObjectCount(dirs)
    requires V.Start(dirs, n) == V.Start(dirs, n - 1) + FolderNeed(demands)(list[n].path)
    requires list[n].path !in PathsTo(list, n - 1) && PathsTo(list, n) == PathsTo(list, n - 1) + {list[n].path}
    ensures FoldersTo(list, demands, dirs, n)
  {
    SumAdds(PathsTo(list, n - 1), FolderNeed(demands), list[n].path);
  }

  lemma FolderAdded(root: T.FatDirectory, nodes: set<T.FatDirectory>, list: seq<T.FatDirectory>,
                    demands: seq<L.Path>, dirs: Tree, n: nat)
    requires Walked(root, nodes, list) && T.Follows(nodes, demands) && Matches(list, dirs) && 1 <= n < |list|
    requires FoldersTo(list, demands, dirs, n - 1)
    ensures FoldersTo(list, demands, dirs, n)
  {
    FolderStep(root, nodes, list, demands, dirs, n);
    NextPathNew(root, nodes, list, n);
    NextFolderCounted(list, demands, dirs, n);
  }

  lemma NoFolderYet(list: seq<T.FatDirectory>, demands: seq<L.Path>, dirs: Tree)
    requires |list| == |dirs| >= 1
    ensures FoldersTo(list, demands, dirs, 0)
  {
    assert PathsTo(list, 0) == {};
  }

  lemma {:induction false} FoldersCounted(root: T.FatDirectory, nodes: set<T.FatDirectory>, list: seq<T.FatDirectory>,
                                          demands: seq<L.Path>, dirs: Tree, n: nat)
    requires Walked(root, nodes, list) && T.Follows(nodes, demands) && Matches(list, dirs) && n < |list|
    ensures FoldersTo(list, demands, dirs, n)
  {
    if n == 0 {
      NoFolderYet(list, demands, dirs);
    } else {
      FoldersCounted(root, nodes, list, demands, dirs, n - 1);
      FolderAdded(root, nodes, list, demands, dirs, n);
    }
  }

  /** The files of the first i directories. */
  ghost function RowEntries(list: seq<T.FatDirectory>, i: nat): set<T.Entry>
    requires i <= |list|
    reads list
  {
    if i == 0 then {} else RowEntries(list, i - 1) + T.FilesIn(list[i - 1])
  }

  lemma {:induction false} RowEntryFrom(list: seq<T.FatDirectory>, i: nat, e: T.Entry) returns (n: nat)
    requires i <= |list| && e in RowEntries(list, i)
    ensures n < i && e in T.FilesIn(list[n])
  {
    if e in T.FilesIn(list[i - 1]) {
      n := i - 1;
    } else {
      n := RowEntryFrom(list, i - 1, e);
    }
  }

  lemma {:induction false} RowEntryThere(list: seq<T.FatDirectory>, i: nat, n: nat, e: T.Entry)
    requires n < i <= |list| && e in T.FilesIn(list[n])
    ensures e in RowEntries(list, i)
  {
    if n < i - 1 {
      RowEntryThere(list, i - 1, n, e);
    }
  }

  ghost function EntryOf(d: T.FatDirectory, j: int): T.Entry
    requires 0 <= j < |d.files|
    reads d
  {
    (d.path + [d.files[j].name], d.files[j].contents)
  }

  /** The files of the first i directories and the first j of the next one. */
  ghost function EntriesTo(list: seq<T.FatDirectory>, i: nat, j: nat): set<T.Entry>
    requires i < |list| && j <= |list[i].files|
    reads list
  {
    RowEntries(list, i) + T.FilesAt(list[i].path, list[i].files[..j])
  }

  lemma NotInRows(list: seq<T.FatDirectory>, i: nat, e: T.Entry)
    requires i <= |list| && |e.0| > 0 && forall n :: 0 <= n < i ==> list[n].path != e.0[..|e.0| - 1]
    ensures e !in RowEntries(list, i)
  {
    forall x | x in RowEntries(list, i) ensures x.0 != e.0 {
      var n := RowEntryFrom(list, i, x);
      assert x.0[..|x.0| - 1] == list[n].path;
    }
  }

  /** No directory before it has the path of directory i. */
  lemma EarlierPathsDiffer(root: T.FatDirectory, nodes: set<T.FatDirectory>, list: seq<T.FatDirectory>, i: nat)
    requires Walked(root, nodes, list) && i < |list|
    ensures forall n :: 0 <= n < i ==> list[n].path != list[i].path
  {
    forall n | 0 <= n < i ensures list[n].path != list[i].path {
      if list[n].path == list[i].path {
        OnePathEach(root, nodes, list, i, n);
      }
    }
  }

  lemma EarlierFilesDiffer(d: T.FatDirectory, j: nat, e: T.Entry)
    requires T.NamesDiffer(d.directories, d.files) && j < |d.files| && e == EntryOf(d, j)
    ensures e !in T.FilesAt(d.path, d.files[..j])
  {
    forall m | 0 <= m < j ensures d.path + [d.files[m].name] != e.0 {
      assert T.FilePair(d.files, m, j);
      assert (d.path + [d.files[m].name])[|d.path|] == d.files[m].name && e.0[|d.path|] == d.files[j].name;
    }
  }

  /** The next file is not among those before it, and joins them. */
  lemma NextEntryNew(root: T.FatDirectory, nodes: set<T.FatDirectory>, list: seq<T.FatDirectory>, i: nat, j: nat)
    requires Walked(root, nodes, list) && i < |list| && j < |list[i].files|
    ensures EntryOf(list[i], j) !in EntriesTo(list, i, j)
    ensures EntriesTo(list, i, j + 1) == EntriesTo(list, i, j) + {EntryOf(list[i], j)}
  {
    var d, e := list[i], EntryOf(list[i], j);
    ListedNode(root, nodes, list, i);
    EarlierPathsDiffer(root, nodes, list, i);
    assert e.0[..|e.0| - 1] == d.path;
    NotInRows(list, i, e);
    EarlierFilesDiffer(d, j, e);
    assert d.files[..j + 1] == d.files[..j] + [d.files[j]];
    T.OneMoreFile(d.path, d.files[..j], d.files[j]);
  }

  /** The next file takes the clusters its bytes need. */
  lemma FileStep(list: seq<T.FatDirectory>, dirs: Tree, i: nat, j: nat)
    requires Matches(list, dirs) && i < |list| && j < |list[i].files|
    ensures var k := V.RowStart(dirs, i) + j;
      k < V.ObjectCount(dirs) && V.Start(dirs, k + 1) == V.Start(dirs, k) + FileNeed()(EntryOf(list[i], j))
  {
    assert SameEntries(list, dirs, i);
    V.NextFile(dirs, i, j);
  }

  lemma RowComplete(list: seq<T.FatDirectory>, i: nat)
    requires i < |list|
    ensures EntriesTo(list, i, |list[i].files|) == RowEntries(list, i + 1)
  {
    assert list[i].files[..|list[i].files|] == list[i].files;
  }

  /** The next object starts behind the directories, the files of the first i directories, and j files of the next. */
  ghost predicate CountedTo(list: seq<T.FatDirectory>, dirs: Tree, i: nat, j: nat)
    requires Matches(list, dirs) && i < |list| && j <= |list[i].files|
    reads list
  {
    var k := V.RowStart(dirs, i) + j;
    k <= V.ObjectCount(dirs) && V.Start(dirs, k) == V.Start(dirs, |dirs| - 1) + Sum(EntriesTo(list, i, j), FileNeed())
  }

  lemma NextFileCounted(root: T.FatDirectory, nodes: set<T.FatDirectory>, list: seq<T.FatDirectory>,
                        dirs: Tree, i: nat, j: nat)
    requires Walked(root, nodes, list) && Matches(list, dirs) && i < |list| && j < |list[i].files|
    requires CountedTo(list, dirs, i, j)
    ensures CountedTo(list, dirs, i, j + 1)
  {
    NextEntryNew(root, nodes, list, i, j);
    FileStep(list, dirs, i, j);
    SumAdds(EntriesTo(list, i, j), FileNeed(), EntryOf(list[i], j));
  }

  lemma NextRowCounted(list: seq<T.FatDirectory>, dirs: Tree, i: nat)
    requires Matches(list, dirs) && i + 1 < |list| && CountedTo(list, dirs, i, |list[i].files|)
    ensures CountedTo(list, dirs, i + 1, 0)
  {
    RowComplete(list, i);
    V.RowEnds(dirs, i);
    assert SameEntries(list, dirs, i);
    assert EntriesTo(list, i + 1, 0) == RowEntries(list, i + 1);
  }

  lemma FirstRowCounted(list: seq<T.FatDirectory>, dirs: Tree)
    requires Matches(list, dirs) && |list| > 0
    ensures CountedTo(list, dirs, 0, 0)
  {
    assert EntriesTo(list, 0, 0) == {};
    V.RowsGrow(dirs, 0, |dirs|);
  }

  lemma {:induction false} FilesCounted(root: T.FatDirectory, nodes: set<T.FatDirectory>, list: seq<T.FatDirectory>,
                                        dirs: Tree, i: nat, j: nat)
    requires Walked(root, nodes, list) && Matches(list, dirs) && i < |list| && j <= |list[i].files|
    ensures CountedTo(list, dirs, i, j)
    decreases i, j
  {
    if j > 0 {
      FilesCounted(root, nodes, list, dirs, i, j - 1);
      NextFileCounted(root, nodes, list, dirs, i, j - 1);
    } else if i > 0 {
      FilesCounted(root, nodes, list, dirs, i - 1, |list[i - 1].files|);
      NextRowCounted(list, dirs, i - 1);
    } else {
      FirstRowCounted(list, dirs);
    }
  }

  /** All rows together are all files of the tree. */
  lemma RowsAreContents(root: T.FatDirectory, nodes: set<T.FatDirectory>, list: seq<T.FatDirectory>)
    requires Walked(root, nodes, list)
    ensures RowEntries(list, |list|) == T.Contents(nodes)
  {
    forall e | e in RowEntries(list, |list|) ensures e in T.Contents(nodes) {
      var n := RowEntryFrom(list, |list|, e);
      ListedNode(root, nodes, list, n);
    }
    forall e | e in T.Contents(nodes) ensures e in RowEntries(list, |list|) {
      var d :| d in nodes && e in T.FilesIn(d);
      assert d in W.Members(list);
      var n :| 0 <= n < |list| && list[n] == d;
      RowEntryThere(list, |list|, n, e);
    }
  }

  lemma FolderPathsAre(root: T.FatDirectory, nodes: set<T.FatDirectory>, list: seq<T.FatDirectory>, n: nat)
    requires Walked(root, nodes, list) && n + 1 == |list|
    ensures PathsTo(list, n) == T.Folders(nodes) - {[]}
  {
    forall p | p in T.Folders(nodes) - {[]} ensures p in PathsTo(list, n) {
      var d :| d in nodes && d.path == p;
      assert d in W.Members(list);
      var i :| 0 <= i < |list| && list[i] == d;
      assert i > 0;
    }
    forall p | p in PathsTo(list, n) ensures p in T.Folders(nodes) - {[]} {
      var i :| 1 <= i < |list| && list[i].path == p;
      ListedNode(root, nodes, list, i);
      if p == [] {
        OnePathEach(root, nodes, list, 0, i);
      }
    }
  }

  /** All files lie between the directories and the end. */
  lemma EndCounted(list: seq<T.FatDirectory>, dirs: Tree)
    requires Matches(list, dirs) && |list| > 0 && CountedTo(list, dirs, |list| - 1, |list[|list| - 1].files|)
    ensures V.End(dirs) == V.Start(dirs, |dirs| - 1) + Sum(RowEntries(list, |list|), FileNeed())
  {
    var last := |list| - 1;
    V.RowEnds(dirs, last);
    RowComplete(list, last);
    assert SameEntries(list, dirs, last);
  }

  lemma FoldersToAll(list: seq<T.FatDirectory>, demands: seq<L.Path>, dirs: Tree, n: nat, folders: set<L.Path>)
    requires n < |list| == |dirs| && FoldersTo(list, demands, dirs, n) && folders == PathsTo(list, n)
    ensures n <= V.ObjectCount(dirs) && V.Start(dirs, n) == 2 + Sum(folders, FolderNeed(demands))
  {
  }

  lemma AllFoldersCounted(root: T.FatDirectory, nodes: set<T.FatDirectory>, list: seq<T.FatDirectory>,
                          demands: seq<L.Path>, dirs: Tree, n: nat)
    requires Walked(root, nodes, list) && T.Follows(nodes, demands) && Matches(list, dirs) && n + 1 == |list|
    ensures n <= V.ObjectCount(dirs) && V.Start(dirs, n) == 2 + Sum(T.Folders(nodes) - {[]}, FolderNeed(demands))
  {
    assert PathsTo(list, n) == T.Folders(nodes) - {[]} by {
      FolderPathsAre(root, nodes, list, n);
    }
    FoldersCounted(root, nodes, list, demands, dirs, n);
    FoldersToAll(list, demands, dirs, n, T.Folders(nodes) - {[]});
  }

  lemma AllFilesCounted(root: T.FatDirectory, nodes: set<T.FatDirectory>, list: seq<T.FatDirectory>, dirs: Tree, n: nat)
    requires Walked(root, nodes, list) && Matches(list, dirs) && n + 1 == |list| && n <= V.ObjectCount(dirs)
    ensures V.End(dirs) == V.Start(dirs, n) + Sum(T.Contents(nodes), FileNeed())
  {
    FilesCounted(root, nodes, list, dirs, n, |list[n].files|);
    RowsAreContents(root, nodes, list);
    EndCounted(list, dirs);
  }

  lemma AllCounted(root: T.FatDirectory, nodes: set<T.FatDirectory>, list: seq<T.FatDirectory>,
                   demands: seq<L.Path>, dirs: Tree, n: nat)
    requires Walked(root, nodes, list) && T.Follows(nodes, demands) && Matches(list, dirs) && n + 1 == |list|
    ensures V.End(dirs) == 2 + Sum(T.Folders(nodes) - {[]}, FolderNeed(demands)) + Sum(T.Contents(nodes), FileNeed())
  {
    AllFoldersCounted(root, nodes, list, demands, dirs, n);
    AllFilesCounted(root, nodes, list, dirs, n);
  }

  /** The layout ends exactly where the count of the input says. */
  lemma ClustersCounted(root: T.FatDirectory, nodes: set<T.FatDirectory>, list: seq<T.FatDirectory>,
                        sources: seq<T.Source>, dirs: Tree)
    requires Flattened(root, nodes, list, sources, dirs) && T.Folders(nodes) == T.Wanted([], sources)
    ensures V.End(dirs) == 2 + ClustersFor(sources)
  {
    assert Matches(list, dirs) by {
      MirrorsMatch(list, dirs);
    }
    AllCounted(root, nodes, list, T.Demands([], sources), dirs, |list| - 1);
    FilesSummed(sources, |sources|);
  }
}
