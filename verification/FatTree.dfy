/** The directory tree the image builders lay out: built path by path, in place. */
module FatTree {
  import opened Bytes
  import opened FatListing
  import opened FatNames

  const MAX_TREE_DEPTH := 4
  const SIZE_LIMIT := 0x1_0000_0000

  /** One file to store: its path as given, and its bytes. */
  datatype Source = Source(path: string, contents: seq<Byte>)

  datatype FatFile = FatFile(name: string, shortName: string, ntCase: CaseFlags, longName: bool, contents: seq<Byte>)

  datatype Status = Done | BadPath | BadName | Collision | Duplicate | Full | TooLarge | NoAlias

  // ----- Paths

  function Split(s: string, from: nat): (parts: Path)
    requires from <= |s|
    ensures |parts| > 0
    decreases |s| - from
  {
    var slash := First(s, '/', from);
    if slash == |s| then [s[from..]] else [s[from..slash]] + Split(s, slash + 1)
  }

  function Joined(parts: Path): string
    requires |parts| > 0
  {
    if |parts| == 1 then parts[0] else parts[0] + "/" + Joined(parts[1..])
  }

  lemma JoinedCons(part: string, rest: Path)
    requires |rest| > 0
    ensures Joined([part] + rest) == part + "/" + Joined(rest)
  {
    assert ([part] + rest)[1..] == rest;
  }

  lemma CutAt(s: string, from: nat, slash: nat)
    requires from <= slash < |s| && s[slash] == '/'
    ensures s[from..] == s[from..slash] + "/" + s[slash + 1..]
  {
  }

  lemma {:induction false} JoinSplit(s: string, from: nat)
    requires from <= |s|
    ensures Joined(Split(s, from)) == s[from..]
    decreases |s| - from
  {
    var slash := First(s, '/', from);
    if slash < |s| {
      JoinSplit(s, slash + 1);
      JoinedCons(s[from..slash], Split(s, slash + 1));
      CutAt(s, from, slash);
    }
  }

  function Components(path: string): Path { Split(path, 0) }

  /** Different path strings are different paths. */
  lemma ComponentsInjective(p: string, q: string)
    requires Components(p) == Components(q)
    ensures p == q
  {
    JoinSplit(p, 0);
    JoinSplit(q, 0);
  }

  predicate GoodPath(path: string) {
    && path != "" && '\\' !in path && path[0] != '/'
    && |Components(path)| <= MAX_TREE_DEPTH
    && forall k :: 0 <= k < |Components(path)| ==> Components(path)[k] !in {"", ".", ".."}
  }

  // ----- Directories

  class FatDirectory {
    const name: string
    const shortName: string
    const ntCase: CaseFlags
    const longName: bool
    const parent: FatDirectory?
    ghost const path: Path
    var directories: seq<FatDirectory>
    var files: seq<FatFile>

    constructor Root()
      ensures parent == null && path == [] && directories == [] && files == []
    {
      name, shortName, ntCase, longName, parent, path := "", "", CaseFlags(false, false), false, null, [];
      directories, files := [], [];
    }

    constructor Below(name: string, shortName: string, longName: bool, parent: FatDirectory)
      ensures this.name == name && this.shortName == shortName && this.ntCase == NtCase(name) && this.longName == longName
      ensures this.parent == parent && path == parent.path + [name] && directories == [] && files == []
    {
      this.name, this.shortName, this.ntCase, this.longName := name, shortName, NtCase(name), longName;
      this.parent, this.path := parent, parent.path + [name];
      directories, files := [], [];
    }
  }

  function DirectorySlots(ds: seq<FatDirectory>): (n: nat)
    ensures n >= |ds|
  {
    if ds == [] then 0 else DirectorySlots(ds[..|ds| - 1]) + Slots(ds[|ds| - 1].name, ds[|ds| - 1].longName)
  }

  function FileSlots(fs: seq<FatFile>): (n: nat)
    ensures n >= |fs|
  {
    if fs == [] then 0 else FileSlots(fs[..|fs| - 1]) + Slots(fs[|fs| - 1].name, fs[|fs| - 1].longName)
  }

  function EntryCount(d: FatDirectory): nat
    reads d
  {
    DirectorySlots(d.directories) + FileSlots(d.files)
  }

  function DirectoryNames(ds: seq<FatDirectory>): (names: set<string>)
    ensures |names| <= |ds|
    ensures forall i :: 0 <= i < |ds| ==> ds[i].shortName in names
    ensures forall n :: n in names ==> exists i :: 0 <= i < |ds| && ds[i].shortName == n
  {
    if ds == [] then {} else DirectoryNames(ds[..|ds| - 1]) + {ds[|ds| - 1].shortName}
  }

  function FileNames(fs: seq<FatFile>): (names: set<string>)
    ensures |names| <= |fs|
    ensures forall i :: 0 <= i < |fs| ==> fs[i].shortName in names
    ensures forall n :: n in names ==> exists i :: 0 <= i < |fs| && fs[i].shortName == n
  {
    if fs == [] then {}
    else
      var rest, last := fs[..|fs| - 1], fs[|fs| - 1];
      assert fs == rest + [last];
      FileNames(rest) + {last.shortName}
  }

  /** A valid name with its case flags, and the short name that stands for it. */
  predicate GoodEntry(name: string, short: string, ntCase: CaseFlags, long: bool) {
    ValidComponent(name) && Storable(short) && ntCase == NtCase(name)
    && (!long ==> IsShort(name) && short == ShortName(name))
  }

  ghost predicate GoodChild(d: FatDirectory, c: FatDirectory) {
    c.parent == d && c.path == d.path + [c.name] && GoodEntry(c.name, c.shortName, c.ntCase, c.longName)
  }

  predicate GoodFile(f: FatFile) {
    GoodEntry(f.name, f.shortName, f.ntCase, f.longName) && |f.contents| < SIZE_LIMIT
  }

  predicate Differ(name: string, short: string, name': string, short': string) { name != name' && short != short' }

  ghost predicate DirectoryPair(ds: seq<FatDirectory>, i: int, j: int) {
    0 <= i < j < |ds| ==> Differ(ds[i].name, ds[i].shortName, ds[j].name, ds[j].shortName)
  }

  ghost predicate FilePair(fs: seq<FatFile>, i: int, j: int) {
    0 <= i < j < |fs| ==> Differ(fs[i].name, fs[i].shortName, fs[j].name, fs[j].shortName)
  }

  ghost predicate MixedPair(ds: seq<FatDirectory>, fs: seq<FatFile>, i: int, j: int) {
    0 <= i < |ds| && 0 <= j < |fs| ==> Differ(ds[i].name, ds[i].shortName, fs[j].name, fs[j].shortName)
  }

  ghost predicate ChildAt(d: FatDirectory, ds: seq<FatDirectory>, i: int) { 0 <= i < |ds| ==> GoodChild(d, ds[i]) }

  ghost predicate FileAt(fs: seq<FatFile>, i: int) { 0 <= i < |fs| ==> GoodFile(fs[i]) }

  /** All names, and all short names, of one directory are different. */
  ghost predicate NamesDiffer(ds: seq<FatDirectory>, fs: seq<FatFile>) {
    && (forall i, j :: DirectoryPair(ds, i, j)) && (forall i, j :: FilePair(fs, i, j))
    && (forall i, j :: MixedPair(ds, fs, i, j))
  }

  ghost predicate EntriesGood(d: FatDirectory, ds: seq<FatDirectory>, fs: seq<FatFile>) {
    (forall i :: ChildAt(d, ds, i)) && (forall i :: FileAt(fs, i))
  }

  ghost predicate Sound(d: FatDirectory)
    reads d
  {
    && NamesDiffer(d.directories, d.files) && EntriesGood(d, d.directories, d.files)
    && EntryCount(d) <= MAX_DIRECTORY_ENTRIES && |d.path| <= MAX_TREE_DEPTH
  }

  /** No entry has this name or this short name. */
  ghost predicate Free(ds: seq<FatDirectory>, fs: seq<FatFile>, name: string, short: string) {
    && (forall i :: 0 <= i < |ds| ==> Differ(ds[i].name, ds[i].shortName, name, short))
    && (forall i :: 0 <= i < |fs| ==> Differ(fs[i].name, fs[i].shortName, name, short))
  }

  lemma NamesStillDiffer(ds: seq<FatDirectory>, fs: seq<FatFile>, c: FatDirectory)
    requires NamesDiffer(ds, fs) && Free(ds, fs, c.name, c.shortName)
    ensures NamesDiffer(ds + [c], fs)
  {
    var more := ds + [c];
    forall i, j ensures DirectoryPair(more, i, j) {
      assert DirectoryPair(ds, i, j);
    }
    forall i, j ensures MixedPair(more, fs, i, j) {
      assert MixedPair(ds, fs, i, j);
    }
  }

  lemma DirectoryAdded(d: FatDirectory, ds: seq<FatDirectory>, fs: seq<FatFile>, c: FatDirectory)
    requires EntriesGood(d, ds, fs) && GoodChild(d, c)
    ensures EntriesGood(d, ds + [c], fs)
    ensures DirectorySlots(ds + [c]) == DirectorySlots(ds) + Slots(c.name, c.longName)
  {
    var more := ds + [c];
    assert more[..|ds|] == ds;
    forall i ensures ChildAt(d, more, i) {
      assert ChildAt(d, ds, i);
    }
  }

  lemma FileNamesStillDiffer(ds: seq<FatDirectory>, fs: seq<FatFile>, f: FatFile)
    requires NamesDiffer(ds, fs) && Free(ds, fs, f.name, f.shortName)
    ensures NamesDiffer(ds, fs + [f])
  {
    var more := fs + [f];
    forall i, j ensures FilePair(more, i, j) {
      assert FilePair(fs, i, j);
    }
    forall i, j ensures MixedPair(ds, more, i, j) {
      assert MixedPair(ds, fs, i, j);
    }
  }

  lemma FileAdded(d: FatDirectory, ds: seq<FatDirectory>, fs: seq<FatFile>, f: FatFile)
    requires EntriesGood(d, ds, fs) && GoodFile(f)
    ensures EntriesGood(d, ds, fs + [f])
    ensures FileSlots(fs + [f]) == FileSlots(fs) + Slots(f.name, f.longName)
  {
    var more := fs + [f];
    assert more[..|fs|] == fs;
    forall i ensures FileAt(more, i) {
      assert FileAt(fs, i);
    }
  }

  ghost predicate Rooted(root: FatDirectory, nodes: set<FatDirectory>, n: FatDirectory)
    reads nodes`directories
  {
    n == root || (n.parent != null && n.parent in nodes && n in n.parent.directories)
  }

  ghost predicate Closed(nodes: set<FatDirectory>, n: FatDirectory)
    reads n`directories
  {
    forall i :: 0 <= i < |n.directories| ==> n.directories[i] in nodes
  }

  /** The directories form a tree: each but the root is listed by its parent. */
  ghost predicate IsTree(root: FatDirectory, nodes: set<FatDirectory>)
    reads nodes
  {
    && root in nodes && root.parent == null && root.path == []
    && (forall n {:trigger NodeGood(root, nodes, n)} :: n in nodes ==> NodeGood(root, nodes, n))
  }

  ghost predicate NodeGood(root: FatDirectory, nodes: set<FatDirectory>, n: FatDirectory)
    requires n in nodes
    reads nodes
  {
    Sound(n) && Closed(nodes, n) && Rooted(root, nodes, n)
  }

  lemma ParentLists(root: FatDirectory, nodes: set<FatDirectory>, n: FatDirectory) returns (i: int)
    requires IsTree(root, nodes) && n in nodes
    ensures n == root <==> n.path == []
    ensures n != root ==> n.parent != null && n.parent in nodes && GoodChild(n.parent, n)
    ensures n != root ==> 0 <= i < |n.parent.directories| && n.parent.directories[i] == n
    ensures n != root ==> n.parent.path == n.path[..|n.path| - 1] && n.name == n.path[|n.path| - 1]
  {
    i := 0;
    assert NodeGood(root, nodes, n);
    if n != root {
      assert NodeGood(root, nodes, n.parent);
      i :| 0 <= i < |n.parent.directories| && n.parent.directories[i] == n;
      assert ChildAt(n.parent, n.parent.directories, i);
    }
  }

  /** No two directories of a tree have the same path. */
  lemma {:induction false} PathsUnique(root: FatDirectory, nodes: set<FatDirectory>, m: FatDirectory, n: FatDirectory)
    requires IsTree(root, nodes) && m in nodes && n in nodes && m.path == n.path
    ensures m == n
    decreases |m.path|
  {
    var i := ParentLists(root, nodes, m);
    var j := ParentLists(root, nodes, n);
    if m != root {
      PathsUnique(root, nodes, m.parent, n.parent);
      assert NodeGood(root, nodes, m.parent);
      OneOfAName(m.parent, i, j);
    }
  }

  lemma OneOfAName(d: FatDirectory, i: int, j: int)
    requires NamesDiffer(d.directories, d.files) && 0 <= i < |d.directories| && 0 <= j < |d.directories|
    requires d.directories[i].name == d.directories[j].name
    ensures i == j
  {
    assert DirectoryPair(d.directories, i, j) && DirectoryPair(d.directories, j, i);
  }

  // ----- Adding to a directory

  ghost predicate HasFile(d: FatDirectory, name: string)
    reads d
  {
    exists i :: 0 <= i < |d.files| && d.files[i].name == name
  }

  ghost predicate HasDirectory(d: FatDirectory, name: string)
    reads d
  {
    exists i :: 0 <= i < |d.directories| && d.directories[i].name == name
  }

  // ----- A directory and its listing

  ghost predicate HasName(ds: seq<FatDirectory>, fs: seq<FatFile>, c: string) {
    (exists i :: 0 <= i < |ds| && ds[i].name == c) || (exists i :: 0 <= i < |fs| && fs[i].name == c)
  }

  predicate Lists(l: Listing, name: string, short: string) { name in l.shorts && l.shorts[name] == short }

  ghost predicate DirectoryListed(ds: seq<FatDirectory>, l: Listing, i: int) {
    0 <= i < |ds| ==> Lists(l, ds[i].name, ds[i].shortName)
  }

  ghost predicate FileListed(fs: seq<FatFile>, l: Listing, i: int) {
    0 <= i < |fs| ==> Lists(l, fs[i].name, fs[i].shortName)
  }

  ghost predicate NameThere(ds: seq<FatDirectory>, fs: seq<FatFile>, l: Listing, c: string) {
    c in l.shorts ==> HasName(ds, fs, c)
  }

  /** These entries are what the listing says: names, short names, and slots. */
  ghost predicate Recorded(ds: seq<FatDirectory>, fs: seq<FatFile>, l: Listing) {
    && (forall i :: DirectoryListed(ds, l, i)) && (forall i :: FileListed(fs, l, i))
    && (forall c :: NameThere(ds, fs, l, c))
    && DirectorySlots(ds) + FileSlots(fs) == l.slots
  }

  /** The short names in use are those of the listing. */
  lemma UsedNames(ds: seq<FatDirectory>, fs: seq<FatFile>, l: Listing)
    requires Recorded(ds, fs, l)
    ensures DirectoryNames(ds) + FileNames(fs) == l.shorts.Values
  {
    forall n | n in l.shorts.Values ensures n in DirectoryNames(ds) + FileNames(fs) {
      var c :| c in l.shorts && l.shorts[c] == n;
      assert NameThere(ds, fs, l, c);
      if i :| 0 <= i < |ds| && ds[i].name == c {
        assert DirectoryListed(ds, l, i);
      } else {
        var j :| 0 <= j < |fs| && fs[j].name == c;
        assert FileListed(fs, l, j);
      }
    }
    forall n | n in DirectoryNames(ds) ensures n in l.shorts.Values {
      var i :| 0 <= i < |ds| && ds[i].shortName == n;
      assert DirectoryListed(ds, l, i);
    }
    forall n | n in FileNames(fs) ensures n in l.shorts.Values {
      var i :| 0 <= i < |fs| && fs[i].shortName == n;
      assert FileListed(fs, l, i);
    }
  }

  ghost predicate AsChosen(l: Listing, name: string, short: string, long: bool) {
    && name !in l.shorts && short == ChosenName(name, l.shorts.Values)
    && (long <==> NeedsAlias(name, l.shorts.Values))
  }

  lemma StillThere(ds: seq<FatDirectory>, fs: seq<FatFile>, ds': seq<FatDirectory>, fs': seq<FatFile>, l: Listing, c: string)
    requires NameThere(ds, fs, l, c) && ds <= ds' && fs <= fs'
    ensures c in l.shorts ==> HasName(ds', fs', c)
  {
    if c in l.shorts {
      if i :| 0 <= i < |ds| && ds[i].name == c {
        assert ds'[i].name == c;
      } else {
        var j :| 0 <= j < |fs| && fs[j].name == c;
        assert fs'[j].name == c;
      }
    }
  }

  lemma DirectoryRecorded(ds: seq<FatDirectory>, fs: seq<FatFile>, l: Listing, c: FatDirectory)
    requires Recorded(ds, fs, l) && AsChosen(l, c.name, c.shortName, c.longName)
    ensures Recorded(ds + [c], fs, Enter(l, c.name))
  {
    var more, m := ds + [c], Enter(l, c.name);
    assert more[..|ds|] == ds && more[|ds|] == c;
    assert DirectorySlots(more) == DirectorySlots(ds) + Slots(c.name, c.longName);
    forall i ensures DirectoryListed(more, m, i) {
      assert DirectoryListed(ds, l, i);
    }
    forall i ensures FileListed(fs, m, i) {
      assert FileListed(fs, l, i);
    }
    forall n ensures NameThere(more, fs, m, n) {
      assert NameThere(ds, fs, l, n);
      StillThere(ds, fs, more, fs, l, n);
      assert more[|ds|].name == c.name;
    }
  }

  lemma FileRecorded(ds: seq<FatDirectory>, fs: seq<FatFile>, l: Listing, f: FatFile)
    requires Recorded(ds, fs, l) && AsChosen(l, f.name, f.shortName, f.longName)
    ensures Recorded(ds, fs + [f], Enter(l, f.name))
  {
    var more, m := fs + [f], Enter(l, f.name);
    assert more[..|fs|] == fs && more[|fs|] == f;
    assert FileSlots(more) == FileSlots(fs) + Slots(f.name, f.longName);
    forall i ensures FileListed(more, m, i) {
      assert FileListed(fs, l, i);
    }
    forall i ensures DirectoryListed(ds, m, i) {
      assert DirectoryListed(ds, l, i);
    }
    forall n ensures NameThere(ds, more, m, n) {
      assert NameThere(ds, fs, l, n);
      StillThere(ds, fs, ds, more, l, n);
      assert more[|fs|].name == f.name;
    }
  }

  /** The short name to be chosen, if there are slots left for the entry. */
  method NewName(d: FatDirectory, component: string, ghost l: Listing) returns (r: Status, short: string, long: bool)
    requires Sound(d) && ValidComponent(component) && !HasFile(d, component) && !HasDirectory(d, component)
    requires Recorded(d.directories, d.files, l)
    ensures r == if Enter(l, component).slots <= MAX_DIRECTORY_ENTRIES then Done else Full
    ensures r == Done ==> EntryCount(d) + Slots(component, long) <= MAX_DIRECTORY_ENTRIES
    ensures GoodEntry(component, short, NtCase(component), long) && Free(d.directories, d.files, component, short)
    ensures AsChosen(l, component, short, long)
  {
    var used := DirectoryNames(d.directories) + FileNames(d.files);
    UsedNames(d.directories, d.files, l);
    var named := DiskName(component, used);
    short, long := named.short, named.long;
    assert NameThere(d.directories, d.files, l, component);
    r := if EntryCount(d) + Slots(component, long) > MAX_DIRECTORY_ENTRIES then Full else Done;
  }

  /** Appends a new, empty directory. */
  method AppendDirectory(d: FatDirectory, component: string, short: string, long: bool) returns (child: FatDirectory)
    requires Sound(d) && GoodEntry(component, short, NtCase(component), long) && |d.path| < MAX_TREE_DEPTH
    requires Free(d.directories, d.files, component, short)
    requires EntryCount(d) + Slots(component, long) <= MAX_DIRECTORY_ENTRIES
    modifies d`directories
    ensures fresh(child) && Sound(child) && child.path == d.path + [component] && child.parent == d
    ensures child.directories == [] && child.files == []
    ensures child.name == component && child.shortName == short && child.longName == long
    ensures Sound(d) && d.directories == old(d.directories) + [child]
  {
    child := new FatDirectory.Below(component, short, long, d);
    NamesStillDiffer(d.directories, d.files, child);
    DirectoryAdded(d, d.directories, d.files, child);
    d.directories := d.directories + [child];
  }

  method AppendFile(d: FatDirectory, f: FatFile)
    requires Sound(d) && GoodFile(f) && Free(d.directories, d.files, f.name, f.shortName)
    requires EntryCount(d) + Slots(f.name, f.longName) <= MAX_DIRECTORY_ENTRIES
    modifies d`files
    ensures Sound(d) && d.files == old(d.files) + [f]
  {
    FileNamesStillDiffer(d.directories, d.files, f);
    FileAdded(d, d.directories, d.files, f);
    d.files := d.files + [f];
  }

  // ----- A tree and the paths asked for

  /** The directory lists what was asked for in it. */
  ghost predicate FollowsAt(n: FatDirectory, demands: seq<Path>)
    reads n
  {
    Recorded(n.directories, n.files, Listed(demands, n.path))
  }

  /** Every path asked for lies in a directory of the tree. */
  ghost predicate Reachable(nodes: set<FatDirectory>, demands: seq<Path>) {
    forall i {:trigger AskedIn(nodes, demands, i)} :: 0 <= i < |demands| ==> AskedIn(nodes, demands, i)
  }

  ghost predicate AskedIn(nodes: set<FatDirectory>, demands: seq<Path>, i: int)
    requires 0 <= i < |demands|
  {
    var q := demands[i];
    |q| > 0 && q[..|q| - 1] in Folders(nodes)
  }

  /** The tree is what these paths, asked for in this order, make it. */
  ghost predicate Follows(nodes: set<FatDirectory>, demands: seq<Path>)
    reads nodes
  {
    && (forall n {:trigger FollowsAt(n, demands)} :: n in nodes ==> FollowsAt(n, demands))
    && Reachable(nodes, demands)
  }

  /** A directory that is not there yet has not been asked for anything. */
  lemma NewFolderListsNothing(nodes: set<FatDirectory>, demands: seq<Path>, p: Path)
    requires Reachable(nodes, demands) && p !in Folders(nodes)
    ensures Listed(demands, p) == EMPTY
  {
    forall i | 0 <= i < |demands| ensures !ChildOf(demands[i], p) {
      assert AskedIn(nodes, demands, i);
    }
    NothingListed(demands, p);
  }

  /** A directory lists the children it has, and no more. */
  lemma ListsItsNames(d: FatDirectory, demands: seq<Path>, c: string)
    requires FollowsAt(d, demands)
    ensures c in Listed(demands, d.path).shorts <==> HasFile(d, c) || HasDirectory(d, c)
  {
    var l := Listed(demands, d.path);
    assert NameThere(d.directories, d.files, l, c);
    if i :| 0 <= i < |d.directories| && d.directories[i].name == c {
      assert DirectoryListed(d.directories, l, i);
    }
    if i :| 0 <= i < |d.files| && d.files[i].name == c {
      assert FileListed(d.files, l, i);
    }
  }

  /** In a tree that follows its demands no directory is overfull. */
  lemma TreeNotOverfull(root: FatDirectory, nodes: set<FatDirectory>, demands: seq<Path>)
    requires IsTree(root, nodes) && Follows(nodes, demands)
    ensures !Overfull(demands)
  {
    forall p ensures Listed(demands, p).slots <= MAX_DIRECTORY_ENTRIES {
      if p in Folders(nodes) {
        var n :| n in nodes && n.path == p;
        assert NodeGood(root, nodes, n) && FollowsAt(n, demands);
      } else {
        NewFolderListsNothing(nodes, demands, p);
      }
    }
  }

  /** A directory that lists one more chosen entry follows one more demand. */
  lemma DirectoryFollows(d: FatDirectory, was: seq<FatDirectory>, c: FatDirectory, demands: seq<Path>)
    requires d.directories == was + [c] && Recorded(was, d.files, Listed(demands, d.path))
    requires AsChosen(Listed(demands, d.path), c.name, c.shortName, c.longName)
    ensures FollowsAt(d, demands + [d.path + [c.name]])
  {
    DirectoryRecorded(was, d.files, Listed(demands, d.path), c);
    ListedNext(demands, d.path + [c.name], d.path);
  }

  lemma FileFollows(d: FatDirectory, was: seq<FatFile>, f: FatFile, demands: seq<Path>)
    requires d.files == was + [f] && Recorded(d.directories, was, Listed(demands, d.path))
    requires AsChosen(Listed(demands, d.path), f.name, f.shortName, f.longName)
    ensures FollowsAt(d, demands + [d.path + [f.name]])
  {
    FileRecorded(d.directories, was, Listed(demands, d.path), f);
    ListedNext(demands, d.path + [f.name], d.path);
  }

  /** No other directory has the path of d. */
  ghost predicate OnlyAt(nodes: set<FatDirectory>, d: FatDirectory) {
    forall n :: n in nodes && n != d ==> n.path != d.path
  }

  /** Before a directory is asked for one more name: what it lists, and that its path is its own. */
  lemma AskedOnce(root: FatDirectory, nodes: set<FatDirectory>, d: FatDirectory, demands: seq<Path>)
    requires IsTree(root, nodes) && d in nodes && Follows(nodes, demands)
    ensures Recorded(d.directories, d.files, Listed(demands, d.path)) && OnlyAt(nodes, d)
  {
    assert FollowsAt(d, demands);
    forall n | n in nodes && n != d ensures n.path != d.path {
      if n.path == d.path {
        PathsUnique(root, nodes, n, d);
      }
    }
  }

  /** Every directory but d lists what was asked for in it. */
  ghost predicate OthersFollowed(nodes: set<FatDirectory>, d: FatDirectory, demands: seq<Path>)
    reads nodes
  {
    forall n {:trigger FollowsAt(n, demands)} :: n in nodes && n != d ==> FollowsAt(n, demands)
  }

  /** A directory in which nothing was asked for still follows. */
  lemma OtherFollows(n: FatDirectory, d: FatDirectory, demands: seq<Path>, c: string)
    requires n.path != d.path && FollowsAt(n, demands)
    ensures FollowsAt(n, demands + [d.path + [c]])
  {
    ListedNext(demands, d.path + [c], n.path);
  }

  lemma StillReachable(nodes: set<FatDirectory>, nodes': set<FatDirectory>, demands: seq<Path>, d: FatDirectory, c: string)
    requires Reachable(nodes, demands) && nodes <= nodes' && d in nodes
    ensures Reachable(nodes', demands + [d.path + [c]])
  {
    var q := d.path + [c];
    assert q[..|q| - 1] == d.path;
    forall i | 0 <= i < |demands + [q]| ensures AskedIn(nodes', demands + [q], i) {
      if i < |demands| {
        assert AskedIn(nodes, demands, i);
      }
    }
  }

  // ----- What a tree holds

  type Entry = (Path, seq<Byte>)

  ghost function FilesAt(path: Path, fs: seq<FatFile>): set<Entry> {
    set i | 0 <= i < |fs| :: (path + [fs[i].name], fs[i].contents)
  }

  ghost function FilesIn(n: FatDirectory): set<Entry>
    reads n`files
  {
    FilesAt(n.path, n.files)
  }

  lemma OneMoreFile(path: Path, fs: seq<FatFile>, f: FatFile)
    ensures FilesAt(path, fs + [f]) == FilesAt(path, fs) + {(path + [f.name], f.contents)}
  {
    assert (fs + [f])[|fs|] == f && forall i :: 0 <= i < |fs| ==> (fs + [f])[i] == fs[i];
  }

  /** All files of the tree, by full path. */
  ghost function Contents(nodes: set<FatDirectory>): set<Entry>
    reads nodes`files
  {
    set n, e | n in nodes && e in FilesIn(n) :: e
  }

  ghost function Folders(nodes: set<FatDirectory>): set<Path> { set n | n in nodes :: n.path }

  function Prefixes(p: Path, n: nat): set<Path>
    requires n <= |p|
  {
    set k | 0 <= k <= n :: p[..k]
  }

  lemma ContentsSplit(nodes: set<FatDirectory>, d: FatDirectory)
    requires d in nodes
    ensures Contents(nodes) == Contents(nodes - {d}) + FilesIn(d)
  {
  }

  lemma NewFolderIsEmpty(nodes: set<FatDirectory>, child: FatDirectory)
    requires child.files == []
    ensures Contents(nodes + {child}) == Contents(nodes)
  {
    assert FilesIn(child) == {};
  }

  method FindFile(d: FatDirectory, name: string) returns (i: int)
    ensures 0 <= i <= |d.files| && (i < |d.files| <==> HasFile(d, name))
    ensures i < |d.files| ==> d.files[i].name == name
  {
    i := 0;
    while i < |d.files| && d.files[i].name != name
      invariant 0 <= i <= |d.files| && forall j :: 0 <= j < i ==> d.files[j].name != name
    {
      i := i + 1;
    }
  }

  method FindDirectory(d: FatDirectory, name: string) returns (i: int)
    ensures 0 <= i <= |d.directories| && (i < |d.directories| <==> HasDirectory(d, name))
    ensures i < |d.directories| ==> d.directories[i].name == name
  {
    i := 0;
    while i < |d.directories| && d.directories[i].name != name
      invariant 0 <= i <= |d.directories| && forall j :: 0 <= j < i ==> d.directories[j].name != name
    {
      i := i + 1;
    }
  }

  /** The listing of d after one more name was asked for there. */
  ghost function After(demands: seq<Path>, d: FatDirectory, c: string): Listing { Listed(demands + [d.path + [c]], d.path) }

  lemma AfterEnters(demands: seq<Path>, d: FatDirectory, c: string)
    ensures After(demands, d, c) == Enter(Listed(demands, d.path), c)
  {
    ListedNext(demands, d.path + [c], d.path);
  }

  /** A directory of the tree records its listing, and a further name takes at least one more slot. */
  lemma ReadyForName(root: FatDirectory, nodes: set<FatDirectory>, d: FatDirectory, demands: seq<Path>, c: string)
    requires IsTree(root, nodes) && d in nodes && Follows(nodes, demands) && !HasFile(d, c) && !HasDirectory(d, c)
    ensures Sound(d) && Recorded(d.directories, d.files, Listed(demands, d.path))
    ensures After(demands, d, c) == Enter(Listed(demands, d.path), c) && EntryCount(d) < After(demands, d, c).slots
  {
    assert NodeGood(root, nodes, d) && FollowsAt(d, demands);
    ListsItsNames(d, demands, c);
    AfterEnters(demands, d, c);
  }

  /** Finds or creates the child directory of that name; full exactly when the new entry would need more than 224 slots. */
  method Child(root: FatDirectory, ghost nodes: set<FatDirectory>, d: FatDirectory, component: string,
               ghost demands: seq<Path>)
    returns (r: Status, child: FatDirectory, ghost nodes': set<FatDirectory>)
    requires IsTree(root, nodes) && d in nodes && |d.path| < MAX_TREE_DEPTH && Follows(nodes, demands)
    modifies d`directories
    ensures IsTree(root, nodes') && nodes <= nodes' && fresh(nodes' - nodes) && Contents(nodes') == old(Contents(nodes))
    ensures r == BadName <==> !ValidComponent(component)
    ensures r == Collision <==> ValidComponent(component) && HasFile(d, component)
    ensures r == Full <==> ValidComponent(component) && !HasFile(d, component)
                           && After(demands, d, component).slots > MAX_DIRECTORY_ENTRIES
    ensures r != Done ==> nodes' == nodes && (r == BadName || r == Collision || r == Full)
    ensures r == Done ==> child in nodes' && nodes' == nodes + {child} && child.path == d.path + [component]
    ensures r == Done ==> Follows(nodes', demands + [d.path + [component]])
  {
    child, nodes' := d, nodes;
    AfterEnters(demands, d, component);
    ListsItsNames(d, demands, component);
    assert NodeGood(root, nodes, d) && FollowsAt(d, demands);
    if !ValidComponent(component) { return BadName, child, nodes'; }
    var taken := FindFile(d, component);
    if taken < |d.files| { return Collision, child, nodes'; }
    var found := FindDirectory(d, component);
    if found < |d.directories| {
      child := d.directories[found];
      ChildInTree(root, nodes, d, found);
      AskedAgain(nodes, demands, d, component);
      return Done, child, nodes';
    }
    r, child, nodes' := NewChild(root, nodes, d, component, demands);
  }

  /** Asking for a name that is there changes nothing. */
  lemma AskedAgain(nodes: set<FatDirectory>, demands: seq<Path>, d: FatDirectory, c: string)
    requires Follows(nodes, demands) && d in nodes && HasDirectory(d, c)
    ensures Follows(nodes, demands + [d.path + [c]])
  {
    StillReachable(nodes, nodes, demands, d, c);
    forall n | n in nodes ensures FollowsAt(n, demands + [d.path + [c]]) {
      assert FollowsAt(n, demands) && FollowsAt(d, demands);
      ListsItsNames(d, demands, c);
      ListedNext(demands, d.path + [c], n.path);
    }
  }

  lemma ChildInTree(root: FatDirectory, nodes: set<FatDirectory>, d: FatDirectory, i: int)
    requires IsTree(root, nodes) && d in nodes && 0 <= i < |d.directories|
    ensures d.directories[i] in nodes && nodes + {d.directories[i]} == nodes
    ensures d.directories[i].path == d.path + [d.directories[i].name]
  {
    assert NodeGood(root, nodes, d) && ChildAt(d, d.directories, i);
  }

  method NewChild(root: FatDirectory, ghost nodes: set<FatDirectory>, d: FatDirectory, component: string,
                  ghost demands: seq<Path>)
    returns (r: Status, child: FatDirectory, ghost nodes': set<FatDirectory>)
    requires IsTree(root, nodes) && d in nodes && |d.path| < MAX_TREE_DEPTH && Follows(nodes, demands)
    requires ValidComponent(component) && !HasFile(d, component) && !HasDirectory(d, component)
    modifies d`directories
    ensures IsTree(root, nodes') && Contents(nodes') == old(Contents(nodes))
    ensures r == if After(demands, d, component).slots <= MAX_DIRECTORY_ENTRIES then Done else Full
    ensures r == Full ==> nodes' == nodes
    ensures r == Done ==> fresh(child) && nodes' == nodes + {child} && child.path == d.path + [component]
    ensures r == Done ==> Follows(nodes', demands + [d.path + [component]])
  {
    child, nodes' := d, nodes;
    ReadyForName(root, nodes, d, demands, component);
    var short, long;
    r, short, long := NewName(d, component, Listed(demands, d.path));
    if r != Done { return; }
    child := LinkChild(root, nodes, d, component, short, long, demands);
    nodes' := nodes + {child};
  }

  /** No directory stands at the path of a child that is missing. */
  lemma NotYetFolder(root: FatDirectory, nodes: set<FatDirectory>, d: FatDirectory, c: string)
    requires IsTree(root, nodes) && d in nodes && !HasDirectory(d, c)
    ensures d.path + [c] !in Folders(nodes)
  {
    if n :| n in nodes && n.path == d.path + [c] {
      var i := ParentLists(root, nodes, n);
      assert n.parent.path == d.path;
      PathsUnique(root, nodes, n.parent, d);
    }
  }

  /** Nothing was asked for below a child that is missing. */
  lemma NewFolderEmpty(root: FatDirectory, nodes: set<FatDirectory>, d: FatDirectory, demands: seq<Path>, c: string)
    requires IsTree(root, nodes) && d in nodes && Follows(nodes, demands) && !HasDirectory(d, c)
    ensures Listed(demands + [d.path + [c]], d.path + [c]) == EMPTY
  {
    var q := d.path + [c];
    NotYetFolder(root, nodes, d, c);
    NewFolderListsNothing(nodes, demands, q);
    ListedNext(demands, q, q);
  }

  /** Links a new child into the tree. */
  method LinkNode(root: FatDirectory, ghost nodes: set<FatDirectory>, d: FatDirectory,
                  component: string, short: string, long: bool)
    returns (child: FatDirectory)
    requires IsTree(root, nodes) && d in nodes && |d.path| < MAX_TREE_DEPTH
    requires GoodEntry(component, short, NtCase(component), long) && Free(d.directories, d.files, component, short)
    requires EntryCount(d) + Slots(component, long) <= MAX_DIRECTORY_ENTRIES
    modifies d`directories
    ensures fresh(child) && child.path == d.path + [component] && child.directories == [] && child.files == []
    ensures child.name == component && child.shortName == short && child.longName == long
    ensures d.directories == old(d.directories) + [child]
    ensures IsTree(root, nodes + {child}) && Contents(nodes + {child}) == old(Contents(nodes))
  {
    child := LinkInTree(root, nodes, d, component, short, long);
    NewFolderIsEmpty(nodes, child);
  }

  /** The tree stays one when a directory lists a new directory. */
  method LinkInTree(root: FatDirectory, ghost nodes: set<FatDirectory>, d: FatDirectory,
                    component: string, short: string, long: bool)
    returns (child: FatDirectory)
    requires IsTree(root, nodes) && d in nodes && |d.path| < MAX_TREE_DEPTH
    requires GoodEntry(component, short, NtCase(component), long) && Free(d.directories, d.files, component, short)
    requires EntryCount(d) + Slots(component, long) <= MAX_DIRECTORY_ENTRIES
    modifies d`directories
    ensures fresh(child) && child.path == d.path + [component] && child.directories == [] && child.files == []
    ensures child.name == component && child.shortName == short && child.longName == long
    ensures d.directories == old(d.directories) + [child]
    ensures IsTree(root, nodes + {child})
  {
    assert NodeGood(root, nodes, d);
    child := AppendDirectory(d, component, short, long);
    ghost var nodes' := nodes + {child};
    forall n | n in nodes' ensures NodeGood(root, nodes', n) {
      if n == child {
        assert Rooted(root, nodes', child) && Closed(nodes', child);
      } else {
        assert old(NodeGood(root, nodes, n));
        assert Sound(n) && Closed(nodes', n) && Rooted(root, nodes', n);
      }
    }
  }

  lemma NothingRecorded(n: FatDirectory, demands: seq<Path>)
    requires n.directories == [] && n.files == [] && Listed(demands, n.path) == EMPTY
    ensures FollowsAt(n, demands)
  {
  }

  method LinkChild(root: FatDirectory, ghost nodes: set<FatDirectory>, d: FatDirectory,
                   component: string, short: string, long: bool, ghost demands: seq<Path>)
    returns (child: FatDirectory)
    requires IsTree(root, nodes) && d in nodes && |d.path| < MAX_TREE_DEPTH && !HasDirectory(d, component)
    requires GoodEntry(component, short, NtCase(component), long) && Free(d.directories, d.files, component, short)
    requires EntryCount(d) + Slots(component, long) <= MAX_DIRECTORY_ENTRIES
    requires Follows(nodes, demands) && AsChosen(Listed(demands, d.path), component, short, long)
    modifies d`directories
    ensures fresh(child) && child.path == d.path + [component]
    ensures IsTree(root, nodes + {child}) && Contents(nodes + {child}) == old(Contents(nodes))
    ensures Follows(nodes + {child}, demands + [d.path + [component]])
  {
    ghost var was := d.directories;
    AskedOnce(root, nodes, d, demands);
    NewFolderEmpty(root, nodes, d, demands, component);
    child := LinkNode(root, nodes, d, component, short, long);
    forall n {:trigger FollowsAt(n, demands + [child.path])} | n in nodes && n != d
      ensures FollowsAt(n, demands + [child.path])
    {
      assert old(FollowsAt(n, demands));
      OtherFollows(n, d, demands, component);
    }
    ChildFollows(nodes, d, was, child, demands);
  }

  /** A linked child completes the tree that follows one more demand. */
  lemma ChildFollows(nodes: set<FatDirectory>, d: FatDirectory, was: seq<FatDirectory>, child: FatDirectory, demands: seq<Path>)
    requires d in nodes && Reachable(nodes, demands) && OthersFollowed(nodes, d, demands + [child.path])
    requires d.directories == was + [child] && Recorded(was, d.files, Listed(demands, d.path))
    requires AsChosen(Listed(demands, d.path), child.name, child.shortName, child.longName)
    requires child.path == d.path + [child.name] && child.directories == [] && child.files == []
    requires Listed(demands + [child.path], child.path) == EMPTY
    ensures Follows(nodes + {child}, demands + [d.path + [child.name]])
  {
    DirectoryFollows(d, was, child, demands);
    NothingRecorded(child, demands + [child.path]);
    StillReachable(nodes, nodes + {child}, demands, d, child.name);
  }

  // ----- Whole paths

  /** A prefix of the path is a file already. */
  ghost predicate Blocked(entries: set<Entry>, parts: Path, n: nat)
    requires n <= |parts|
  {
    exists k, c :: 0 < k <= n && (parts[..k], c) in entries
  }

  predicate ValidAt(parts: Path, k: int)
    requires 0 <= k < |parts|
  {
    ValidComponent(parts[k])
  }

  /** The first n components are valid names. */
  predicate AllValid(parts: Path, n: nat)
    requires n <= |parts|
  {
    forall k {:trigger ValidAt(parts, k)} :: 0 <= k < n ==> ValidAt(parts, k)
  }

  lemma OneMoreValid(parts: Path, k: nat)
    requires k < |parts| && AllValid(parts, k) && ValidComponent(parts[k])
    ensures AllValid(parts, k + 1)
  {
  }

  /** Walks down from the root, creating what is missing. */
  method Descend(root: FatDirectory, ghost nodes: set<FatDirectory>, parts: Path, n: nat, ghost demands: seq<Path>)
    returns (r: Status, d: FatDirectory, ghost nodes': set<FatDirectory>)
    requires IsTree(root, nodes) && n <= |parts| && n <= MAX_TREE_DEPTH && Follows(nodes, demands)
    modifies nodes`directories
    ensures IsTree(root, nodes') && nodes <= nodes' && fresh(nodes' - nodes) && Contents(nodes') == old(Contents(nodes))
    ensures r == Done ==> d in nodes' && d.path == parts[..n] && Folders(nodes') == Folders(nodes) + Prefixes(parts, n)
    ensures r == Done ==> AllValid(parts, n) && Follows(nodes', demands + Steps(parts, n))
    ensures r == BadName ==> !AllValid(parts, n)
    ensures r == Collision ==> Blocked(old(Contents(nodes)), parts, n)
    ensures r == Full ==> Overfull(demands + Steps(parts, n))
    ensures r == Done || r == BadName || r == Collision || r == Full
  {
    d, nodes', r := root, nodes, Done;
    var k := 0;
    ghost var asked := demands;
    while k < n
      invariant 0 <= k <= n && IsTree(root, nodes') && nodes <= nodes' && fresh(nodes' - nodes)
      invariant Contents(nodes') == old(Contents(nodes)) && d in nodes' && d.path == parts[..k] && r == Done
      invariant Folders(nodes') == Folders(nodes) + Prefixes(parts, k)
      invariant Follows(nodes', asked) && asked == demands + Steps(parts, k)
      invariant AllValid(parts, k)
    {
      ghost var before, parent := nodes', d;
      NextStep(demands, parts, k, n);
      r, d, nodes' := Child(root, nodes', d, parts[k], asked);
      asked := asked + [parent.path + [parts[k]]];
      if r != Done {
        if r == Collision {
          FileAtPath(before, parent, parts, k);
        } else if r == BadName {
          assert !ValidAt(parts, k);
        } else if r == Full {
          StaysOverfull(asked, demands + Steps(parts, n));
        }
        return;
      }
      OneMoreValid(parts, k);
      OneMoreFolder(nodes, before, d, parts, k);
      k := k + 1;
    }
  }

  lemma NextStep(demands: seq<Path>, parts: Path, k: nat, n: nat)
    requires k < n <= |parts|
    ensures demands + Steps(parts, k + 1) == demands + Steps(parts, k) + [parts[..k] + [parts[k]]]
    ensures demands + Steps(parts, k + 1) <= demands + Steps(parts, n)
  {
    assert parts[..k] + [parts[k]] == parts[..k + 1];
    assert Steps(parts, k + 1) == Steps(parts, k) + [parts[..k + 1]];
    assert Steps(parts, k + 1) == Steps(parts, n)[..k + 1];
    assert demands + Steps(parts, n) == demands + Steps(parts, k + 1) + Steps(parts, n)[k + 1..];
  }

  lemma FileAtPath(nodes: set<FatDirectory>, d: FatDirectory, parts: Path, k: nat)
    requires d in nodes && k < |parts| && d.path == parts[..k] && HasFile(d, parts[k])
    ensures forall n :: k < n <= |parts| ==> Blocked(Contents(nodes), parts, n)
  {
    var i :| 0 <= i < |d.files| && d.files[i].name == parts[k];
    assert parts[..k] + [parts[k]] == parts[..k + 1];
    assert (parts[..k + 1], d.files[i].contents) in FilesIn(d);
  }

  lemma OneMoreFolder(nodes: set<FatDirectory>, before: set<FatDirectory>, d: FatDirectory, parts: Path, k: nat)
    requires k < |parts| && Folders(before) == Folders(nodes) + Prefixes(parts, k) && d.path == parts[..k] + [parts[k]]
    ensures d.path == parts[..k + 1] && Folders(before + {d}) == Folders(nodes) + Prefixes(parts, k + 1)
  {
    assert parts[..k] + [parts[k]] == parts[..k + 1];
    assert Folders(before + {d}) == Folders(before) + {d.path};
    assert Prefixes(parts, k + 1) == Prefixes(parts, k) + {parts[..k + 1]};
  }

  /** Adds one file to the directory its path leads to, or names the exact reason. */
  method AddFile(root: FatDirectory, ghost nodes: set<FatDirectory>, d: FatDirectory, leaf: string, contents: seq<Byte>,
                 ghost demands: seq<Path>)
    returns (r: Status)
    requires IsTree(root, nodes) && d in nodes && Follows(nodes, demands)
    modifies d`files
    ensures IsTree(root, nodes)
    ensures r == BadName <==> !ValidComponent(leaf)
    ensures r == Collision <==> ValidComponent(leaf) && HasDirectory(d, leaf)
    ensures r == Duplicate <==> ValidComponent(leaf) && !HasDirectory(d, leaf) && old(HasFile(d, leaf))
    ensures ValidComponent(leaf) && !HasDirectory(d, leaf) && !old(HasFile(d, leaf)) ==>
              r == if old(EntryCount(d)) < MAX_DIRECTORY_ENTRIES && |contents| >= SIZE_LIMIT then TooLarge
                   else if After(demands, d, leaf).slots > MAX_DIRECTORY_ENTRIES then Full
                   else Done
    ensures r == Done ==> |contents| < SIZE_LIMIT && Contents(nodes) == old(Contents(nodes)) + {(d.path + [leaf], contents)}
    ensures r == Done ==> Follows(nodes, demands + [d.path + [leaf]])
    ensures r != Done ==> d.files == old(d.files)
  {
    if !ValidComponent(leaf) { return BadName; }
    var taken := FindDirectory(d, leaf);
    if taken < |d.directories| { return Collision; }
    taken := FindFile(d, leaf);
    if taken < |d.files| { return Duplicate; }
    r := NewFile(root, nodes, d, leaf, contents, demands);
  }

  method NewFile(root: FatDirectory, ghost nodes: set<FatDirectory>, d: FatDirectory, leaf: string, contents: seq<Byte>,
                 ghost demands: seq<Path>)
    returns (r: Status)
    requires IsTree(root, nodes) && d in nodes && Follows(nodes, demands)
    requires ValidComponent(leaf) && !HasDirectory(d, leaf) && !HasFile(d, leaf)
    modifies d`files
    ensures IsTree(root, nodes)
    ensures r == if old(EntryCount(d)) < MAX_DIRECTORY_ENTRIES && |contents| >= SIZE_LIMIT then TooLarge
                 else if After(demands, d, leaf).slots > MAX_DIRECTORY_ENTRIES then Full
                 else Done
    ensures r == Done ==> |contents| < SIZE_LIMIT && Contents(nodes) == old(Contents(nodes)) + {(d.path + [leaf], contents)}
    ensures r == Done ==> Follows(nodes, demands + [d.path + [leaf]])
    ensures r != Done ==> d.files == old(d.files)
  {
    ReadyForName(root, nodes, d, demands, leaf);
    if EntryCount(d) >= MAX_DIRECTORY_ENTRIES { return Full; }
    if |contents| >= SIZE_LIMIT { return TooLarge; }
    var short, long;
    r, short, long := NewName(d, leaf, Listed(demands, d.path));
    if r != Done { return; }
    PutFile(root, nodes, d, FatFile(leaf, short, NtCase(leaf), long, contents), demands);
  }

  method PutFile(root: FatDirectory, ghost nodes: set<FatDirectory>, d: FatDirectory, f: FatFile, ghost demands: seq<Path>)
    requires IsTree(root, nodes) && d in nodes
    requires GoodFile(f) && Free(d.directories, d.files, f.name, f.shortName)
    requires EntryCount(d) + Slots(f.name, f.longName) <= MAX_DIRECTORY_ENTRIES
    requires Follows(nodes, demands) && AsChosen(Listed(demands, d.path), f.name, f.shortName, f.longName)
    modifies d`files
    ensures IsTree(root, nodes) && Contents(nodes) == old(Contents(nodes)) + {(d.path + [f.name], f.contents)}
    ensures Follows(nodes, demands + [d.path + [f.name]])
  {
    ghost var was := d.files;
    AskedOnce(root, nodes, d, demands);
    PutNode(root, nodes, d, f);
    ghost var q := d.path + [f.name];
    forall n {:trigger FollowsAt(n, demands + [q])} | n in nodes && n != d ensures FollowsAt(n, demands + [q]) {
      assert old(FollowsAt(n, demands));
      OtherFollows(n, d, demands, f.name);
    }
    FilePutFollows(nodes, d, was, f, demands);
  }

  /** A stored file completes the tree that follows one more demand. */
  lemma FilePutFollows(nodes: set<FatDirectory>, d: FatDirectory, was: seq<FatFile>, f: FatFile, demands: seq<Path>)
    requires d in nodes && Reachable(nodes, demands) && OthersFollowed(nodes, d, demands + [d.path + [f.name]])
    requires d.files == was + [f] && Recorded(d.directories, was, Listed(demands, d.path))
    requires AsChosen(Listed(demands, d.path), f.name, f.shortName, f.longName)
    ensures Follows(nodes, demands + [d.path + [f.name]])
  {
    FileFollows(d, was, f, demands);
    StillReachable(nodes, nodes, demands, d, f.name);
  }

  /** The tree stays one when a directory lists a further file. */
  method AppendInTree(root: FatDirectory, ghost nodes: set<FatDirectory>, d: FatDirectory, f: FatFile)
    requires IsTree(root, nodes) && d in nodes
    requires GoodFile(f) && Free(d.directories, d.files, f.name, f.shortName)
    requires EntryCount(d) + Slots(f.name, f.longName) <= MAX_DIRECTORY_ENTRIES
    modifies d`files
    ensures IsTree(root, nodes) && d.files == old(d.files) + [f]
  {
    assert NodeGood(root, nodes, d);
    AppendFile(d, f);
    forall n | n in nodes ensures NodeGood(root, nodes, n) {
      assert old(NodeGood(root, nodes, n));
      assert Sound(n) && Closed(nodes, n) && Rooted(root, nodes, n);
    }
  }

  /** Puts a file into its directory. */
  method PutNode(root: FatDirectory, ghost nodes: set<FatDirectory>, d: FatDirectory, f: FatFile)
    requires IsTree(root, nodes) && d in nodes
    requires GoodFile(f) && Free(d.directories, d.files, f.name, f.shortName)
    requires EntryCount(d) + Slots(f.name, f.longName) <= MAX_DIRECTORY_ENTRIES
    modifies d`files
    ensures IsTree(root, nodes) && Contents(nodes) == old(Contents(nodes)) + {(d.path + [f.name], f.contents)}
    ensures d.files == old(d.files) + [f]
  {
    ContentsSplit(nodes, d);
    OneMoreFile(d.path, d.files, f);
    AppendInTree(root, nodes, d, f);
    ContentsSplit(nodes, d);
  }

  // ----- The whole tree

  ghost function FileEntries(sources: seq<Source>, n: nat): set<Entry>
    requires n <= |sources|
  {
    if n == 0 then {}
    else FileEntries(sources, n - 1) + {(Components(sources[n - 1].path), sources[n - 1].contents)}
  }

  /** The paths the first n given directories ask for, in order. */
  ghost function DirectoryDemands(directories: seq<string>, n: nat): seq<Path>
    requires n <= |directories|
  {
    if n == 0 then []
    else DirectoryDemands(directories, n - 1) + Steps(Components(directories[n - 1]), |Components(directories[n - 1])|)
  }

  /** The paths all given directories and the first n files ask for, in order. */
  ghost function DemandsTo(directories: seq<string>, sources: seq<Source>, n: nat): seq<Path>
    requires n <= |sources|
  {
    if n == 0 then DirectoryDemands(directories, |directories|)
    else DemandsTo(directories, sources, n - 1)
         + Steps(Components(sources[n - 1].path), |Components(sources[n - 1].path)|)
  }

  /** Everything the input asks for, in order: this alone decides all short names. */
  ghost function Demands(directories: seq<string>, sources: seq<Source>): seq<Path> {
    DemandsTo(directories, sources, |sources|)
  }

  lemma {:induction false} DirectoryDemandsGrow(directories: seq<string>, m: nat, n: nat)
    requires m <= n <= |directories|
    ensures DirectoryDemands(directories, m) <= DirectoryDemands(directories, n)
  {
    if m < n {
      DirectoryDemandsGrow(directories, m, n - 1);
    }
  }

  lemma {:induction false} DemandsGrow(directories: seq<string>, sources: seq<Source>, m: nat, n: nat)
    requires m <= n <= |sources|
    ensures DemandsTo(directories, sources, m) <= DemandsTo(directories, sources, n)
  {
    if m < n {
      DemandsGrow(directories, sources, m, n - 1);
    }
  }

  /** Every prefix of a given path was asked for. */
  lemma {:induction false} StepDemanded(directories: seq<string>, sources: seq<Source>, n: nat, i: nat, m: nat)
    requires i < n <= |sources| && m < |Components(sources[i].path)|
    ensures Components(sources[i].path)[..m + 1] in DemandsTo(directories, sources, n)
  {
    if i < n - 1 {
      StepDemanded(directories, sources, n - 1, i, m);
    } else {
      var p := Components(sources[i].path);
      assert Steps(p, |p|)[m] == p[..m + 1];
    }
  }

  /** What is too much after some of the input is too much after all of it. */
  lemma PartOverfull(directories: seq<string>, sources: seq<Source>, n: nat)
    requires n <= |sources| && Overfull(DemandsTo(directories, sources, n))
    ensures Overfull(Demands(directories, sources))
  {
    DemandsGrow(directories, sources, n, |sources|);
    StaysOverfull(DemandsTo(directories, sources, n), Demands(directories, sources));
  }

  /** All directories above the first n given files. */
  ghost function FileFolders(sources: seq<Source>, n: nat): set<Path>
    requires n <= |sources|
  {
    if n == 0 then {}
    else FileFolders(sources, n - 1) + Prefixes(Components(sources[n - 1].path), |Components(sources[n - 1].path)| - 1)
  }

  /** The first n given directories and all above them. */
  ghost function GivenFolders(directories: seq<string>, n: nat): set<Path>
    requires n <= |directories|
  {
    if n == 0 then {[]}
    else GivenFolders(directories, n - 1) + Prefixes(Components(directories[n - 1]), |Components(directories[n - 1])|)
  }

  ghost function Wanted(directories: seq<string>, sources: seq<Source>): set<Path> {
    GivenFolders(directories, |directories|) + FileFolders(sources, |sources|)
  }

  function FilePaths(sources: seq<Source>, n: nat): set<Path>
    requires n <= |sources|
  {
    set i | 0 <= i < n :: Components(sources[i].path)
  }

  ghost function Asked(demands: seq<Path>): set<Path> { set q | q in demands }

  lemma AskedMore(a: seq<Path>, b: seq<Path>)
    ensures Asked(a + b) == Asked(a) + Asked(b)
  {
    assert forall q :: q in a + b <==> q in a || q in b;
  }

  lemma StepsArePrefixes(p: Path, n: nat)
    requires n <= |p|
    ensures Asked(Steps(p, n)) == Prefixes(p, n) - {[]}
  {
    forall q | q in Prefixes(p, n) - {[]} ensures q in Steps(p, n) {
      var k :| 0 <= k <= n && q == p[..k];
      assert k > 0 && Steps(p, n)[k - 1] == q;
    }
  }

  lemma {:induction false} DirectoriesAsked(directories: seq<string>, n: nat)
    requires n <= |directories|
    ensures Asked(DirectoryDemands(directories, n)) == GivenFolders(directories, n) - {[]}
  {
    if n > 0 {
      var p := Components(directories[n - 1]);
      DirectoriesAsked(directories, n - 1);
      StepsArePrefixes(p, |p|);
      AskedMore(DirectoryDemands(directories, n - 1), Steps(p, |p|));
    }
  }

  lemma WholeIsPrefix(p: Path)
    requires |p| > 0
    ensures Prefixes(p, |p|) == Prefixes(p, |p| - 1) + {p}
  {
    assert p[..|p|] == p;
  }

  lemma {:induction false} SourcesAsked(directories: seq<string>, sources: seq<Source>, n: nat)
    requires n <= |sources|
    ensures Asked(DemandsTo(directories, sources, n))
         == GivenFolders(directories, |directories|) + FileFolders(sources, n) + FilePaths(sources, n) - {[]}
  {
    if n > 0 {
      var p := Components(sources[n - 1].path);
      SourcesAsked(directories, sources, n - 1);
      StepsArePrefixes(p, |p|);
      WholeIsPrefix(p);
      AskedMore(DemandsTo(directories, sources, n - 1), Steps(p, |p|));
      assert FilePaths(sources, n) == FilePaths(sources, n - 1) + {p};
    } else {
      DirectoriesAsked(directories, |directories|);
    }
  }

  /** The names that the directory at p has to list: of wanted directories and of files. */
  ghost function WantedIn(directories: seq<string>, sources: seq<Source>, p: Path): set<string> {
    set q | q in Wanted(directories, sources) + FilePaths(sources, |sources|) && ChildOf(q, p) :: Leaf(q)
  }

  /** What is asked for in a directory is what it has to list. */
  lemma NamesAreWanted(directories: seq<string>, sources: seq<Source>, p: Path)
    ensures Names(Demands(directories, sources), p) == WantedIn(directories, sources, p)
  {
    var demands := Demands(directories, sources);
    SourcesAsked(directories, sources, |sources|);
    assert forall q :: q in demands <==> q in Asked(demands);
  }

  /** All components of wanted directories and of files are 8.3 names. */
  ghost predicate ShortInput(directories: seq<string>, sources: seq<Source>) {
    forall p, c :: c in WantedIn(directories, sources, p) ==> IsShort(c)
  }

  lemma InputNamesShort(directories: seq<string>, sources: seq<Source>, p: Path)
    requires ShortInput(directories, sources)
    ensures AllShort(Demands(directories, sources), p)
  {
    var demands := Demands(directories, sources);
    NamesAreWanted(directories, sources, p);
    forall q | q in demands && ChildOf(q, p) ensures IsShort(Leaf(q)) {
      assert Leaf(q) in Names(demands, p);
    }
  }

  /** With 8.3 names only, the input is too much exactly when some directory has to list more than 224 names. */
  lemma ShortInputOverfull(directories: seq<string>, sources: seq<Source>)
    requires ShortInput(directories, sources)
    ensures Overfull(Demands(directories, sources))
            <==> exists p :: |WantedIn(directories, sources, p)| > 224
  {
    forall p
      ensures AllShort(Demands(directories, sources), p)
      ensures Names(Demands(directories, sources), p) == WantedIn(directories, sources, p)
    {
      InputNamesShort(directories, sources, p);
      NamesAreWanted(directories, sources, p);
    }
    ShortOverfull(Demands(directories, sources));
  }

  predicate PathOk(path: string) {
    GoodPath(path) && AllValid(Components(path), |Components(path)|)
  }

  /** A path is well formed when its directories and its last component are. */
  lemma PathOkAtLeaf(path: string)
    ensures var parts := Components(path);
      PathOk(path) <==> GoodPath(path) && AllValid(parts, |parts| - 1) && ValidComponent(parts[|parts| - 1])
  {
    var parts := Components(path);
    assert ValidAt(parts, |parts| - 1) <==> ValidComponent(parts[|parts| - 1]);
    if AllValid(parts, |parts| - 1) && ValidComponent(parts[|parts| - 1]) {
      OneMoreValid(parts, |parts| - 1);
    }
  }

  predicate PathAt(directories: seq<string>, i: int)
    requires 0 <= i < |directories|
  {
    PathOk(directories[i])
  }

  /** The first n given directories are well formed. */
  predicate PathsOk(directories: seq<string>, n: nat)
    requires n <= |directories|
  {
    forall i {:trigger PathAt(directories, i)} :: 0 <= i < n ==> PathAt(directories, i)
  }

  lemma OneMorePath(directories: seq<string>, n: nat)
    requires n < |directories| && PathsOk(directories, n) && PathOk(directories[n])
    ensures PathsOk(directories, n + 1)
  {
  }

  lemma BadPathGiven(directories: seq<string>, n: nat)
    requires n < |directories| && !PathOk(directories[n])
    ensures !PathsOk(directories, |directories|)
  {
    assert !PathAt(directories, n);
  }

  /** The first n sources are well formed. */
  ghost predicate SourcesOk(sources: seq<Source>, n: int)
    requires n <= |sources|
  {
    forall i {:trigger SourceAt(sources, i)} :: 0 <= i < n ==> SourceAt(sources, i)
  }

  predicate SourceAt(sources: seq<Source>, i: int)
    requires 0 <= i < |sources|
  {
    SourceOk(sources[i])
  }

  lemma OneMoreOk(sources: seq<Source>, n: int)
    requires 0 <= n < |sources| && SourcesOk(sources, n) && SourceOk(sources[n])
    ensures SourcesOk(sources, n + 1)
  {
  }

  predicate SourceOk(s: Source) { PathOk(s.path) && |s.contents| <= 0xFFFF_FFFF }

  /** The paths are well formed, and no path is both a file and a directory. */
  ghost predicate Sensible(directories: seq<string>, sources: seq<Source>) {
    && PathsOk(directories, |directories|)
    && SourcesOk(sources, |sources|)
    && (forall i :: 0 <= i < |sources| ==> Components(sources[i].path) !in Wanted(directories, sources))
  }

  predicate Keyed(sources: seq<Source>) { forall i, j :: 0 <= i < j < |sources| ==> sources[i].path != sources[j].path }

  lemma {:induction false} EntryFrom(sources: seq<Source>, n: nat, e: Entry) returns (i: int)
    requires n <= |sources| && e in FileEntries(sources, n)
    ensures 0 <= i < n && e == (Components(sources[i].path), sources[i].contents)
  {
    if e == (Components(sources[n - 1].path), sources[n - 1].contents) {
      i := n - 1;
    } else {
      i := EntryFrom(sources, n - 1, e);
    }
  }

  lemma {:induction false} EntryGiven(sources: seq<Source>, n: nat, i: int)
    requires 0 <= i < n <= |sources|
    ensures (Components(sources[i].path), sources[i].contents) in FileEntries(sources, n)
  {
    if i < n - 1 {
      EntryGiven(sources, n - 1, i);
    }
  }

  lemma {:induction false} FoldersGrow(directories: seq<string>, sources: seq<Source>, m: nat, n: nat)
    requires m <= |directories| && n <= |sources|
    ensures GivenFolders(directories, m) <= Wanted(directories, sources)
    ensures FileFolders(sources, n) <= Wanted(directories, sources)
    decreases |directories| - m + |sources| - n
  {
    if m < |directories| {
      FoldersGrow(directories, sources, m + 1, n);
    } else if n < |sources| {
      FoldersGrow(directories, sources, m, n + 1);
    }
  }

  /** A file above a wanted directory contradicts a sensible input. */
  lemma BlockedNotSensible(directories: seq<string>, sources: seq<Source>, n: nat, parts: Path, k: nat)
    requires n <= |sources| && k <= |parts| && Blocked(FileEntries(sources, n), parts, k)
    requires Prefixes(parts, k) <= Wanted(directories, sources)
    ensures !Sensible(directories, sources)
  {
    var j, c :| 0 < j <= k && (parts[..j], c) in FileEntries(sources, n);
    var i := EntryFrom(sources, n, (parts[..j], c));
    assert parts[..j] in Prefixes(parts, k);
  }

  /** Two files of different path strings are never at the same path. */
  lemma NeverDuplicate(sources: seq<Source>, n: nat, c: seq<Byte>)
    requires Keyed(sources) && n < |sources|
    ensures (Components(sources[n].path), c) !in FileEntries(sources, n)
  {
    if (Components(sources[n].path), c) in FileEntries(sources, n) {
      var j := EntryFrom(sources, n, (Components(sources[n].path), c));
      ComponentsInjective(sources[j].path, sources[n].path);
    }
  }

  lemma MixedDiffer(d: FatDirectory, i: int, j: int)
    requires Sound(d) && 0 <= i < |d.directories| && 0 <= j < |d.files|
    ensures d.directories[i].name != d.files[j].name
  {
    assert MixedPair(d.directories, d.files, i, j);
  }

  /** In a tree no path is both a file and a directory. */
  lemma NoClash(root: FatDirectory, nodes: set<FatDirectory>, e: Entry)
    requires IsTree(root, nodes) && e in Contents(nodes)
    ensures e.0 !in Folders(nodes)
  {
    var n :| n in nodes && e in FilesIn(n);
    var j :| 0 <= j < |n.files| && e == (n.path + [n.files[j].name], n.files[j].contents);
    if e.0 in Folders(nodes) {
      var m :| m in nodes && m.path == e.0;
      var i := ParentLists(root, nodes, m);
      assert m.path[..|m.path| - 1] == n.path;
      PathsUnique(root, nodes, m.parent, n);
      assert NodeGood(root, nodes, n);
      MixedDiffer(n, i, j);
    }
  }

  /** Adds one given directory and those above it. */
  method AddDirectory(root: FatDirectory, ghost nodes: set<FatDirectory>, path: string, ghost demands: seq<Path>)
    returns (r: Status, ghost nodes': set<FatDirectory>)
    requires IsTree(root, nodes) && Follows(nodes, demands)
    modifies nodes`directories
    ensures IsTree(root, nodes') && nodes <= nodes' && fresh(nodes' - nodes) && Contents(nodes') == old(Contents(nodes))
    ensures var parts := Components(path);
      && (r == Done ==> PathOk(path) && Folders(nodes') == Folders(nodes) + Prefixes(parts, |parts|))
      && (r == Done ==> Follows(nodes', demands + Steps(parts, |parts|)))
      && (r == Collision ==> Blocked(old(Contents(nodes)), parts, |parts|))
      && (r == Full ==> Overfull(demands + Steps(parts, |parts|)))
    ensures r == BadPath || r == BadName ==> !PathOk(path)
    ensures r == Done || r == BadPath || r == BadName || r == Collision || r == Full
  {
    nodes', r := nodes, BadPath;
    if !GoodPath(path) { return; }
    var parts, d := Components(path), root;
    r, d, nodes' := Descend(root, nodes, parts, |parts|, demands);
  }

  /** Adds the given directories. */
  method AddDirectories(root: FatDirectory, ghost nodes: set<FatDirectory>, directories: seq<string>)
    returns (r: Status, ghost nodes': set<FatDirectory>)
    requires IsTree(root, nodes) && nodes == {root} && Contents(nodes) == {} && Follows(nodes, [])
    modifies nodes`directories
    ensures IsTree(root, nodes') && nodes <= nodes' && fresh(nodes' - nodes) && Contents(nodes') == {}
    ensures if r == Done then Begun(nodes', directories, |directories|) else NotBegun(r, directories)
  {
    nodes', r := nodes, Done;
    assert Folders(nodes) == {[]};
    var n := 0;
    while n < |directories| && r == Done
      invariant 0 <= n <= |directories| && IsTree(root, nodes') && nodes <= nodes' && fresh(nodes' - nodes)
      invariant Contents(nodes') == {}
      invariant if r == Done then Begun(nodes', directories, n) else NotBegun(r, directories)
      decreases |directories| - n
    {
      r, nodes' := AddDirectory(root, nodes', directories[n], DirectoryDemands(directories, n));
      AnotherDirectory(r, directories, n);
      n := n + 1;
    }
  }

  /** What the tree is after the first n given directories. */
  ghost predicate Begun(nodes: set<FatDirectory>, directories: seq<string>, n: nat)
    requires n <= |directories|
    reads nodes
  {
    && Folders(nodes) == GivenFolders(directories, n) && PathsOk(directories, n)
    && Follows(nodes, DirectoryDemands(directories, n))
  }

  /** Why the given directories were refused. */
  ghost predicate NotBegun(r: Status, directories: seq<string>) {
    if r == Full then Overfull(DirectoryDemands(directories, |directories|))
    else (r == BadPath || r == BadName) && !PathsOk(directories, |directories|)
  }

  lemma AnotherDirectory(r: Status, directories: seq<string>, n: nat)
    requires n < |directories| && PathsOk(directories, n)
    requires r == Done ==> PathOk(directories[n])
    requires r == BadPath || r == BadName ==> !PathOk(directories[n])
    requires r == Full ==> Overfull(DirectoryDemands(directories, n + 1))
    requires r == Done || r == BadPath || r == BadName || r == Full
    ensures if r == Done then PathsOk(directories, n + 1) else NotBegun(r, directories)
  {
    if r == Done {
      OneMorePath(directories, n);
    } else if r == Full {
      DirectoriesOverfull(directories, n + 1);
    } else {
      BadPathGiven(directories, n);
    }
  }

  lemma DirectoriesOverfull(directories: seq<string>, n: nat)
    requires n <= |directories| && Overfull(DirectoryDemands(directories, n))
    ensures Overfull(DirectoryDemands(directories, |directories|))
  {
    DirectoryDemandsGrow(directories, n, |directories|);
    StaysOverfull(DirectoryDemands(directories, n), DirectoryDemands(directories, |directories|));
  }

  /** Adds one given file and the directories above it. */
  method AddSource(root: FatDirectory, ghost nodes: set<FatDirectory>, source: Source, ghost demands: seq<Path>)
    returns (r: Status, ghost nodes': set<FatDirectory>)
    requires IsTree(root, nodes) && Follows(nodes, demands)
    modifies nodes
    ensures IsTree(root, nodes') && nodes <= nodes' && fresh(nodes' - nodes)
    ensures r == Done ==> SourceOk(source)
    ensures var parts := Components(source.path);
      r == Done ==> Folders(nodes') == Folders(nodes) + Prefixes(parts, |parts| - 1)
    ensures r == Done ==> Contents(nodes') == old(Contents(nodes)) + {(Components(source.path), source.contents)}
    ensures r == Done ==> Follows(nodes', demands + Steps(Components(source.path), |Components(source.path)|))
    ensures r == BadPath || r == BadName || r == TooLarge ==> !SourceOk(source)
    ensures r == Collision ==> Clashes(old(Contents(nodes)), Folders(nodes), Components(source.path))
    ensures r == Duplicate ==> exists c :: (Components(source.path), c) in old(Contents(nodes))
    ensures r == Full ==> Overfull(demands + Steps(Components(source.path), |Components(source.path)|))
    ensures r != NoAlias
  {
    nodes', r := nodes, BadPath;
    PathOkAtLeaf(source.path);
    if !GoodPath(source.path) { return; }
    var parts, d := Components(source.path), root;
    LastStep(demands, parts);
    r, d, nodes' := Descend(root, nodes, parts, |parts| - 1, demands);
    if r != Done {
      if r == Full {
        StaysOverfull(demands + Steps(parts, |parts| - 1), demands + Steps(parts, |parts|));
      }
      return;
    }
    NotItsOwnPrefix(parts);
    r := AddLeaf(root, nodes', d, parts, source.contents, demands + Steps(parts, |parts| - 1));
  }

  lemma LastStep(demands: seq<Path>, parts: Path)
    requires |parts| > 0
    ensures demands + Steps(parts, |parts|) == demands + Steps(parts, |parts| - 1) + [parts]
    ensures demands + Steps(parts, |parts| - 1) <= demands + Steps(parts, |parts|)
  {
    NextStep(demands, parts, |parts| - 1, |parts|);
    assert parts[..|parts| - 1] + [parts[|parts| - 1]] == parts;
  }

  method AddLeaf(root: FatDirectory, ghost nodes: set<FatDirectory>, d: FatDirectory, parts: Path, contents: seq<Byte>,
                 ghost demands: seq<Path>)
    returns (r: Status)
    requires IsTree(root, nodes) && d in nodes && |parts| > 0 && d.path == parts[..|parts| - 1] && Follows(nodes, demands)
    modifies d`files
    ensures IsTree(root, nodes)
    ensures r == BadName || r == TooLarge ==> !ValidComponent(parts[|parts| - 1]) || |contents| >= SIZE_LIMIT
    ensures r == Collision ==> parts in Folders(nodes)
    ensures r == Duplicate ==> exists c :: (parts, c) in old(Contents(nodes))
    ensures r == Full ==> Overfull(demands + [parts])
    ensures r == Done ==> ValidComponent(parts[|parts| - 1]) && |contents| < SIZE_LIMIT
    ensures r == Done ==> Contents(nodes) == old(Contents(nodes)) + {(parts, contents)}
    ensures r == Done ==> Follows(nodes, demands + [parts])
    ensures r != BadPath && r != NoAlias
  {
    var leaf := parts[|parts| - 1];
    assert d.path + [leaf] == parts;
    r := AddFile(root, nodes, d, leaf, contents, demands);
    if r == Duplicate {
      DuplicateEntry(nodes, d, leaf);
    } else if r == Collision {
      FolderThere(root, nodes, d, leaf);
    }
  }

  lemma NotItsOwnPrefix(p: Path)
    requires |p| > 0
    ensures p !in Prefixes(p, |p| - 1)
  {
  }

  /** A file stands where a directory is wanted, or the other way round. */
  ghost predicate Clashes(entries: set<Entry>, folders: set<Path>, parts: Path)
    requires |parts| > 0
  {
    Blocked(entries, parts, |parts| - 1) || parts in folders
  }

  lemma DuplicateEntry(nodes: set<FatDirectory>, d: FatDirectory, leaf: string)
    requires d in nodes && HasFile(d, leaf)
    ensures exists c :: (d.path + [leaf], c) in Contents(nodes)
  {
    var i :| 0 <= i < |d.files| && d.files[i].name == leaf;
    var e: Entry := (d.path + [leaf], d.files[i].contents);
    assert e in FilesIn(d) && e in Contents(nodes);
  }

  lemma FolderThere(root: FatDirectory, nodes: set<FatDirectory>, d: FatDirectory, leaf: string)
    requires IsTree(root, nodes) && d in nodes && HasDirectory(d, leaf)
    ensures d.path + [leaf] in Folders(nodes)
  {
    var i :| 0 <= i < |d.directories| && d.directories[i].name == leaf;
    ChildInTree(root, nodes, d, i);
    assert d.directories[i].path in Folders(nodes);
  }

  /** A clash with what came before the n-th file means the whole input is not sensible. */
  lemma ClashNotSensible(directories: seq<string>, sources: seq<Source>, n: nat, folders: set<Path>)
    requires n < |sources| && folders <= Wanted(directories, sources)
    requires Clashes(FileEntries(sources, n), folders, Components(sources[n].path))
    ensures !Sensible(directories, sources)
  {
    var parts := Components(sources[n].path);
    if Blocked(FileEntries(sources, n), parts, |parts| - 1) {
      PrefixesWanted(directories, sources, n);
      BlockedNotSensible(directories, sources, n, parts, |parts| - 1);
    }
  }

  lemma PrefixesWanted(directories: seq<string>, sources: seq<Source>, n: nat)
    requires n < |sources|
    ensures Prefixes(Components(sources[n].path), |Components(sources[n].path)| - 1) <= Wanted(directories, sources)
  {
    FoldersGrow(directories, sources, |directories|, n + 1);
  }

  /** What the tree is after the given directories and the first n files. */
  ghost predicate Reached(nodes: set<FatDirectory>, directories: seq<string>, sources: seq<Source>, n: nat)
    requires n <= |sources|
    reads nodes
  {
    && Contents(nodes) == FileEntries(sources, n)
    && Folders(nodes) == GivenFolders(directories, |directories|) + FileFolders(sources, n)
    && SourcesOk(sources, n)
    && Follows(nodes, DemandsTo(directories, sources, n))
  }

  lemma TreeIsSensible(root: FatDirectory, nodes: set<FatDirectory>, directories: seq<string>, sources: seq<Source>)
    requires IsTree(root, nodes)
    requires Reached(nodes, directories, sources, |sources|)
    requires PathsOk(directories, |directories|)
    ensures Sensible(directories, sources)
  {
    forall i | 0 <= i < |sources| ensures Components(sources[i].path) !in Wanted(directories, sources) {
      EntryGiven(sources, |sources|, i);
      NoClash(root, nodes, (Components(sources[i].path), sources[i].contents));
    }
  }

  /** Why a whole input was refused: it is not sensible, or a directory would be overfull. */
  ghost predicate Refusal(r: Status, directories: seq<string>, sources: seq<Source>) {
    if r == Full then Overfull(Demands(directories, sources))
    else (r == BadPath || r == BadName || r == TooLarge || r == Collision) && !Sensible(directories, sources)
  }

  method AddNext(root: FatDirectory, ghost nodes: set<FatDirectory>, ghost directories: seq<string>,
                 sources: seq<Source>, n: nat)
    returns (r: Status, ghost nodes': set<FatDirectory>)
    requires n < |sources| && IsTree(root, nodes) && Keyed(sources) && Reached(nodes, directories, sources, n)
    modifies nodes
    ensures IsTree(root, nodes') && nodes <= nodes' && fresh(nodes' - nodes)
    ensures if r == Done then Reached(nodes', directories, sources, n + 1)
            else Refusal(r, directories, sources)
  {
    ghost var entries, folders := Contents(nodes), Folders(nodes);
    r, nodes' := AddSource(root, nodes, sources[n], DemandsTo(directories, sources, n));
    if r == Done {
      OneMoreOk(sources, n);
    } else if r == Full {
      PartOverfull(directories, sources, n + 1);
    } else if r == Collision {
      FoldersGrow(directories, sources, |directories|, n);
      ClashNotSensible(directories, sources, n, folders);
    } else if r == Duplicate {
      ghost var c :| (Components(sources[n].path), c) in entries;
      NeverDuplicate(sources, n, c);
    } else {
      BadNotSensible(directories, sources, n);
    }
  }

  lemma BadNotSensible(directories: seq<string>, sources: seq<Source>, n: nat)
    requires n < |sources| && !SourceOk(sources[n])
    ensures !Sensible(directories, sources)
  {
    assert !SourceAt(sources, n);
  }

  method AddSources(root: FatDirectory, ghost nodes: set<FatDirectory>, ghost directories: seq<string>, sources: seq<Source>)
    returns (r: Status, ghost nodes': set<FatDirectory>)
    requires IsTree(root, nodes) && Keyed(sources) && Reached(nodes, directories, sources, 0)
    modifies nodes
    ensures IsTree(root, nodes') && nodes <= nodes' && fresh(nodes' - nodes)
    ensures if r == Done then Reached(nodes', directories, sources, |sources|)
            else Refusal(r, directories, sources)
  {
    nodes', r := nodes, Done;
    var n := 0;
    while n < |sources| && r == Done
      invariant 0 <= n <= |sources| && IsTree(root, nodes') && nodes <= nodes' && fresh(nodes' - nodes)
      invariant if r == Done then Reached(nodes', directories, sources, n) else Refusal(r, directories, sources)
      decreases |sources| - n
    {
      r, nodes' := AddNext(root, nodes', directories, sources, n);
      n := n + 1;
    }
  }

  /**
   * Builds the whole tree. It holds exactly the given files, its directories are
   * exactly those given or needed, and all names and short names in a directory
   * differ; the short names follow from the order of the input alone. The input
   * is accepted exactly when it is sensible and no directory would be overfull.
   */
  method BuildTree(sources: seq<Source>, directories: seq<string>)
    returns (r: Status, root: FatDirectory, ghost nodes: set<FatDirectory>)
    requires Keyed(sources)
    ensures IsTree(root, nodes) && fresh(nodes)
    ensures r == Done <==> Sensible(directories, sources) && !Overfull(Demands(directories, sources))
    ensures r == Done ==> Contents(nodes) == FileEntries(sources, |sources|)
    ensures r == Done ==> Folders(nodes) == Wanted(directories, sources)
    ensures r == Done ==> Follows(nodes, Demands(directories, sources))
    ensures r == Full ==> Overfull(Demands(directories, sources))
    ensures Sensible(directories, sources) ==> r == Done || r == Full
    ensures r != Duplicate && r != NoAlias
  {
    root := new FatDirectory.Root();
    nodes := {root};
    assert NodeGood(root, nodes, root);
    assert FollowsAt(root, []);
    r, nodes := AddDirectories(root, nodes, directories);
    if r != Done {
      if r == Full {
        PartOverfull(directories, sources, 0);
      }
      return;
    }
    r, nodes := AddSources(root, nodes, directories, sources);
    if r == Done {
      TreeIsSensible(root, nodes, directories, sources);
      TreeNotOverfull(root, nodes, Demands(directories, sources));
    }
  }
}
