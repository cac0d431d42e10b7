/** A directory tree, the directory tables that store it, and paths through both. */
module FloppyTree {
  import opened Bytes
  import opened FloppyReader

  const MAX_ENTRIES := 224

  datatype File = File(name: Name, ntCase: Byte, contents: seq<Byte>)

  /** A directory in walk order; folders and parent are positions in that order. */
  datatype Folder = Folder(name: Name, ntCase: Byte, parent: int, folders: seq<int>, files: seq<File>)

  type Tree = seq<Folder>

  predicate NameOk(n: Name) { |n| == NAME_SIZE && n[0] != 0 && n[0] != DOT }

  function ItemCount(f: Folder): nat { |f.folders| + |f.files| }

  predicate Placed(dirs: Tree, i: int, k: int)
    requires 0 <= i < |dirs| && 0 <= k < |dirs[i].folders|
  {
    i < dirs[i].folders[k] < |dirs| && dirs[dirs[i].folders[k]].parent == i && NameOk(dirs[dirs[i].folders[k]].name)
  }

  predicate FilesOk(fs: seq<File>) {
    forall j :: 0 <= j < |fs| ==> NameOk(fs[j].name) && |fs[j].contents| < WORD_LIMIT
  }

  predicate Links(dirs: Tree, i: int)
    requires 0 <= i < |dirs|
  {
    && (forall k :: 0 <= k < |dirs[i].folders| ==> Placed(dirs, i, k))
    && ItemCount(dirs[i]) <= MAX_ENTRIES && FilesOk(dirs[i].files) && (i > 0 ==> 0 <= dirs[i].parent < i)
  }

  /** The k-th name of a directory: folders first, then files. */
  function ItemName(dirs: Tree, i: int, k: int): Name
    requires 0 <= i < |dirs| && Links(dirs, i) && 0 <= k < ItemCount(dirs[i])
  {
    var f := dirs[i];
    if k < |f.folders| then assert Placed(dirs, i, k); dirs[f.folders[k]].name else f.files[k - |f.folders|].name
  }

  ghost predicate NamesDiffer(dirs: Tree, i: int)
    requires 0 <= i < |dirs| && Links(dirs, i)
  {
    forall a, b :: 0 <= a < b < ItemCount(dirs[i]) ==> ItemName(dirs, i, a) != ItemName(dirs, i, b)
  }

  ghost predicate FolderOk(dirs: Tree, i: int)
    requires 0 <= i < |dirs|
  {
    Links(dirs, i) && NamesDiffer(dirs, i)
  }

  ghost predicate IsTree(dirs: Tree) {
    |dirs| > 0 && forall i {:trigger FolderOk(dirs, i)} :: 0 <= i < |dirs| ==> FolderOk(dirs, i)
  }

  /** The position of a name in a directory, from k on; or -1. */
  function FindItem(dirs: Tree, i: int, name: Name, k: nat): (m: int)
    requires 0 <= i < |dirs| && Links(dirs, i) && k <= ItemCount(dirs[i])
    ensures m == -1 || (k <= m < ItemCount(dirs[i]) && ItemName(dirs, i, m) == name)
    ensures m == -1 ==> forall j :: k <= j < ItemCount(dirs[i]) ==> ItemName(dirs, i, j) != name
    decreases ItemCount(dirs[i]) - k
  {
    if k == ItemCount(dirs[i]) then -1
    else if ItemName(dirs, i, k) == name then k
    else FindItem(dirs, i, name, k + 1)
  }

  /** The file a path leads to in the tree itself. */
  ghost function Lookup(dirs: Tree, i: int, path: seq<Name>): Option<seq<Byte>>
    requires IsTree(dirs) && 0 <= i < |dirs| && |path| > 0
    decreases |path|
  {
    assert FolderOk(dirs, i);
    var f, k := dirs[i], FindItem(dirs, i, path[0], 0);
    if k < 0 then None
    else if k < |f.folders| then
      assert Placed(dirs, i, k);
      if |path| == 1 then None else Lookup(dirs, f.folders[k], path[1..])
    else if |path| == 1 then Some(f.files[k - |f.folders|].contents) else None
  }

  /** Every directory below the root is listed by its parent. */
  ghost predicate Connected(dirs: Tree)
    requires IsTree(dirs)
  {
    forall i {:trigger FolderOk(dirs, i)} :: 0 < i < |dirs| && FolderOk(dirs, i) ==> i in dirs[dirs[i].parent].folders
  }

  /** The names on the way from the root to directory i. */
  ghost function PathTo(dirs: Tree, i: int): seq<Name>
    requires IsTree(dirs) && 0 <= i < |dirs|
  {
    assert FolderOk(dirs, i);
    if i == 0 then [] else PathTo(dirs, dirs[i].parent) + [dirs[i].name]
  }

  lemma ItemUnique(dirs: Tree, i: int, a: int, b: int)
    requires 0 <= i < |dirs| && FolderOk(dirs, i) && 0 <= a < ItemCount(dirs[i]) && 0 <= b < ItemCount(dirs[i])
    requires ItemName(dirs, i, a) == ItemName(dirs, i, b)
    ensures a == b
  {
  }

  lemma FindsItem(dirs: Tree, i: int, k: nat)
    requires 0 <= i < |dirs| && FolderOk(dirs, i) && k < ItemCount(dirs[i])
    ensures FindItem(dirs, i, ItemName(dirs, i, k), 0) == k
  {
    ItemUnique(dirs, i, FindItem(dirs, i, ItemName(dirs, i, k), 0), k);
  }

  /** Following the names to a directory leads there. */
  lemma {:induction false} LookupFrom(dirs: Tree, i: int, rest: seq<Name>)
    requires IsTree(dirs) && Connected(dirs) && 0 <= i < |dirs| && |rest| > 0
    ensures Lookup(dirs, 0, PathTo(dirs, i) + rest) == Lookup(dirs, i, rest)
  {
    assert FolderOk(dirs, i);
    if i == 0 {
      assert PathTo(dirs, 0) + rest == rest;
    } else {
      var above, name := dirs[i].parent, dirs[i].name;
      assert FolderOk(dirs, above);
      var k :| 0 <= k < |dirs[above].folders| && dirs[above].folders[k] == i;
      assert PathTo(dirs, i) + rest == PathTo(dirs, above) + ([name] + rest);
      LookupFrom(dirs, above, [name] + rest);
      FindsItem(dirs, above, k);
      assert ([name] + rest)[1..] == rest;
    }
  }

  /** Different directories have different paths. */
  lemma {:induction false} PathsDiffer(dirs: Tree, i: int, k: int)
    requires IsTree(dirs) && Connected(dirs) && 0 <= i < |dirs| && 0 <= k < |dirs| && PathTo(dirs, i) == PathTo(dirs, k)
    ensures i == k
    decreases i
  {
    assert FolderOk(dirs, i) && FolderOk(dirs, k);
    if i > 0 && k > 0 {
      var p, q := PathTo(dirs, dirs[i].parent), PathTo(dirs, dirs[k].parent);
      assert PathTo(dirs, i)[..|p|] == p && PathTo(dirs, k)[..|q|] == q;
      PathsDiffer(dirs, dirs[i].parent, dirs[k].parent);
      assert PathTo(dirs, i)[|p|] == dirs[i].name && PathTo(dirs, k)[|p|] == dirs[k].name;
      SameChild(dirs, i, k);
    }
  }

  lemma SameChild(dirs: Tree, i: int, k: int)
    requires IsTree(dirs) && Connected(dirs) && 0 < i < |dirs| && 0 < k < |dirs|
    requires dirs[i].parent == dirs[k].parent && dirs[i].name == dirs[k].name
    ensures i == k
  {
    assert FolderOk(dirs, i) && FolderOk(dirs, k);
    var above := dirs[i].parent;
    assert FolderOk(dirs, above);
    var a :| 0 <= a < |dirs[above].folders| && dirs[above].folders[a] == i;
    var b :| 0 <= b < |dirs[above].folders| && dirs[above].folders[b] == k;
    ItemUnique(dirs, above, a, b);
  }

  /** The names that lead to file j of directory i. */
  ghost function FilePath(dirs: Tree, i: int, j: int): (path: seq<Name>)
    requires IsTree(dirs) && 0 <= i < |dirs| && 0 <= j < |dirs[i].files|
    ensures |path| > 0
  {
    PathTo(dirs, i) + [dirs[i].files[j].name]
  }

  /** Different files have different paths. */
  lemma FilePathsDiffer(dirs: Tree, i: int, j: int, k: int, l: int)
    requires IsTree(dirs) && Connected(dirs) && 0 <= i < |dirs| && 0 <= j < |dirs[i].files|
    requires 0 <= k < |dirs| && 0 <= l < |dirs[k].files| && FilePath(dirs, i, j) == FilePath(dirs, k, l)
    ensures i == k && j == l
  {
    var p, q := PathTo(dirs, i), PathTo(dirs, k);
    assert FilePath(dirs, i, j)[..|p|] == p && FilePath(dirs, k, l)[..|q|] == q;
    PathsDiffer(dirs, i, k);
    assert FilePath(dirs, i, j)[|p|] == dirs[i].files[j].name && FilePath(dirs, k, l)[|p|] == dirs[k].files[l].name;
    assert FolderOk(dirs, i);
    ItemUnique(dirs, i, |dirs[i].folders| + j, |dirs[i].folders| + l);
  }

  /** Every file is found under the names that lead to it. */
  lemma LookupFile(dirs: Tree, i: int, j: int)
    requires IsTree(dirs) && Connected(dirs) && 0 <= i < |dirs| && 0 <= j < |dirs[i].files|
    ensures Lookup(dirs, 0, FilePath(dirs, i, j)) == Some(dirs[i].files[j].contents)
  {
    assert FolderOk(dirs, i);
    LookupFrom(dirs, i, [dirs[i].files[j].name]);
    FindsItem(dirs, i, |dirs[i].folders| + j);
  }

  /** Whatever is found under a path is the file that the path leads to. */
  lemma {:induction false} LookupIsFile(dirs: Tree, i: int, path: seq<Name>) returns (k: int, j: int)
    requires IsTree(dirs) && Connected(dirs) && 0 <= i < |dirs| && |path| > 0 && Lookup(dirs, i, path).Some?
    ensures 0 <= k < |dirs| && 0 <= j < |dirs[k].files| && Lookup(dirs, i, path) == Some(dirs[k].files[j].contents)
    ensures PathTo(dirs, i) + path == FilePath(dirs, k, j)
    decreases |path|
  {
    assert FolderOk(dirs, i);
    var f, m := dirs[i], FindItem(dirs, i, path[0], 0);
    if m < |f.folders| {
      assert Placed(dirs, i, m);
      var c := f.folders[m];
      k, j := LookupIsFile(dirs, c, path[1..]);
      assert FolderOk(dirs, c);
      assert PathTo(dirs, i) + path == PathTo(dirs, c) + path[1..];
    } else {
      k, j := i, m - |f.folders|;
      assert path == [path[0]];
    }
  }

  lemma {:induction false} PathToOk(dirs: Tree, i: int)
    requires IsTree(dirs) && Connected(dirs) && 0 <= i < |dirs|
    ensures forall k :: 0 <= k < |PathTo(dirs, i)| ==> NameOk(PathTo(dirs, i)[k])
  {
    assert FolderOk(dirs, i);
    if i > 0 {
      var above := dirs[i].parent;
      assert FolderOk(dirs, above);
      PathToOk(dirs, above);
      var k :| 0 <= k < |dirs[above].folders| && dirs[above].folders[k] == i;
      assert Placed(dirs, above, k);
    }
  }

  // ----- Directory tables

  const DOT_NAME: Name := [46, 32, 32, 32, 32, 32, 32, 32, 32, 32, 32]
  const DOTDOT_NAME: Name := [46, 46, 32, 32, 32, 32, 32, 32, 32, 32, 32]

  /** The first cluster of every directory and of every file; the root has none. */
  datatype Layout = Layout(folders: seq<nat>, files: seq<seq<nat>>)

  predicate Fits(layout: Layout, dirs: Tree) {
    && |layout.folders| == |dirs| && |layout.files| == |dirs|
    && forall i :: 0 <= i < |dirs| ==> |layout.files[i]| == |dirs[i].files|
  }

  function ItemEntry(dirs: Tree, layout: Layout, i: int, k: int): DirEntry
    requires Fits(layout, dirs) && 0 <= i < |dirs| && Links(dirs, i) && 0 <= k < ItemCount(dirs[i])
  {
    var f := dirs[i];
    if k < |f.folders| then
      assert Placed(dirs, i, k);
      var c := f.folders[k];
      DirEntry(dirs[c].name, DIRECTORY, dirs[c].ntCase, layout.folders[c], 0)
    else
      var j := k - |f.folders|;
      DirEntry(f.files[j].name, ARCHIVE, f.files[j].ntCase, layout.files[i][j], |f.files[j].contents|)
  }

  function DotEntries(dirs: Tree, layout: Layout, i: int): seq<DirEntry>
    requires Fits(layout, dirs) && 0 <= i < |dirs| && Links(dirs, i)
  {
    if i == 0 then [] else
      var above := if dirs[i].parent == 0 then 0 else layout.folders[dirs[i].parent];
      [DirEntry(DOT_NAME, DIRECTORY, 0, layout.folders[i], 0), DirEntry(DOTDOT_NAME, DIRECTORY, 0, above, 0)]
  }

  /** The entries of one directory as they are stored. */
  function Entries(dirs: Tree, layout: Layout, i: int): (es: seq<DirEntry>)
    requires Fits(layout, dirs) && 0 <= i < |dirs| && Links(dirs, i)
    ensures |es| == |DotEntries(dirs, layout, i)| + ItemCount(dirs[i])
  {
    DotEntries(dirs, layout, i)
    + seq(ItemCount(dirs[i]), k requires 0 <= k < ItemCount(dirs[i]) => ItemEntry(dirs, layout, i, k))
  }

  // ----- Paths

  predicate PathOk(path: seq<Name>) { |path| > 0 && forall k :: 0 <= k < |path| ==> NameOk(path[k]) }

  lemma EntryOfItem(dirs: Tree, layout: Layout, i: int, k: nat)
    requires Fits(layout, dirs) && 0 <= i < |dirs| && Links(dirs, i) && k < ItemCount(dirs[i])
    ensures Entries(dirs, layout, i)[|DotEntries(dirs, layout, i)| + k] == ItemEntry(dirs, layout, i, k)
    ensures ItemEntry(dirs, layout, i, k).name == ItemName(dirs, i, k) && NameOk(ItemName(dirs, i, k))
  {
    if k < |dirs[i].folders| {
      assert Placed(dirs, i, k);
    }
  }

  lemma DotNamed(dirs: Tree, layout: Layout, i: int, m: nat)
    requires Fits(layout, dirs) && 0 <= i < |dirs| && Links(dirs, i) && m < |DotEntries(dirs, layout, i)|
    ensures |Entries(dirs, layout, i)[m].name| == NAME_SIZE && Entries(dirs, layout, i)[m].name[0] == DOT
  {
    assert Entries(dirs, layout, i)[m] == DotEntries(dirs, layout, i)[m];
  }

  /** The stored entry with an item's name is that item's. */
  lemma EntryNamed(dirs: Tree, layout: Layout, i: int, name: Name, m: nat)
    requires Fits(layout, dirs) && 0 <= i < |dirs| && FolderOk(dirs, i) && NameOk(name) && m < |Entries(dirs, layout, i)|
    requires Entries(dirs, layout, i)[m].name == name
    ensures |DotEntries(dirs, layout, i)| <= m && FindItem(dirs, i, name, 0) == m - |DotEntries(dirs, layout, i)|
    ensures Entries(dirs, layout, i)[m] == ItemEntry(dirs, layout, i, FindItem(dirs, i, name, 0))
  {
    var dots := |DotEntries(dirs, layout, i)|;
    if m < dots {
      DotNamed(dirs, layout, i, m);
    } else {
      EntryOfItem(dirs, layout, i, m - dots);
      ItemUnique(dirs, i, FindItem(dirs, i, name, 0), m - dots);
    }
  }

  lemma ItemIsNamed(dirs: Tree, layout: Layout, i: int, k: nat)
    requires Fits(layout, dirs) && 0 <= i < |dirs| && Links(dirs, i) && k < ItemCount(dirs[i])
    ensures Named(Entries(dirs, layout, i), ItemName(dirs, i, k), 0)
  {
    EntryOfItem(dirs, layout, i, k);
    assert Entries(dirs, layout, i)[|DotEntries(dirs, layout, i)| + k].name == ItemName(dirs, i, k);
  }

  lemma EntriesNamed(dirs: Tree, layout: Layout, i: int)
    requires Fits(layout, dirs) && 0 <= i < |dirs| && Links(dirs, i)
    ensures forall k :: 0 <= k < |Entries(dirs, layout, i)| ==>
      |Entries(dirs, layout, i)[k].name| == NAME_SIZE && Entries(dirs, layout, i)[k].name[0] != 0
  {
    var dots := |DotEntries(dirs, layout, i)|;
    forall k | 0 <= k < |Entries(dirs, layout, i)|
      ensures |Entries(dirs, layout, i)[k].name| == NAME_SIZE && Entries(dirs, layout, i)[k].name[0] != 0
    {
      if k < dots {
        DotNamed(dirs, layout, i, k);
      } else {
        EntryOfItem(dirs, layout, i, k - dots);
      }
    }
  }

  /** Searching a stored directory table is searching the directory. */
  lemma FindIsFindItem(table: seq<Byte>, dirs: Tree, layout: Layout, i: int, name: Name)
    requires Fits(layout, dirs) && 0 <= i < |dirs| && FolderOk(dirs, i) && NameOk(name)
    requires Lists(table, Entries(dirs, layout, i))
    ensures var m, k := Find(table, name, 0), FindItem(dirs, i, name, 0);
      if k < 0 then m == -1
      else m >= 0 && Occupied(table, m) && DecodeAt(table, m) == ItemEntry(dirs, layout, i, k)
  {
    EntriesNamed(dirs, layout, i);
    FindListed(table, Entries(dirs, layout, i), name);
    var k := FindItem(dirs, i, name, 0);
    if Named(Entries(dirs, layout, i), name, 0) {
      EntryNamed(dirs, layout, i, name, Find(table, name, 0));
    } else if k >= 0 {
      ItemIsNamed(dirs, layout, i, k);
    }
  }

  /** One step of a path, through a table that stores directory i. */
  lemma ResolveStep(read: Reader, table: seq<Byte>, dirs: Tree, layout: Layout, i: int, path: seq<Name>)
    requires Fits(layout, dirs) && 0 <= i < |dirs| && FolderOk(dirs, i) && PathOk(path)
    requires Lists(table, Entries(dirs, layout, i))
    ensures var f, k := dirs[i], FindItem(dirs, i, path[0], 0);
      Resolve(read, table, path) ==
      if k < 0 then None
      else if k < |f.folders| then
        assert Placed(dirs, i, k);
        if |path| == 1 then None else Resolve(read, read(layout.folders[f.folders[k]]), path[1..])
      else if |path| == 1 then Some(ReadFile(read, ItemEntry(dirs, layout, i, k))) else None
  {
    FindIsFindItem(table, dirs, layout, i, path[0]);
  }

  // ----- A stored tree

  function TableOf(read: Reader, root: seq<Byte>, layout: Layout, i: int): seq<Byte>
    requires 0 <= i < |layout.folders|
  {
    if i == 0 then root else read(layout.folders[i])
  }

  /** The reader finds the entries of directory i. */
  ghost predicate TableStored(read: Reader, root: seq<Byte>, dirs: Tree, layout: Layout, i: int)
    requires Fits(layout, dirs) && 0 <= i < |dirs| && Links(dirs, i)
  {
    Lists(TableOf(read, root, layout, i), Entries(dirs, layout, i))
  }

  /** The reader finds the bytes of file j of directory i. */
  ghost predicate FileStored(read: Reader, dirs: Tree, layout: Layout, i: int, j: int)
    requires Fits(layout, dirs) && 0 <= i < |dirs| && 0 <= j < |dirs[i].files|
  {
    var bytes, contents := read(layout.files[i][j]), dirs[i].files[j].contents;
    |contents| <= |bytes| && bytes[..|contents|] == contents
  }

  ghost predicate Stored(read: Reader, root: seq<Byte>, dirs: Tree, layout: Layout)
    requires IsTree(dirs) && Fits(layout, dirs)
  {
    && (forall i {:trigger TableStored(read, root, dirs, layout, i)} :: 0 <= i < |dirs| && FolderOk(dirs, i) ==>
          TableStored(read, root, dirs, layout, i))
    && (forall i, j {:trigger FileStored(read, dirs, layout, i, j)} :: 0 <= i < |dirs| && 0 <= j < |dirs[i].files| ==>
          FileStored(read, dirs, layout, i, j))
  }

  /** A reader of a stored tree finds under every path exactly what the tree has there. */
  lemma {:induction false} ResolveIsLookup(read: Reader, root: seq<Byte>, dirs: Tree, layout: Layout,
                                           i: int, path: seq<Name>)
    requires IsTree(dirs) && Fits(layout, dirs) && Stored(read, root, dirs, layout) && 0 <= i < |dirs| && PathOk(path)
    ensures Resolve(read, TableOf(read, root, layout, i), path) == Lookup(dirs, i, path)
    decreases |path|
  {
    assert FolderOk(dirs, i) && TableStored(read, root, dirs, layout, i);
    ResolveStep(read, TableOf(read, root, layout, i), dirs, layout, i, path);
    var f, k := dirs[i], FindItem(dirs, i, path[0], 0);
    if 0 <= k < |f.folders| {
      assert Placed(dirs, i, k);
      if |path| > 1 {
        ResolveIsLookup(read, root, dirs, layout, f.folders[k], path[1..]);
      }
    } else if k >= 0 && |path| == 1 {
      assert FileStored(read, dirs, layout, i, k - |f.folders|);
    }
  }

  // ----- Entries on the way

  /** Following the names to a directory, a reader gets to its table. */
  lemma {:induction false} EntryFrom(read: Reader, root: seq<Byte>, dirs: Tree, layout: Layout, i: int, rest: seq<Name>)
    requires IsTree(dirs) && Connected(dirs) && Fits(layout, dirs) && Stored(read, root, dirs, layout)
    requires 0 <= i < |dirs| && PathOk(rest)
    ensures EntryOn(read, root, PathTo(dirs, i) + rest) == EntryOn(read, TableOf(read, root, layout, i), rest)
  {
    assert FolderOk(dirs, i);
    if i == 0 {
      assert PathTo(dirs, 0) + rest == rest;
    } else {
      var above, name := dirs[i].parent, dirs[i].name;
      assert FolderOk(dirs, above);
      var k :| 0 <= k < |dirs[above].folders| && dirs[above].folders[k] == i;
      assert Placed(dirs, above, k);
      assert PathTo(dirs, i) + rest == PathTo(dirs, above) + ([name] + rest);
      EntryFrom(read, root, dirs, layout, above, [name] + rest);
      ItemFound(read, root, dirs, layout, above, k);
      assert ([name] + rest)[1..] == rest;
    }
  }

  lemma ItemFound(read: Reader, root: seq<Byte>, dirs: Tree, layout: Layout, i: int, k: nat)
    requires IsTree(dirs) && Fits(layout, dirs) && Stored(read, root, dirs, layout)
    requires 0 <= i < |dirs| && FolderOk(dirs, i) && k < ItemCount(dirs[i])
    ensures var table := TableOf(read, root, layout, i);
      var m := Find(table, ItemName(dirs, i, k), 0);
      m >= 0 && Occupied(table, m) && DecodeAt(table, m) == ItemEntry(dirs, layout, i, k)
  {
    assert TableStored(read, root, dirs, layout, i);
    EntryOfItem(dirs, layout, i, k);
    FindIsFindItem(TableOf(read, root, layout, i), dirs, layout, i, ItemName(dirs, i, k));
    FindsItem(dirs, i, k);
  }

  /** Under the names that lead to an item a reader finds its entry. */
  lemma EntryOnItem(read: Reader, root: seq<Byte>, dirs: Tree, layout: Layout, i: int, k: nat)
    requires IsTree(dirs) && Connected(dirs) && Fits(layout, dirs) && Stored(read, root, dirs, layout)
    requires 0 <= i < |dirs| && FolderOk(dirs, i) && k < ItemCount(dirs[i])
    ensures EntryOn(read, root, PathTo(dirs, i) + [ItemName(dirs, i, k)]) == Some(ItemEntry(dirs, layout, i, k))
  {
    EntryOfItem(dirs, layout, i, k);
    EntryFrom(read, root, dirs, layout, i, [ItemName(dirs, i, k)]);
    ItemFound(read, root, dirs, layout, i, k);
  }

  /** The entry of a directory below the root. */
  lemma FolderEntry(read: Reader, root: seq<Byte>, dirs: Tree, layout: Layout, i: int)
    requires IsTree(dirs) && Connected(dirs) && Fits(layout, dirs) && Stored(read, root, dirs, layout) && 0 < i < |dirs|
    ensures EntryOn(read, root, PathTo(dirs, i))
         == Some(DirEntry(dirs[i].name, 0x10, dirs[i].ntCase, layout.folders[i], 0))
  {
    assert FolderOk(dirs, i);
    var above := dirs[i].parent;
    assert FolderOk(dirs, above);
    var k :| 0 <= k < |dirs[above].folders| && dirs[above].folders[k] == i;
    EntryOnItem(read, root, dirs, layout, above, k);
  }

  /** The entry of a file. */
  lemma FileEntry(read: Reader, root: seq<Byte>, dirs: Tree, layout: Layout, i: int, j: int)
    requires IsTree(dirs) && Connected(dirs) && Fits(layout, dirs) && Stored(read, root, dirs, layout)
    requires 0 <= i < |dirs| && 0 <= j < |dirs[i].files|
    ensures var f := dirs[i].files[j];
      EntryOn(read, root, FilePath(dirs, i, j))
      == Some(DirEntry(f.name, 0x20, f.ntCase, layout.files[i][j], |f.contents|))
  {
    assert FolderOk(dirs, i);
    EntryOnItem(read, root, dirs, layout, i, |dirs[i].folders| + j);
  }

  /** The first two entries of a directory below the root: one leads to itself, one to the directory above. */
  lemma DotsRead(read: Reader, root: seq<Byte>, dirs: Tree, layout: Layout, i: int)
    requires IsTree(dirs) && Fits(layout, dirs) && Stored(read, root, dirs, layout) && 0 < i < |dirs|
    ensures FolderOk(dirs, i)
    ensures var table := read(layout.folders[i]);
      && |table| >= 64
      && DecodeAt(table, 0) == DirEntry(DOT_NAME, 0x10, 0, layout.folders[i], 0)
      && DecodeAt(table, 1)
         == DirEntry(DOTDOT_NAME, 0x10, 0, if dirs[i].parent == 0 then 0 else layout.folders[dirs[i].parent], 0)
  {
    assert FolderOk(dirs, i) && TableStored(read, root, dirs, layout, i);
    var table, entries := read(layout.folders[i]), Entries(dirs, layout, i);
    assert entries[0] == DotEntries(dirs, layout, i)[0] && entries[1] == DotEntries(dirs, layout, i)[1];
    DecodeEncode(table, 0, entries[0]);
    DecodeEncode(table, 1, entries[1]);
  }
}
