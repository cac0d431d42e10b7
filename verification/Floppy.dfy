/** The floppy image builder: boot extents, volume parameters, FAT, directory tables and files. */
module Floppy {
  import opened Bytes
  import opened Numbers
  import opened Fat12
  import opened FloppyReader
  import opened FloppyTree
  import opened FloppyVolume

  const MANIFEST_LBA := 1
  const STAGE2_LBA := 2
  const STAGE2_MAX_SECTORS := 64
  const KERNEL_LBA := 129
  const JOURNAL_SECTORS := 195
  const REMAP_OFFSET := 130
  const FAT_SIZE := FAT_SECTORS * SECTOR_SIZE
  const VOLUME_ID := 0x5245_4953
  const LABEL: seq<Byte> := [0x52, 0x45, 0x49, 0x53, 0x54, 0x31, 0x32, 0x20]

  // ----- Writing pieces

  /** A slice that ends with the data. */
  function Chunk(bytes: seq<Byte>, from: nat): (c: seq<Byte>)
    ensures |c| <= SECTOR_SIZE
  {
    if from >= |bytes| then []
    else if from + SECTOR_SIZE <= |bytes| then bytes[from..from + SECTOR_SIZE]
    else bytes[from..]
  }

  lemma ChunkAppends(image: seq<Byte>, at: int, bytes: seq<Byte>, from: nat)
    requires At(image, at, bytes[..Min(from, |bytes|)]) && At(image, at + from, Chunk(bytes, from))
    ensures At(image, at, bytes[..Min(from + SECTOR_SIZE, |bytes|)])
  {
    if from < |bytes| {
      var to := Min(from + SECTOR_SIZE, |bytes|);
      assert bytes[..to] == bytes[..from] + Chunk(bytes, from);
      assert image[at..at + to] == image[at..at + from] + image[at + from..at + to];
    }
  }

  lemma ChunkStored(initial: seq<Byte>, before: seq<Byte>, after: seq<Byte>, at: int, bytes: seq<Byte>, from: nat)
    requires At(before, at, bytes[..Min(from, |bytes|)]) && At(after, at + from, Chunk(bytes, from))
    requires SameOutside(initial, before, at, at + from)
    requires SameOutside(before, after, at + from, at + from + |Chunk(bytes, from)|)
    ensures At(after, at, bytes[..Min(from + SECTOR_SIZE, |bytes|)])
    ensures SameOutside(initial, after, at, at + from + SECTOR_SIZE)
  {
    AtKept(before, after, at + from, at + from + |Chunk(bytes, from)|, at, bytes[..Min(from, |bytes|)]);
    ChunkAppends(after, at, bytes, from);
    SameTwice(initial, before, after, at, at + from, at + from, at + from + |Chunk(bytes, from)|);
  }

  /** Writes an object sector by sector over its clusters. */
  method StoreObject(image: array<Byte>, at: int, bytes: seq<Byte>, count: nat)
    requires 0 <= at && at + SECTOR_SIZE * count <= image.Length && |bytes| <= SECTOR_SIZE * count
    modifies image
    ensures At(image[..], at, bytes) && SameOutside(old(image[..]), image[..], at, at + SECTOR_SIZE * count)
  {
    var index := 0;
    ghost var from := 0;
    while index < count
      invariant 0 <= index <= count && from == SECTOR_SIZE * index
      invariant SameOutside(old(image[..]), image[..], at, at + from) && At(image[..], at, bytes[..Min(from, |bytes|)])
    {
      ghost var before := image[..];
      Blit(image, at + SECTOR_SIZE * index, Chunk(bytes, SECTOR_SIZE * index));
      ChunkStored(old(image[..]), before, image[..], at, bytes, from);
      index, from := index + 1, from + SECTOR_SIZE;
    }
    assert bytes[..Min(from, |bytes|)] == bytes;
  }

  /** A directory table: the entries, then zeros. */
  method MakeTable(entries: seq<DirEntry>, size: nat) returns (table: seq<Byte>)
    requires ENTRY_SIZE * |entries| <= size && forall k :: 0 <= k < |entries| ==> Encodable(entries[k])
    ensures |table| == size && Lists(table, entries)
  {
    var target := new Byte[size](_ => 0);
    var index := 0;
    while index < |entries|
      invariant 0 <= index <= |entries|
      invariant forall k :: 0 <= k < index ==> At(target[..], ENTRY_SIZE * k, Encode(entries[k]))
      invariant forall b :: ENTRY_SIZE * index <= b < size ==> target[b] == 0
    {
      ghost var before := target[..];
      Blit(target, ENTRY_SIZE * index, Encode(entries[index]));
      forall k | 0 <= k < index ensures At(target[..], ENTRY_SIZE * k, Encode(entries[k])) {
        AtKept(before, target[..], ENTRY_SIZE * index, ENTRY_SIZE * (index + 1), ENTRY_SIZE * k, Encode(entries[k]));
      }
      index := index + 1;
    }
    table := target[..];
  }

  // ----- Clusters

  /** Gives every directory below the root, then every file, the next free clusters. */
  method AssignClusters(dirs: Tree) returns (layout: Layout, next: nat)
    requires |dirs| > 0
    ensures Assigned(dirs, layout) && next == End(dirs)
  {
    var folders, files;
    folders, next := AssignFolders(dirs);
    files, next := AssignRows(dirs, next);
    layout := Layout(folders, files);
    RowsFit(dirs, files);
  }

  lemma RowsFit(dirs: Tree, files: seq<seq<nat>>)
    requires |files| == |dirs| && AllRows(dirs, files, |dirs|)
    ensures forall i :: 0 <= i < |dirs| ==> |files[i]| == |dirs[i].files|
  {
    forall i | 0 <= i < |dirs| ensures |files[i]| == |dirs[i].files| {
      assert RowKept(dirs, files, i);
    }
  }

  method AssignRows(dirs: Tree, first: nat) returns (files: seq<seq<nat>>, next: nat)
    requires |dirs| > 0 && first == Start(dirs, |dirs| - 1)
    ensures |files| == |dirs| && next == End(dirs) && AllRows(dirs, files, |dirs|)
  {
    files, next := [], first;
    var i := 0;
    while i < |dirs|
      invariant 0 <= i <= |dirs| && |files| == i && AllRows(dirs, files, i)
      invariant RowStart(dirs, i) <= ObjectCount(dirs) && next == Start(dirs, RowStart(dirs, i))
    {
      var row;
      row, next := AssignFiles(dirs, i, next);
      OneMoreRow(dirs, files, row);
      files := files + [row];
      i := i + 1;
    }
  }

  method AssignFolders(dirs: Tree) returns (folders: seq<nat>, next: nat)
    requires |dirs| > 0
    ensures |folders| == |dirs| && next == Start(dirs, |dirs| - 1)
    ensures forall k :: 0 < k < |dirs| ==> folders[k] == Start(dirs, k - 1)
  {
    folders, next := [0], 2;
    var i := 1;
    while i < |dirs|
      invariant 1 <= i <= |dirs| && |folders| == i && next == Start(dirs, i - 1)
      invariant forall k :: 0 < k < i ==> folders[k] == Start(dirs, k - 1)
    {
      folders := folders + [next];
      var needed := CountClusters(FolderSize(dirs[i]));
      next := next + needed;
      i := i + 1;
    }
  }

  lemma RowGrows(dirs: Tree, row: seq<nat>, i: nat, j: nat, next: nat)
    requires i < |dirs| && j < |dirs[i].files| && RowAt(dirs, row, i, j)
    requires RowStart(dirs, i) + j + 1 <= ObjectCount(dirs) && next == Start(dirs, RowStart(dirs, i) + j)
    ensures RowAt(dirs, row + [next], i, j + 1)
  {
  }

  method AssignFiles(dirs: Tree, i: nat, first: nat) returns (row: seq<nat>, next: nat)
    requires i < |dirs| && RowStart(dirs, i) <= ObjectCount(dirs)
    requires first == Start(dirs, RowStart(dirs, i))
    ensures RowAt(dirs, row, i, |dirs[i].files|)
    ensures RowStart(dirs, i + 1) <= ObjectCount(dirs)
    ensures next == Start(dirs, RowStart(dirs, i + 1))
  {
    RowEnds(dirs, i);
    row, next := [], first;
    var j := 0;
    while j < |dirs[i].files|
      invariant 0 <= j <= |dirs[i].files| && RowAt(dirs, row, i, j)
      invariant RowStart(dirs, i) + j <= ObjectCount(dirs)
      invariant next == Start(dirs, RowStart(dirs, i) + j)
    {
      RowGrows(dirs, row, i, j, next);
      row := row + [next];
      NextFile(dirs, i, j);
      var needed := CountClusters(|dirs[i].files[j].contents|);
      next := next + needed;
      j := j + 1;
    }
  }

  /** Entries of clusters that belong to no object so far are as they were. */
  ghost predicate OthersKept(before: seq<Byte>, after: seq<Byte>, to: nat) {
    to >= 2 && KeptOutside(before, after, 2, to - 2)
  }

  lemma KeptFurther(a: seq<Byte>, b: seq<Byte>, c: seq<Byte>, to: nat, count: nat)
    requires OthersKept(a, b, to) && KeptOutside(b, c, to, count)
    ensures OthersKept(a, c, to + count)
  {
    forall d: nat | !(2 <= d < to + count) && InTable(c, d) ensures EntryAt(c, d) == EntryAt(a, d) {
      assert InTable(b, d);
    }
  }

  /** Links the chain of object k, behind all those linked before. */
  method LinkObject(fat: array<Byte>, dirs: Tree, ghost initial: seq<Byte>, ghost k: nat, first: nat, count: nat)
    requires |dirs| > 0 && k < ObjectCount(dirs) && first == Start(dirs, k) && count == Clusters(dirs, k)
    requires fat.Length == FAT_SIZE && End(dirs) <= CLUSTER_LIMIT
    requires AllLinked(fat[..], dirs, k) && OthersKept(initial, fat[..], Start(dirs, k))
    modifies fat
    ensures AllLinked(fat[..], dirs, k + 1) && OthersKept(initial, fat[..], Start(dirs, k + 1))
  {
    StartsGrow(dirs, k, ObjectCount(dirs));
    ghost var before := fat[..];
    LinkChain(fat, first, count);
    forall o | 0 <= o < k + 1 ensures ObjectLinked(fat[..], dirs, o) {
      if o < k {
        StartsGrow(dirs, o, k);
        assert ObjectLinked(before, dirs, o);
        LinkedKept(before, fat[..], Start(dirs, o), Clusters(dirs, o), first, count);
      }
    }
    KeptFurther(initial, before, fat[..], first, count);
  }

  /** Links all chains; the reserved entries and those of free clusters stay as they are. */
  method LinkAll(fat: array<Byte>, dirs: Tree, layout: Layout)
    requires Assigned(dirs, layout) && fat.Length == FAT_SIZE && End(dirs) <= CLUSTER_LIMIT
    modifies fat
    ensures AllLinked(fat[..], dirs, ObjectCount(dirs)) && OthersKept(old(fat[..]), fat[..], End(dirs))
  {
    ghost var initial := fat[..];
    var i := 1;
    while i < |dirs|
      invariant 1 <= i <= |dirs| && AllLinked(fat[..], dirs, i - 1) && OthersKept(initial, fat[..], Start(dirs, i - 1))
    {
      LinkObject(fat, dirs, initial, i - 1, layout.folders[i], Needed(FolderSize(dirs[i])));
      i := i + 1;
    }
    i := 0;
    while i < |dirs|
      invariant 0 <= i <= |dirs| && RowStart(dirs, i) <= ObjectCount(dirs)
      invariant AllLinked(fat[..], dirs, RowStart(dirs, i))
      invariant OthersKept(initial, fat[..], Start(dirs, RowStart(dirs, i)))
    {
      assert RowKept(dirs, layout.files, i);
      LinkFiles(fat, dirs, layout.files[i], initial, i);
      i := i + 1;
    }
  }

  method LinkFile(fat: array<Byte>, dirs: Tree, row: seq<nat>, ghost initial: seq<Byte>, i: nat, j: nat, ghost k: nat)
    requires i < |dirs| && RowAt(dirs, row, i, |dirs[i].files|) && fat.Length == FAT_SIZE && End(dirs) <= CLUSTER_LIMIT
    requires j < |dirs[i].files| && k == RowStart(dirs, i) + j
    requires AllLinked(fat[..], dirs, k) && OthersKept(initial, fat[..], Start(dirs, k))
    modifies fat
    ensures k < ObjectCount(dirs) && AllLinked(fat[..], dirs, k + 1)
    ensures OthersKept(initial, fat[..], Start(dirs, k + 1))
  {
    NextFile(dirs, i, j);
    LinkObject(fat, dirs, initial, k, row[j], Needed(|dirs[i].files[j].contents|));
  }

  method LinkFiles(fat: array<Byte>, dirs: Tree, row: seq<nat>, ghost initial: seq<Byte>, i: nat)
    requires i < |dirs| && RowAt(dirs, row, i, |dirs[i].files|) && fat.Length == FAT_SIZE && End(dirs) <= CLUSTER_LIMIT
    requires AllLinked(fat[..], dirs, RowStart(dirs, i))
    requires OthersKept(initial, fat[..], Start(dirs, RowStart(dirs, i)))
    modifies fat
    ensures RowStart(dirs, i + 1) <= ObjectCount(dirs)
    ensures AllLinked(fat[..], dirs, RowStart(dirs, i + 1))
    ensures OthersKept(initial, fat[..], Start(dirs, RowStart(dirs, i + 1)))
  {
    RowEnds(dirs, i);
    ghost var k := RowStart(dirs, i);
    var j := 0;
    while j < |dirs[i].files|
      invariant 0 <= j <= |dirs[i].files| && k == RowStart(dirs, i) + j && k <= ObjectCount(dirs)
      invariant AllLinked(fat[..], dirs, k) && OthersKept(initial, fat[..], Start(dirs, k))
    {
      LinkFile(fat, dirs, row, initial, i, j, k);
      j, k := j + 1, k + 1;
    }
    assert k == RowStart(dirs, i + 1);
  }

  // ----- Directories and files

  lemma StartSmall(dirs: Tree, k: nat)
    requires |dirs| > 0 && k < ObjectCount(dirs) && End(dirs) <= CLUSTER_LIMIT
    ensures Start(dirs, k) < 0x1_0000
  {
    StartsGrow(dirs, k, ObjectCount(dirs));
  }

  lemma ItemEncodable(dirs: Tree, layout: Layout, i: int, k: int)
    requires Assigned(dirs, layout) && End(dirs) <= CLUSTER_LIMIT && 0 <= i < |dirs| && Links(dirs, i)
    requires 0 <= k < ItemCount(dirs[i])
    ensures Encodable(ItemEntry(dirs, layout, i, k))
  {
    var f := dirs[i];
    if k < |f.folders| {
      assert Placed(dirs, i, k);
      StartSmall(dirs, f.folders[k] - 1);
    } else {
      FileAssigned(dirs, layout, i, k - |f.folders|);
      StartSmall(dirs, FileObject(dirs, i, k - |f.folders|));
    }
  }

  lemma EntriesEncodable(dirs: Tree, layout: Layout, i: int)
    requires Assigned(dirs, layout) && End(dirs) <= CLUSTER_LIMIT && 0 <= i < |dirs| && Links(dirs, i)
    ensures forall k :: 0 <= k < |Entries(dirs, layout, i)| ==> Encodable(Entries(dirs, layout, i)[k])
  {
    if i > 0 {
      StartSmall(dirs, i - 1);
      if dirs[i].parent > 0 {
        StartSmall(dirs, dirs[i].parent - 1);
      }
    }
    var dots := |DotEntries(dirs, layout, i)|;
    forall k | 0 <= k < |Entries(dirs, layout, i)| ensures Encodable(Entries(dirs, layout, i)[k]) {
      if k < dots {
        assert Entries(dirs, layout, i)[k] == DotEntries(dirs, layout, i)[k];
      } else {
        ItemEncodable(dirs, layout, i, k - dots);
      }
    }
  }

  /** Stores object k behind all those stored before. */
  method StoreNext(image: array<Byte>, reserved: nat, dirs: Tree, ghost initial: seq<Byte>, ghost data: seq<seq<Byte>>,
                   ghost k: nat, first: nat, count: nat, bytes: seq<Byte>)
    requires Roomy(dirs, reserved) && image.Length == FLOPPY_SIZE && k == |data| < ObjectCount(dirs)
    requires first == Start(dirs, k) && count == Clusters(dirs, k) && |bytes| <= SECTOR_SIZE * count
    requires AllAt(image[..], reserved, dirs, data, k)
    requires SameOutside(initial, image[..], DataAt(reserved, 2), DataAt(reserved, first))
    modifies image
    ensures AllAt(image[..], reserved, dirs, data + [bytes], k + 1)
    ensures SameOutside(initial, image[..], DataAt(reserved, 2), DataAt(reserved, Start(dirs, k + 1)))
  {
    StartsGrow(dirs, k, ObjectCount(dirs));
    ghost var before := image[..];
    StoreObject(image, DataAt(reserved, first), bytes, count);
    forall o | 0 <= o < k + 1 ensures ObjectAt(image[..], reserved, dirs, data + [bytes], o) {
      if o < k {
        StartsGrow(dirs, o, k);
        assert ObjectAt(before, reserved, dirs, data, o);
        AtKept(before, image[..], DataAt(reserved, first), DataAt(reserved, first + count),
               DataAt(reserved, Start(dirs, o)), data[o]);
      }
    }
    SameTwice(initial, before, image[..], DataAt(reserved, 2), DataAt(reserved, first),
              DataAt(reserved, first), DataAt(reserved, first + count));
  }

  /** Every folder so far has its table. */
  ghost predicate FolderBodies(dirs: Tree, layout: Layout, data: seq<seq<Byte>>, n: int)
    requires IsTree(dirs) && Fits(layout, dirs) && n <= |dirs| && n - 1 <= |data|
  {
    forall i {:trigger FolderBody(dirs, layout, data[i - 1], i)} :: 0 < i < n && FolderOk(dirs, i) ==>
      FolderBody(dirs, layout, data[i - 1], i)
  }

  /** Builds and stores the table of one directory below the root. */
  method StoreFolder(image: array<Byte>, reserved: nat, dirs: Tree, layout: Layout, ghost initial: seq<Byte>,
                     ghost data: seq<seq<Byte>>, i: nat)
    returns (ghost table: seq<Byte>)
    requires IsTree(dirs) && Assigned(dirs, layout) && Roomy(dirs, reserved) && image.Length == FLOPPY_SIZE
    requires 0 < i < |dirs| && |data| == i - 1 && AllAt(image[..], reserved, dirs, data, i - 1)
    requires SameOutside(initial, image[..], DataAt(reserved, 2), DataAt(reserved, Start(dirs, i - 1)))
    modifies image
    ensures FolderOk(dirs, i) && FolderBody(dirs, layout, table, i)
    ensures AllAt(image[..], reserved, dirs, data + [table], i)
    ensures SameOutside(initial, image[..], DataAt(reserved, 2), DataAt(reserved, Start(dirs, i)))
  {
    assert FolderOk(dirs, i);
    EntriesEncodable(dirs, layout, i);
    var count := Needed(FolderSize(dirs[i]));
    var target := MakeTable(Entries(dirs, layout, i), SECTOR_SIZE * count);
    StoreNext(image, reserved, dirs, initial, data, i - 1, layout.folders[i], count, target);
    table := target;
  }

  /** Builds all directory tables; stores all but the root's. */
  method StoreFolders(image: array<Byte>, reserved: nat, dirs: Tree, layout: Layout)
    returns (root: seq<Byte>, ghost data: seq<seq<Byte>>)
    requires IsTree(dirs) && Assigned(dirs, layout) && Roomy(dirs, reserved) && image.Length == FLOPPY_SIZE
    modifies image
    ensures FolderOk(dirs, 0) && |root| == ROOT_SECTORS * SECTOR_SIZE && Lists(root, Entries(dirs, layout, 0))
    ensures |data| == |dirs| - 1 && FolderBodies(dirs, layout, data, |dirs|)
    ensures AllAt(image[..], reserved, dirs, data, |dirs| - 1)
    ensures SameOutside(old(image[..]), image[..], DataAt(reserved, 2), DataAt(reserved, Start(dirs, |dirs| - 1)))
  {
    assert FolderOk(dirs, 0);
    EntriesEncodable(dirs, layout, 0);
    root := MakeTable(Entries(dirs, layout, 0), ROOT_SECTORS * SECTOR_SIZE);
    data := [];
    var i := 1;
    while i < |dirs|
      invariant 1 <= i <= |dirs| && |data| == i - 1 && FolderBodies(dirs, layout, data, i)
      invariant AllAt(image[..], reserved, dirs, data, i - 1)
      invariant SameOutside(old(image[..]), image[..], DataAt(reserved, 2), DataAt(reserved, Start(dirs, i - 1)))
    {
      ghost var table := StoreFolder(image, reserved, dirs, layout, old(image[..]), data, i);
      BodiesGrow(dirs, layout, data, table, i);
      data := data + [table];
      i := i + 1;
    }
  }

  lemma BodiesGrow(dirs: Tree, layout: Layout, data: seq<seq<Byte>>, table: seq<Byte>, i: nat)
    requires IsTree(dirs) && Fits(layout, dirs) && 0 < i < |dirs| && |data| == i - 1
    requires FolderBodies(dirs, layout, data, i) && FolderOk(dirs, i) && FolderBody(dirs, layout, table, i)
    ensures FolderBodies(dirs, layout, data + [table], i + 1)
  {
    var more := data + [table];
    forall k | 0 < k < i + 1 && FolderOk(dirs, k) ensures FolderBody(dirs, layout, more[k - 1], k) {
      if k < i {
        assert more[k - 1] == data[k - 1];
        assert FolderBody(dirs, layout, data[k - 1], k);
      }
    }
  }

  /** The files of directory i have their contents, in order. */
  ghost predicate RowBody(dirs: Tree, data: seq<seq<Byte>>, i: int)
    requires 0 <= i < |dirs|
  {
    var from := RowStart(dirs, i);
    from + |dirs[i].files| <= |data| && forall j :: 0 <= j < |dirs[i].files| ==> data[from + j] == dirs[i].files[j].contents
  }

  ghost predicate FileBodies(dirs: Tree, data: seq<seq<Byte>>, n: int)
    requires n <= |dirs|
  {
    forall i {:trigger RowBody(dirs, data, i)} :: 0 <= i < n ==> RowBody(dirs, data, i)
  }

  lemma BodyRowsGrow(dirs: Tree, data0: seq<seq<Byte>>, data: seq<seq<Byte>>, i: nat)
    requires i < |dirs| && FileBodies(dirs, data0, i) && |data0| <= |data| && data0 == data[..|data0|]
    requires RowBody(dirs, data, i)
    ensures FileBodies(dirs, data, i + 1)
  {
    forall k | 0 <= k < i ensures RowBody(dirs, data, k) {
      assert RowBody(dirs, data0, k);
    }
  }

  method StoreFiles(image: array<Byte>, reserved: nat, dirs: Tree, layout: Layout, ghost initial: seq<Byte>,
                    ghost data0: seq<seq<Byte>>)
    returns (ghost data: seq<seq<Byte>>)
    requires Assigned(dirs, layout) && Roomy(dirs, reserved) && image.Length == FLOPPY_SIZE
    requires |data0| == |dirs| - 1 && AllAt(image[..], reserved, dirs, data0, |dirs| - 1)
    requires SameOutside(initial, image[..], DataAt(reserved, 2), DataAt(reserved, Start(dirs, |dirs| - 1)))
    modifies image
    ensures |data| == ObjectCount(dirs) && data0 == data[..|dirs| - 1] && FileBodies(dirs, data, |dirs|)
    ensures AllAt(image[..], reserved, dirs, data, ObjectCount(dirs))
    ensures SameOutside(initial, image[..], DataAt(reserved, 2), DataAt(reserved, End(dirs)))
  {
    data := data0;
    var i := 0;
    while i < |dirs|
      invariant 0 <= i <= |dirs| && |data| == RowStart(dirs, i) <= ObjectCount(dirs)
      invariant data0 == data[..|dirs| - 1] && FileBodies(dirs, data, i)
      invariant AllAt(image[..], reserved, dirs, data, |data|)
      invariant SameOutside(initial, image[..], DataAt(reserved, 2), DataAt(reserved, Start(dirs, |data|)))
    {
      assert RowKept(dirs, layout.files, i);
      data := StoreFilesOf(image, reserved, dirs, layout.files[i], initial, data, i);
      i := i + 1;
    }
  }

  method StoreFilesOf(image: array<Byte>, reserved: nat, dirs: Tree, row: seq<nat>, ghost initial: seq<Byte>,
                      ghost data0: seq<seq<Byte>>, i: nat)
    returns (ghost data: seq<seq<Byte>>)
    requires i < |dirs| && RowAt(dirs, row, i, |dirs[i].files|)
    requires Roomy(dirs, reserved) && image.Length == FLOPPY_SIZE
    requires |data0| == RowStart(dirs, i) <= ObjectCount(dirs) && FileBodies(dirs, data0, i)
    requires AllAt(image[..], reserved, dirs, data0, |data0|)
    requires SameOutside(initial, image[..], DataAt(reserved, 2), DataAt(reserved, Start(dirs, |data0|)))
    modifies image
    ensures |data| == RowStart(dirs, i + 1) <= ObjectCount(dirs)
    ensures data0 == data[..|data0|] && FileBodies(dirs, data, i + 1)
    ensures AllAt(image[..], reserved, dirs, data, |data|)
    ensures SameOutside(initial, image[..], DataAt(reserved, 2), DataAt(reserved, Start(dirs, |data|)))
  {
    RowEnds(dirs, i);
    data := data0;
    var j := 0;
    while j < |dirs[i].files|
      invariant 0 <= j <= |dirs[i].files| && |data| == |data0| + j <= ObjectCount(dirs)
      invariant data0 == data[..|data0|]
      invariant forall k :: 0 <= k < j ==> data[|data0| + k] == dirs[i].files[k].contents
      invariant AllAt(image[..], reserved, dirs, data, |data|)
      invariant SameOutside(initial, image[..], DataAt(reserved, 2), DataAt(reserved, Start(dirs, |data|)))
    {
      var contents := dirs[i].files[j].contents;
      NextFile(dirs, i, j);
      StoreNext(image, reserved, dirs, initial, data, |data|, row[j], Needed(|contents|), contents);
      data := data + [contents];
      j := j + 1;
    }
    BodyRowsGrow(dirs, data0, data, i);
  }

  /** Tables and contents together are the bodies of all objects. */
  lemma AllBodies(dirs: Tree, layout: Layout, data0: seq<seq<Byte>>, data: seq<seq<Byte>>)
    requires IsTree(dirs) && Fits(layout, dirs) && |data| == ObjectCount(dirs)
    requires |data0| == |dirs| - 1 && data0 == data[..|data0|]
    requires FolderBodies(dirs, layout, data0, |dirs|) && FileBodies(dirs, data, |dirs|)
    ensures Bodies(dirs, layout, data)
  {
    forall i | 0 < i < |dirs| && FolderOk(dirs, i) ensures FolderBody(dirs, layout, data[i - 1], i) {
      assert FolderBody(dirs, layout, data0[i - 1], i);
    }
    forall i, j | 0 <= i < |dirs| && 0 <= j < |dirs[i].files|
      ensures data[FileObject(dirs, i, j)] == dirs[i].files[j].contents
    {
      assert RowBody(dirs, data, i);
    }
  }

  // ----- The whole image

  /** Boot sector, loader, kernel and its manifest; the fixed journal and remap sectors of the REIST variant. */
  datatype Boot = Boot(stage1: seq<Byte>, stage2: seq<Byte>, kernel: seq<Byte>, kernelValid: bool, manifest: seq<Byte>,
                       reist: bool, journal: seq<Byte>, remap: seq<Byte>)

  predicate SectorsGiven(b: Boot) { |b.manifest| == SECTOR_SIZE && |b.journal| == SECTOR_SIZE && |b.remap| == SECTOR_SIZE }

  function KernelEnd(b: Boot): nat { KERNEL_LBA + SectorsFor(|b.kernel|) }

  /** Sectors in front of the FAT. */
  function ReservedSectors(b: Boot): nat {
    if b.reist then Max(KernelEnd(b) + JOURNAL_SECTORS, 196) else KernelEnd(b)
  }

  predicate Bootable(b: Boot) {
    && |b.stage1| == SECTOR_SIZE && b.stage1[510] == 0x55 && b.stage1[511] == 0xAA
    && 1 <= SectorsFor(|b.stage2|) <= STAGE2_MAX_SECTORS && b.kernelValid && KernelEnd(b) <= FLOPPY_SECTORS
    && ReservedSectors(b) + FAT_COPIES * FAT_SECTORS + ROOT_SECTORS < FLOPPY_SECTORS
  }

  /** The volume begins in the sector behind the kernel; in the REIST variant 195 sectors lie in between. */
  lemma ReservedExactly(b: Boot)
    ensures var end := if b.reist then ReservedSectors(b) - 195 else ReservedSectors(b);
      512 * (end - 1) < 66048 + |b.kernel| <= 512 * end
  {
  }

  /** What can boot: a signed boot sector, a stage 2 of 1 to 32768 bytes, a kernel, and sectors left behind the tables. */
  lemma BootableExactly(b: Boot)
    ensures Bootable(b) <==>
      && |b.stage1| == 512 && b.stage1[510] == 0x55 && b.stage1[511] == 0xAA && 1 <= |b.stage2| <= 32768
      && b.kernelValid && 66048 + |b.kernel| <= 1_474_560 && ReservedSectors(b) + 32 < 2880
  {
  }

  /** Bytes of the boot sector that the volume takes over. */
  predicate Patched(b: Boot, k: int) { 11 <= k < 36 || (b.reist && (39 <= k < 43 || 54 <= k < 62)) }

  ghost predicate SectorZero(image: seq<Byte>, b: Boot) {
    |b.stage1| == SECTOR_SIZE <= |image| && forall k :: 0 <= k < SECTOR_SIZE && !Patched(b, k) ==> image[k] == b.stage1[k]
  }

  /** The boot code, the manifest, stage 2 and the kernel stand where the loader looks for them. */
  ghost predicate BootKept(image: seq<Byte>, b: Boot) {
    SectorZero(image, b) && At(image, 512, b.manifest) && At(image, 1024, b.stage2) && At(image, 66048, b.kernel)
  }

  /** Writes at or behind the end of the kernel touch no boot extent. */
  lemma BootStays(before: seq<Byte>, after: seq<Byte>, b: Boot, lo: int, hi: int)
    requires Bootable(b) && SectorsGiven(b) && BootKept(before, b) && SameOutside(before, after, lo, hi)
    requires KernelEnd(b) * SECTOR_SIZE <= lo
    ensures BootKept(after, b)
    ensures At(before, 11, Parameters(ReservedSectors(b))) ==> At(after, 11, Parameters(ReservedSectors(b)))
  {
    AtKept(before, after, lo, hi, MANIFEST_LBA * SECTOR_SIZE, b.manifest);
    AtKept(before, after, lo, hi, STAGE2_LBA * SECTOR_SIZE, b.stage2);
    AtKept(before, after, lo, hi, KERNEL_LBA * SECTOR_SIZE, b.kernel);
    if At(before, 11, Parameters(ReservedSectors(b))) {
      AtKept(before, after, lo, hi, 11, Parameters(ReservedSectors(b)));
    }
  }

  /** Writes inside the patched part of the boot sector. */
  lemma PatchStays(before: seq<Byte>, after: seq<Byte>, b: Boot, lo: int, hi: int)
    requires Bootable(b) && SectorsGiven(b) && BootKept(before, b) && SameOutside(before, after, lo, hi)
    requires hi <= SECTOR_SIZE && forall k :: lo <= k < hi ==> Patched(b, k)
    ensures BootKept(after, b)
    ensures 36 <= lo && At(before, 11, Parameters(ReservedSectors(b))) ==> At(after, 11, Parameters(ReservedSectors(b)))
  {
    AtKept(before, after, lo, hi, MANIFEST_LBA * SECTOR_SIZE, b.manifest);
    AtKept(before, after, lo, hi, STAGE2_LBA * SECTOR_SIZE, b.stage2);
    AtKept(before, after, lo, hi, KERNEL_LBA * SECTOR_SIZE, b.kernel);
    if 36 <= lo && At(before, 11, Parameters(ReservedSectors(b))) {
      AtKept(before, after, lo, hi, 11, Parameters(ReservedSectors(b)));
    }
  }

  method WriteBoot(image: array<Byte>, b: Boot)
    requires Bootable(b) && SectorsGiven(b) && image.Length == FLOPPY_SIZE
    modifies image
    ensures BootKept(image[..], b)
  {
    Blit(image, 0, b.stage1);
    assert SectorZero(image[..], b) by {
      assert image[..][0..SECTOR_SIZE] == b.stage1;
    }
    ghost var i1 := image[..];
    Blit(image, MANIFEST_LBA * SECTOR_SIZE, b.manifest);
    ghost var i2 := image[..];
    Blit(image, STAGE2_LBA * SECTOR_SIZE, b.stage2);
    ghost var i3 := image[..];
    AtKept(i2, i3, STAGE2_LBA * SECTOR_SIZE, STAGE2_LBA * SECTOR_SIZE + |b.stage2|, MANIFEST_LBA * SECTOR_SIZE, b.manifest);
    Blit(image, KERNEL_LBA * SECTOR_SIZE, b.kernel);
    ghost var at, end := KERNEL_LBA * SECTOR_SIZE, KERNEL_LBA * SECTOR_SIZE + |b.kernel|;
    AtKept(i3, image[..], at, end, MANIFEST_LBA * SECTOR_SIZE, b.manifest);
    AtKept(i3, image[..], at, end, STAGE2_LBA * SECTOR_SIZE, b.stage2);
  }

  method WriteParameters(image: array<Byte>, b: Boot)
    requires Bootable(b) && SectorsGiven(b) && image.Length == FLOPPY_SIZE && BootKept(image[..], b)
    modifies image
    ensures BootKept(image[..], b) && At(image[..], 11, Parameters(ReservedSectors(b))) && JournalKept(image[..], b)
    ensures Labelled(image[..], b)
  {
    ghost var before := image[..];
    Blit(image, 11, Parameters(ReservedSectors(b)));
    PatchStays(before, image[..], b, 11, 36);
    if b.reist {
      before := image[..];
      Blit(image, 54, LABEL);
      PatchStays(before, image[..], b, 54, 62);
      before := image[..];
      Blit(image, 39, Pack32(VOLUME_ID));
      PatchStays(before, image[..], b, 39, 43);
      AtKept(before, image[..], 39, 43, 54, LABEL);
      assert Pack32(VOLUME_ID) == [0x53, 0x49, 0x45, 0x52];
      WriteJournal(image, b);
    }
  }

  /** The REIST variant names the file system in the boot sector, and gives the volume its number. */
  ghost predicate Labelled(image: seq<Byte>, b: Boot) {
    b.reist ==>
      At(image, 54, [0x52, 0x45, 0x49, 0x53, 0x54, 0x31, 0x32, 0x20]) && At(image, 39, [0x53, 0x49, 0x45, 0x52])
  }

  lemma LabelStays(before: seq<Byte>, after: seq<Byte>, b: Boot, lo: int, hi: int)
    requires Labelled(before, b) && SameOutside(before, after, lo, hi) && SECTOR_SIZE <= lo
    ensures Labelled(after, b)
  {
    if b.reist {
      AtKept(before, after, lo, hi, 54, LABEL);
      AtKept(before, after, lo, hi, 39, [0x53, 0x49, 0x45, 0x52]);
    }
  }

  /** One sector of the journal area, between the kernel and the FAT. */
  method WriteReserved(image: array<Byte>, b: Boot, sector: nat, bytes: seq<Byte>)
    requires Bootable(b) && SectorsGiven(b) && image.Length == FLOPPY_SIZE && BootKept(image[..], b)
    requires At(image[..], 11, Parameters(ReservedSectors(b))) && |bytes| == SECTOR_SIZE
    requires KernelEnd(b) <= sector < ReservedSectors(b)
    requires Labelled(image[..], b)
    modifies image
    ensures Labelled(image[..], b)
    ensures BootKept(image[..], b) && At(image[..], 11, Parameters(ReservedSectors(b)))
    ensures At(image[..], sector * SECTOR_SIZE, bytes)
    ensures SameOutside(old(image[..]), image[..], sector * SECTOR_SIZE, (sector + 1) * SECTOR_SIZE)
  {
    ghost var before := image[..];
    Blit(image, sector * SECTOR_SIZE, bytes);
    BootStays(before, image[..], b, sector * SECTOR_SIZE, (sector + 1) * SECTOR_SIZE);
    LabelStays(before, image[..], b, sector * SECTOR_SIZE, (sector + 1) * SECTOR_SIZE);
  }

  /** Both copies of the journal header and of the remap header lie in front of the FAT. */
  ghost predicate JournalKept(image: seq<Byte>, b: Boot) {
    b.reist ==>
      var base := ReservedSectors(b) - 195;
      && At(image, 512 * base, b.journal) && At(image, 512 * (base + 1), b.journal)
      && At(image, 512 * (base + 130), b.remap) && At(image, 512 * (base + 131), b.remap)
  }

  lemma JournalStays(before: seq<Byte>, after: seq<Byte>, b: Boot, lo: int, hi: int)
    requires SectorsGiven(b) && JournalKept(before, b) && SameOutside(before, after, lo, hi)
    requires ReservedSectors(b) * SECTOR_SIZE <= lo
    ensures JournalKept(after, b)
  {
    if b.reist {
      var base := ReservedSectors(b) - JOURNAL_SECTORS;
      AtKept(before, after, lo, hi, base * SECTOR_SIZE, b.journal);
      AtKept(before, after, lo, hi, (base + 1) * SECTOR_SIZE, b.journal);
      AtKept(before, after, lo, hi, (base + REMAP_OFFSET) * SECTOR_SIZE, b.remap);
      AtKept(before, after, lo, hi, (base + REMAP_OFFSET + 1) * SECTOR_SIZE, b.remap);
    }
  }

  method WriteJournal(image: array<Byte>, b: Boot)
    requires Bootable(b) && SectorsGiven(b) && b.reist && image.Length == FLOPPY_SIZE && BootKept(image[..], b)
    requires At(image[..], 11, Parameters(ReservedSectors(b)))
    requires Labelled(image[..], b)
    modifies image
    ensures Labelled(image[..], b)
    ensures BootKept(image[..], b) && At(image[..], 11, Parameters(ReservedSectors(b))) && JournalKept(image[..], b)
  {
    var base := ReservedSectors(b) - JOURNAL_SECTORS;
    WriteReserved(image, b, base, b.journal);
    ghost var i1 := image[..];
    WriteReserved(image, b, base + 1, b.journal);
    ghost var i2 := image[..];
    AtKept(i1, i2, (base + 1) * SECTOR_SIZE, (base + 2) * SECTOR_SIZE, base * SECTOR_SIZE, b.journal);
    WriteRemap(image, b, base);
  }

  method WriteRemap(image: array<Byte>, b: Boot, base: nat)
    requires Bootable(b) && SectorsGiven(b) && b.reist && image.Length == FLOPPY_SIZE && BootKept(image[..], b)
    requires At(image[..], 11, Parameters(ReservedSectors(b))) && base == ReservedSectors(b) - JOURNAL_SECTORS
    requires At(image[..], base * SECTOR_SIZE, b.journal) && At(image[..], (base + 1) * SECTOR_SIZE, b.journal)
    requires Labelled(image[..], b)
    modifies image
    ensures Labelled(image[..], b)
    ensures BootKept(image[..], b) && At(image[..], 11, Parameters(ReservedSectors(b))) && JournalKept(image[..], b)
  {
    ghost var i0 := image[..];
    var at := (base + REMAP_OFFSET) * SECTOR_SIZE;
    WriteReserved(image, b, base + REMAP_OFFSET, b.remap);
    ghost var i1 := image[..];
    WriteReserved(image, b, base + REMAP_OFFSET + 1, b.remap);
    AtKept(i1, image[..], at + SECTOR_SIZE, at + 2 * SECTOR_SIZE, at, b.remap);
    SameTwice(i0, i1, image[..], at, at + SECTOR_SIZE, at + SECTOR_SIZE, at + 2 * SECTOR_SIZE);
    AtKept(i0, image[..], at, at + 2 * SECTOR_SIZE, base * SECTOR_SIZE, b.journal);
    AtKept(i0, image[..], at, at + 2 * SECTOR_SIZE, (base + 1) * SECTOR_SIZE, b.journal);
  }

  /** Reserved entries as the standard wants them; clusters of no object are free. */
  ghost predicate FatClean(fat: seq<Byte>, end: nat) {
    && |fat| == FAT_SIZE && EntryAt(fat, 0) == 0xFF0 && EntryAt(fat, 1) == 0xFFF
    && forall c: nat :: end <= c && InTable(fat, c) ==> EntryAt(fat, c) == 0
  }

  method MakeFat(dirs: Tree, layout: Layout) returns (fat: seq<Byte>)
    requires Assigned(dirs, layout) && End(dirs) <= CLUSTER_LIMIT
    ensures AllLinked(fat, dirs, ObjectCount(dirs)) && FatClean(fat, End(dirs))
  {
    var table := new Byte[FAT_SIZE](_ => 0);
    table[0], table[1], table[2] := 0xF0, 0xFF, 0xFF;
    ghost var initial := table[..];
    assert EntryAt(initial, 0) == 0xFF0 && EntryAt(initial, 1) == 0xFFF;
    LinkAll(table, dirs, layout);
    fat := table[..];
    forall c: nat | End(dirs) <= c && InTable(fat, c) ensures EntryAt(fat, c) == 0 {
      assert InTable(initial, c) && EntryAt(initial, c) == 0;
    }
  }

  /** Writes both copies of the FAT, then the root directory. */
  method WriteTables(image: array<Byte>, reserved: nat, fat: seq<Byte>, root: seq<Byte>)
    requires image.Length == FLOPPY_SIZE && |fat| == FAT_SIZE && |root| == ROOT_SECTORS * SECTOR_SIZE
    requires DataAt(reserved, 2) <= FLOPPY_SIZE
    modifies image
    ensures At(image[..], reserved * SECTOR_SIZE, fat) && At(image[..], (reserved + FAT_SECTORS) * SECTOR_SIZE, fat)
    ensures At(image[..], (reserved + FAT_COPIES * FAT_SECTORS) * SECTOR_SIZE, root)
    ensures SameOutside(old(image[..]), image[..], reserved * SECTOR_SIZE, DataAt(reserved, 2))
  {
    var first := reserved * SECTOR_SIZE;
    Blit(image, first, fat);
    ghost var i1 := image[..];
    Blit(image, first + FAT_SIZE, fat);
    ghost var i2 := image[..];
    AtKept(i1, i2, first + FAT_SIZE, first + 2 * FAT_SIZE, first, fat);
    Blit(image, first + 2 * FAT_SIZE, root);
    AtKept(i2, image[..], first + 2 * FAT_SIZE, first + 2 * FAT_SIZE + |root|, first, fat);
    AtKept(i2, image[..], first + 2 * FAT_SIZE, first + 2 * FAT_SIZE + |root|, first + FAT_SIZE, fat);
  }

  /** Everything in front of the FAT. */
  ghost predicate FrontKept(image: seq<Byte>, b: Boot) {
    BootKept(image, b) && Labelled(image, b) && JournalKept(image, b) && (Bootable(b) ==> At(image, 11, Parameters(ReservedSectors(b))))
  }

  lemma FrontStays(before: seq<Byte>, after: seq<Byte>, b: Boot, lo: int, hi: int)
    requires Bootable(b) && SectorsGiven(b) && FrontKept(before, b) && SameOutside(before, after, lo, hi)
    requires ReservedSectors(b) * SECTOR_SIZE <= lo
    ensures FrontKept(after, b)
  {
    BootStays(before, after, b, lo, hi);
    LabelStays(before, after, b, lo, hi);
    JournalStays(before, after, b, lo, hi);
  }

  /** The objects stay where they are when the FAT and the root directory are written in front of them. */
  lemma ObjectsStay(before: seq<Byte>, after: seq<Byte>, reserved: nat, dirs: Tree, data: seq<seq<Byte>>)
    requires |dirs| > 0 && |data| == ObjectCount(dirs) && AllAt(before, reserved, dirs, data, |data|)
    requires SameOutside(before, after, reserved * SECTOR_SIZE, DataAt(reserved, 2))
    ensures AllAt(after, reserved, dirs, data, |data|)
  {
    forall k | 0 <= k < |data| ensures ObjectAt(after, reserved, dirs, data, k) {
      assert ObjectAt(before, reserved, dirs, data, k);
      AtKept(before, after, reserved * SECTOR_SIZE, DataAt(reserved, 2), DataAt(reserved, Start(dirs, k)), data[k]);
    }
  }

  /** The FAT and the root directory a reader finds are those that were written. */
  lemma TablesFound(image: seq<Byte>, reserved: nat, fat: seq<Byte>, root: seq<Byte>)
    requires |image| == FLOPPY_SIZE && reserved < 0x1_0000 && At(image, 11, Parameters(reserved))
    requires |fat| == FAT_SIZE && At(image, reserved * SECTOR_SIZE, fat)
    requires |root| == ROOT_SECTORS * SECTOR_SIZE && At(image, (reserved + FAT_COPIES * FAT_SECTORS) * SECTOR_SIZE, root)
    ensures FatOf(image) == fat && RootOf(image) == root
  {
    ParametersRead(image, reserved);
  }

  /** What a finished image is, besides holding the tree: both FATs are equal, and no cluster from end on is in use. */
  ghost predicate Finished(image: seq<Byte>, b: Boot, end: nat) {
    && |image| == FLOPPY_SIZE && FrontKept(image, b) && BootRecord(image, ReservedSectors(b))
    && FatClean(FatOf(image), end) && At(image, (ReservedSectors(b) + FAT_SECTORS) * SECTOR_SIZE, FatOf(image))
  }

  /** Builds the image; refuses exactly what cannot boot or does not fit. */
  method CreateFloppyImage(b: Boot, dirs: Tree)
    returns (ok: bool, bytes: seq<Byte>, ghost layout: Layout, ghost data: seq<seq<Byte>>)
    requires IsTree(dirs) && SectorsGiven(b)
    ensures ok <==> Bootable(b) && Roomy(dirs, ReservedSectors(b))
    ensures ok ==> Finished(bytes, b, End(dirs)) && Assigned(dirs, layout) && Bodies(dirs, layout, data)
    ensures ok ==> Volume(bytes, ReservedSectors(b), dirs, layout, data)
  {
    ok, bytes, layout, data := false, [], Layout([], []), [];
    if !Bootable(b) { return; }
    var image := new Byte[FLOPPY_SIZE](_ => 0);
    WriteBoot(image, b);
    WriteParameters(image, b);
    var reserved := ReservedSectors(b);
    var clusters, next := AssignClusters(dirs);
    layout := clusters;
    assert FolderOk(dirs, 0);
    if next > CLUSTER_LIMIT || next > 0xFF0 || ItemCount(dirs[0]) > MAX_ENTRIES
       || reserved + FAT_COPIES * FAT_SECTORS + ROOT_SECTORS + next - 2 > FLOPPY_SECTORS {
      return;
    }
    data := WriteVolume(image, b, dirs, clusters);
    bytes := image[..];
    ok := true;
  }

  /** Directories and files, then FAT and root directory. */
  method WriteVolume(image: array<Byte>, b: Boot, dirs: Tree, layout: Layout) returns (ghost data: seq<seq<Byte>>)
    requires IsTree(dirs) && SectorsGiven(b) && Bootable(b) && image.Length == FLOPPY_SIZE && FrontKept(image[..], b)
    requires Assigned(dirs, layout) && Roomy(dirs, ReservedSectors(b))
    modifies image
    ensures Finished(image[..], b, End(dirs)) && Bodies(dirs, layout, data)
    ensures Volume(image[..], ReservedSectors(b), dirs, layout, data)
  {
    var reserved := ReservedSectors(b);
    var fat := MakeFat(dirs, layout);
    ghost var i0 := image[..];
    var root;
    root, data := WriteObjects(image, reserved, dirs, layout);
    ghost var i1 := image[..];
    FrontStays(i0, i1, b, DataAt(reserved, 2), DataAt(reserved, End(dirs)));
    WriteTables(image, reserved, fat, root);
    FrontStays(i1, image[..], b, reserved * SECTOR_SIZE, DataAt(reserved, 2));
    ObjectsStay(i1, image[..], reserved, dirs, data);
    WholeVolume(image[..], b, dirs, layout, data, fat, root);
  }

  lemma WholeVolume(image: seq<Byte>, b: Boot, dirs: Tree, layout: Layout, data: seq<seq<Byte>>, fat: seq<Byte>,
                    root: seq<Byte>)
    requires IsTree(dirs) && SectorsGiven(b) && Bootable(b) && |image| == FLOPPY_SIZE && FrontKept(image, b)
    requires Assigned(dirs, layout) && Roomy(dirs, ReservedSectors(b)) && Bodies(dirs, layout, data)
    requires AllAt(image, ReservedSectors(b), dirs, data, ObjectCount(dirs))
    requires AllLinked(fat, dirs, ObjectCount(dirs)) && FatClean(fat, End(dirs))
    requires At(image, ReservedSectors(b) * SECTOR_SIZE, fat) && At(image, (ReservedSectors(b) + FAT_SECTORS) * SECTOR_SIZE, fat)
    requires FolderOk(dirs, 0) && |root| == ROOT_SECTORS * SECTOR_SIZE && Lists(root, Entries(dirs, layout, 0))
    requires At(image, (ReservedSectors(b) + FAT_COPIES * FAT_SECTORS) * SECTOR_SIZE, root)
    ensures Finished(image, b, End(dirs)) && Volume(image, ReservedSectors(b), dirs, layout, data)
  {
    TablesFound(image, ReservedSectors(b), fat, root);
    BootRecordRead(image, ReservedSectors(b));
  }

  method WriteObjects(image: array<Byte>, reserved: nat, dirs: Tree, layout: Layout)
    returns (root: seq<Byte>, ghost data: seq<seq<Byte>>)
    requires IsTree(dirs) && Assigned(dirs, layout) && Roomy(dirs, reserved) && image.Length == FLOPPY_SIZE
    modifies image
    ensures FolderOk(dirs, 0) && |root| == ROOT_SECTORS * SECTOR_SIZE && Lists(root, Entries(dirs, layout, 0))
    ensures Bodies(dirs, layout, data) && AllAt(image[..], reserved, dirs, data, ObjectCount(dirs))
    ensures SameOutside(old(image[..]), image[..], DataAt(reserved, 2), DataAt(reserved, End(dirs)))
  {
    ghost var initial := image[..];
    ghost var tables;
    root, tables := StoreFolders(image, reserved, dirs, layout);
    data := StoreFiles(image, reserved, dirs, layout, initial, tables);
    AllBodies(dirs, layout, tables, data);
  }
}
