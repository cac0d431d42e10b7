/** Where a tree's directories and files lie on a floppy volume. */
module FloppyVolume {
  import opened Bytes
  import opened Fat12
  import opened FloppyReader
  import opened FloppyTree

  const FLOPPY_SECTORS := 2880
  const FLOPPY_SIZE := FLOPPY_SECTORS * SECTOR_SIZE
  const FAT_COPIES := 2
  const FAT_SECTORS := 9
  const ROOT_SECTORS := 14
  const CLUSTER_LIMIT := 3072

  function SectorsFor(size: nat): nat { (size + SECTOR_SIZE - 1) / SECTOR_SIZE }

  /** The fewest clusters that hold an object, but at least one. */
  function Needed(size: nat): (n: nat)
    ensures n >= 1 && size <= SECTOR_SIZE * n
  {
    if size <= SECTOR_SIZE then 1 else 1 + Needed(size - SECTOR_SIZE)
  }

  lemma {:induction false} NeededIsRounded(size: nat)
    ensures Needed(size) == if SectorsFor(size) < 1 then 1 else SectorsFor(size)
  {
    if size > SECTOR_SIZE {
      NeededIsRounded(size - SECTOR_SIZE);
    }
  }

  method CountClusters(size: nat) returns (n: nat)
    ensures n == Needed(size)
  {
    n := if SectorsFor(size) < 1 then 1 else SectorsFor(size);
    NeededIsRounded(size);
  }

  /** Two dot entries, the items, and the end mark. */
  function FolderSize(f: Folder): nat { ENTRY_SIZE * (2 + |f.folders| + |f.files| + 1) }

  /** Objects get clusters in order: the directories below the root, then the files, directory by directory. */
  function RowStart(dirs: Tree, i: nat): (k: nat)
    requires i <= |dirs| && |dirs| > 0
    ensures k >= |dirs| - 1
  {
    if i == 0 then |dirs| - 1 else RowStart(dirs, i - 1) + |dirs[i - 1].files|
  }

  function ObjectCount(dirs: Tree): nat requires |dirs| > 0 { RowStart(dirs, |dirs|) }

  lemma {:induction false} RowsGrow(dirs: Tree, i: nat, n: nat)
    requires i <= n <= |dirs| && |dirs| > 0
    ensures RowStart(dirs, i) <= RowStart(dirs, n)
  {
    if i < n {
      RowsGrow(dirs, i, n - 1);
    }
  }

  /** The size of the k-th object, a file of one of the first n directories. */
  function FileSize(dirs: Tree, n: nat, k: nat): nat
    requires |dirs| > 0 && n <= |dirs| && |dirs| - 1 <= k < RowStart(dirs, n)
  {
    if k >= RowStart(dirs, n - 1) then |dirs[n - 1].files[k - RowStart(dirs, n - 1)].contents| else FileSize(dirs, n - 1, k)
  }

  lemma {:induction false} FileSizeAt(dirs: Tree, n: nat, i: nat, j: nat)
    requires i < n <= |dirs| && j < |dirs[i].files|
    ensures |dirs| - 1 <= RowStart(dirs, i) + j < RowStart(dirs, n)
    ensures FileSize(dirs, n, RowStart(dirs, i) + j) == |dirs[i].files[j].contents|
  {
    RowsGrow(dirs, 0, i);
    RowsGrow(dirs, i + 1, n);
    if i < n - 1 {
      RowsGrow(dirs, i + 1, n - 1);
      FileSizeAt(dirs, n - 1, i, j);
    }
  }

  function SizeOf(dirs: Tree, k: nat): nat
    requires |dirs| > 0 && k < ObjectCount(dirs)
  {
    if k < |dirs| - 1 then FolderSize(dirs[k + 1]) else FileSize(dirs, |dirs|, k)
  }

  function Clusters(dirs: Tree, k: nat): (n: nat)
    requires |dirs| > 0 && k < ObjectCount(dirs)
    ensures n >= 1
  {
    Needed(SizeOf(dirs, k))
  }

  /** The first cluster of object k: objects lie one behind the other. */
  function Start(dirs: Tree, k: nat): (c: nat)
    requires |dirs| > 0 && k <= ObjectCount(dirs)
    ensures c >= 2 + k
  {
    if k == 0 then 2 else Start(dirs, k - 1) + Clusters(dirs, k - 1)
  }

  function End(dirs: Tree): nat requires |dirs| > 0 { Start(dirs, ObjectCount(dirs)) }

  /** Different objects share no cluster. */
  lemma {:induction false} StartsGrow(dirs: Tree, j: nat, k: nat)
    requires |dirs| > 0 && j < k <= ObjectCount(dirs)
    ensures Start(dirs, j) + Clusters(dirs, j) <= Start(dirs, k)
  {
    if j < k - 1 {
      StartsGrow(dirs, j, k - 1);
    }
  }

  function FileObject(dirs: Tree, i: nat, j: nat): (k: nat)
    requires i < |dirs| && j < |dirs[i].files|
    ensures k < ObjectCount(dirs)
  {
    FileSizeAt(dirs, |dirs|, i, j);
    RowStart(dirs, i) + j
  }

  lemma RowEnds(dirs: Tree, i: nat)
    requires i < |dirs|
    ensures RowStart(dirs, i + 1) == RowStart(dirs, i) + |dirs[i].files| <= ObjectCount(dirs)
  {
    RowsGrow(dirs, i + 1, |dirs|);
  }

  /** File j of directory i is the next object after the files before it. */
  lemma NextFile(dirs: Tree, i: nat, j: nat)
    requires i < |dirs| && j < |dirs[i].files|
    ensures FileObject(dirs, i, j) == RowStart(dirs, i) + j < ObjectCount(dirs)
    ensures SizeOf(dirs, RowStart(dirs, i) + j) == |dirs[i].files[j].contents|
    ensures Clusters(dirs, RowStart(dirs, i) + j) == Needed(|dirs[i].files[j].contents|)
  {
    FileSizeAt(dirs, |dirs|, i, j);
  }

  /** The first n files of directory i got their clusters. */
  ghost predicate RowAt(dirs: Tree, row: seq<nat>, i: int, n: int)
    requires 0 <= i < |dirs| && n <= |dirs[i].files|
  {
    |row| == n && RowStart(dirs, i) + n <= ObjectCount(dirs) &&
    forall j :: 0 <= j < n ==> row[j] == Start(dirs, RowStart(dirs, i) + j)
  }

  ghost predicate RowKept(dirs: Tree, files: seq<seq<nat>>, i: int)
    requires 0 <= i < |dirs| && i < |files|
  {
    RowAt(dirs, files[i], i, |dirs[i].files|)
  }

  ghost predicate AllRows(dirs: Tree, files: seq<seq<nat>>, n: int)
    requires n <= |dirs| && n <= |files|
  {
    forall i {:trigger RowKept(dirs, files, i)} :: 0 <= i < n ==> RowKept(dirs, files, i)
  }

  lemma OneMoreRow(dirs: Tree, files: seq<seq<nat>>, row: seq<nat>)
    requires |files| < |dirs| && AllRows(dirs, files, |files|) && RowAt(dirs, row, |files|, |dirs[|files|].files|)
    ensures AllRows(dirs, files + [row], |files| + 1)
  {
    forall i | 0 <= i < |files| + 1 ensures RowKept(dirs, files + [row], i) {
      if i < |files| {
        assert RowKept(dirs, files, i);
      }
    }
  }

  /** The clusters every object got. */
  ghost predicate Assigned(dirs: Tree, layout: Layout) {
    && |dirs| > 0 && Fits(layout, dirs)
    && (forall i :: 0 < i < |dirs| ==> layout.folders[i] == Start(dirs, i - 1))
    && AllRows(dirs, layout.files, |dirs|)
  }

  lemma FileAssigned(dirs: Tree, layout: Layout, i: int, j: int)
    requires Assigned(dirs, layout) && 0 <= i < |dirs| && 0 <= j < |dirs[i].files|
    ensures layout.files[i][j] == Start(dirs, FileObject(dirs, i, j))
  {
    assert RowKept(dirs, layout.files, i);
    NextFile(dirs, i, j);
  }

  // ----- The image

  /** The parameter block of the volume, from byte 11 on. */
  function Parameters(reserved: nat): (p: seq<Byte>)
    requires reserved < 0x1_0000
    ensures |p| == 25
  {
    Pack16(SECTOR_SIZE) + [1] + Pack16(reserved) + [FAT_COPIES] + Pack16(MAX_ENTRIES) + Pack16(FLOPPY_SECTORS) + [0xF0]
    + Pack16(FAT_SECTORS) + Pack16(18) + Pack16(2) + Pack32(0) + Pack32(0)
  }

  lemma WordInside(image: seq<Byte>, at: int, bytes: seq<Byte>, k: int)
    requires At(image, at, bytes) && 0 <= k && k + 2 <= |bytes|
    ensures U16(image, at + k) == U16(bytes, k)
  {
    assert image[at..at + |bytes|][k] == image[at + k] && image[at..at + |bytes|][k + 1] == image[at + k + 1];
  }

  /** What a reader finds in the parameter block. */
  lemma ParametersRead(image: seq<Byte>, reserved: nat)
    requires reserved < 0x1_0000 && Sized(image) && At(image, 11, Parameters(reserved))
    ensures Reserved(image) == reserved && image[13] == 1 && image[16] == FAT_COPIES && FatSectors(image) == FAT_SECTORS
    ensures U16(image, 11) == SECTOR_SIZE && RootSectors(image) == ROOT_SECTORS && U16(image, 19) == FLOPPY_SECTORS
    ensures DataSector(image) == reserved + FAT_COPIES * FAT_SECTORS + ROOT_SECTORS
  {
    var p := Parameters(reserved);
    WordInside(image, 11, p, 0);
    WordInside(image, 11, p, 3);
    WordInside(image, 11, p, 6);
    WordInside(image, 11, p, 8);
    WordInside(image, 11, p, 11);
    assert image[13] == image[11..36][2] && image[16] == image[11..36][5];
  }

  lemma LongInside(image: seq<Byte>, at: int, bytes: seq<Byte>, k: int)
    requires At(image, at, bytes) && 0 <= k && k + 4 <= |bytes|
    ensures U32(image, at + k) == U32(bytes, k)
  {
    assert image[at..at + |bytes|][k] == image[at + k] && image[at..at + |bytes|][k + 1] == image[at + k + 1];
    assert image[at..at + |bytes|][k + 2] == image[at + k + 2] && image[at..at + |bytes|][k + 3] == image[at + k + 3];
  }

  /** The parameter block of a 1.44-MB FAT12 floppy, field by field. */
  predicate BootRecord(image: seq<Byte>, reserved: nat) {
    && |image| >= 36
    && U16(image, 11) == 512 && image[13] == 1 && U16(image, 14) == reserved && image[16] == 2 && U16(image, 17) == 224
    && U16(image, 19) == 2880 && image[21] == 0xF0 && U16(image, 22) == 9 && U16(image, 24) == 18 && U16(image, 26) == 2
    && U32(image, 28) == 0 && U32(image, 32) == 0
  }

  lemma ByteInside(image: seq<Byte>, at: int, bytes: seq<Byte>, k: int)
    requires At(image, at, bytes) && 0 <= k < |bytes|
    ensures image[at + k] == bytes[k]
  {
    assert image[at..at + |bytes|][k] == image[at + k];
  }

  /** What a reader finds in the parameter block. */
  lemma BootRecordRead(image: seq<Byte>, reserved: nat)
    requires reserved < 0x1_0000 && |image| >= 36 && At(image, 11, Parameters(reserved))
    ensures BootRecord(image, reserved)
  {
    var p := Parameters(reserved);
    WordInside(image, 11, p, 0);
    WordInside(image, 11, p, 3);
    WordInside(image, 11, p, 6);
    WordInside(image, 11, p, 8);
    WordInside(image, 11, p, 11);
    WordInside(image, 11, p, 13);
    WordInside(image, 11, p, 15);
    ByteInside(image, 11, p, 2);
    ByteInside(image, 11, p, 5);
    ByteInside(image, 11, p, 10);
    LongInside(image, 11, p, 17);
    LongInside(image, 11, p, 21);
  }

  function DataAt(reserved: nat, c: nat): int {
    (reserved + FAT_COPIES * FAT_SECTORS + ROOT_SECTORS + c - 2) * SECTOR_SIZE
  }

  /** Room for all objects on the volume. */
  predicate Roomy(dirs: Tree, reserved: nat) {
    |dirs| > 0 && End(dirs) <= CLUSTER_LIMIT && DataAt(reserved, End(dirs)) <= FLOPPY_SIZE
  }

  /** The bytes of every object; a directory's are a table of its entries. */
  ghost predicate Bodies(dirs: Tree, layout: Layout, data: seq<seq<Byte>>)
    requires IsTree(dirs) && Fits(layout, dirs)
  {
    && |data| == ObjectCount(dirs)
    && (forall i {:trigger FolderBody(dirs, layout, data[i - 1], i)} :: 0 < i < |dirs| && FolderOk(dirs, i) ==>
          FolderBody(dirs, layout, data[i - 1], i))
    && (forall i, j {:trigger FileObject(dirs, i, j)} :: 0 <= i < |dirs| && 0 <= j < |dirs[i].files| ==>
          data[FileObject(dirs, i, j)] == dirs[i].files[j].contents)
  }

  ghost predicate FolderBody(dirs: Tree, layout: Layout, table: seq<Byte>, i: int)
    requires Fits(layout, dirs) && 0 < i < |dirs| && Links(dirs, i)
  {
    |table| == SECTOR_SIZE * Needed(FolderSize(dirs[i])) && Lists(table, Entries(dirs, layout, i))
  }

  ghost predicate ObjectLinked(fat: seq<Byte>, dirs: Tree, k: int)
    requires |dirs| > 0 && 0 <= k < ObjectCount(dirs)
  {
    Linked(fat, Start(dirs, k), Clusters(dirs, k))
  }

  ghost predicate AllLinked(fat: seq<Byte>, dirs: Tree, n: int)
    requires |dirs| > 0 && n <= ObjectCount(dirs)
  {
    forall k {:trigger ObjectLinked(fat, dirs, k)} :: 0 <= k < n ==> ObjectLinked(fat, dirs, k)
  }

  ghost predicate ObjectAt(image: seq<Byte>, reserved: nat, dirs: Tree, data: seq<seq<Byte>>, k: int)
    requires |dirs| > 0 && 0 <= k < |data| <= ObjectCount(dirs)
  {
    |data[k]| <= SECTOR_SIZE * Clusters(dirs, k) && At(image, DataAt(reserved, Start(dirs, k)), data[k])
  }

  ghost predicate AllAt(image: seq<Byte>, reserved: nat, dirs: Tree, data: seq<seq<Byte>>, n: int)
    requires |dirs| > 0 && n <= |data| <= ObjectCount(dirs)
  {
    forall k {:trigger ObjectAt(image, reserved, dirs, data, k)} :: 0 <= k < n ==> ObjectAt(image, reserved, dirs, data, k)
  }

  /** The image holds the tree. */
  ghost predicate Volume(image: seq<Byte>, reserved: nat, dirs: Tree, layout: Layout, data: seq<seq<Byte>>)
    requires IsTree(dirs) && Assigned(dirs, layout) && Bodies(dirs, layout, data) && reserved < 0x1_0000
  {
    && |image| == FLOPPY_SIZE && At(image, 11, Parameters(reserved))
    && End(dirs) <= CLUSTER_LIMIT && DataAt(reserved, End(dirs)) <= FLOPPY_SIZE
    && AllLinked(FatOf(image), dirs, ObjectCount(dirs))
    && AllAt(image, reserved, dirs, data, ObjectCount(dirs))
    && FolderOk(dirs, 0) && Lists(RootOf(image), Entries(dirs, layout, 0))
  }

  lemma PieceStarts(image: seq<Byte>, at: int, bytes: seq<Byte>, size: int)
    requires At(image, at, bytes) && |bytes| <= size && at + size <= |image|
    ensures |Piece(image, at, size)| == size && Piece(image, at, size)[..|bytes|] == bytes
  {
    assert image[at..at + size][..|bytes|] == image[at..at + |bytes|];
  }

  /** Reading the chain of an object gives its bytes, and what else its clusters hold. */
  lemma ReadObject(image: seq<Byte>, reserved: nat, first: nat, count: nat, bytes: seq<Byte>)
    requires |image| == FLOPPY_SIZE && reserved < 0x1_0000 && At(image, 11, Parameters(reserved))
    requires Linked(FatOf(image), first, count) && 2 <= first && 1 <= count && first + count <= CLUSTER_LIMIT
    requires DataAt(reserved, first + count) <= FLOPPY_SIZE
    requires At(image, DataAt(reserved, first), bytes) && |bytes| <= SECTOR_SIZE * count
    ensures var r := ReaderOf(image)(first); |r| == SECTOR_SIZE * count && r[..|bytes|] == bytes
  {
    ParametersRead(image, reserved);
    ReadLinked(image, first, count);
    PieceStarts(image, DataAt(reserved, first), bytes, SECTOR_SIZE * count);
  }

  lemma ObjectReads(image: seq<Byte>, reserved: nat, dirs: Tree, layout: Layout, data: seq<seq<Byte>>, k: nat)
    requires IsTree(dirs) && Assigned(dirs, layout) && Bodies(dirs, layout, data) && reserved < 0x1_0000
    requires Volume(image, reserved, dirs, layout, data) && k < ObjectCount(dirs)
    requires |data[k]| <= SECTOR_SIZE * Clusters(dirs, k)
    ensures var r := ReaderOf(image)(Start(dirs, k));
      |r| == SECTOR_SIZE * Clusters(dirs, k) && r[..|data[k]|] == data[k]
  {
    StartsGrow(dirs, k, ObjectCount(dirs));
    assert ObjectLinked(FatOf(image), dirs, k) && ObjectAt(image, reserved, dirs, data, k);
    ReadObject(image, reserved, Start(dirs, k), Clusters(dirs, k), data[k]);
  }

  lemma WholeObject(image: seq<Byte>, reserved: nat, dirs: Tree, layout: Layout, data: seq<seq<Byte>>, k: nat)
    requires IsTree(dirs) && Assigned(dirs, layout) && Bodies(dirs, layout, data) && reserved < 0x1_0000
    requires Volume(image, reserved, dirs, layout, data) && k < ObjectCount(dirs)
    requires |data[k]| == SECTOR_SIZE * Clusters(dirs, k)
    ensures ReaderOf(image)(Start(dirs, k)) == data[k]
  {
    ObjectReads(image, reserved, dirs, layout, data, k);
    var r := ReaderOf(image)(Start(dirs, k));
    assert r[..|r|] == r;
  }

  lemma BodyThere(dirs: Tree, layout: Layout, data: seq<seq<Byte>>, i: int)
    requires IsTree(dirs) && |dirs| > 0 && Fits(layout, dirs) && Bodies(dirs, layout, data) && 0 < i < |dirs|
    ensures FolderOk(dirs, i) && FolderBody(dirs, layout, data[i - 1], i)
  {
    assert FolderOk(dirs, i);
  }

  lemma FolderReads(image: seq<Byte>, reserved: nat, dirs: Tree, layout: Layout, data: seq<seq<Byte>>, i: int)
    requires IsTree(dirs) && Assigned(dirs, layout) && Bodies(dirs, layout, data) && reserved < 0x1_0000
    requires Volume(image, reserved, dirs, layout, data) && 0 < i < |dirs|
    ensures FolderOk(dirs, i) && Lists(ReaderOf(image)(layout.folders[i]), Entries(dirs, layout, i))
  {
    BodyThere(dirs, layout, data, i);
    WholeObject(image, reserved, dirs, layout, data, i - 1);
  }

  lemma FileReads(image: seq<Byte>, reserved: nat, dirs: Tree, layout: Layout, data: seq<seq<Byte>>, i: int, j: int)
    requires IsTree(dirs) && Assigned(dirs, layout) && Bodies(dirs, layout, data) && reserved < 0x1_0000
    requires Volume(image, reserved, dirs, layout, data) && 0 <= i < |dirs| && 0 <= j < |dirs[i].files|
    ensures FileStored(ReaderOf(image), dirs, layout, i, j)
  {
    FileAssigned(dirs, layout, i, j);
    NextFile(dirs, i, j);
    ObjectReads(image, reserved, dirs, layout, data, FileObject(dirs, i, j));
  }

  /** A reader that knows only the image finds every table and every file of the tree. */
  lemma VolumeStored(image: seq<Byte>, reserved: nat, dirs: Tree, layout: Layout, data: seq<seq<Byte>>)
    requires IsTree(dirs) && Assigned(dirs, layout) && Bodies(dirs, layout, data) && reserved < 0x1_0000
    requires Volume(image, reserved, dirs, layout, data)
    ensures Stored(ReaderOf(image), RootOf(image), dirs, layout)
  {
    forall i | 0 <= i < |dirs| && FolderOk(dirs, i) ensures TableStored(ReaderOf(image), RootOf(image), dirs, layout, i) {
      if i > 0 {
        FolderReads(image, reserved, dirs, layout, data, i);
      }
    }
    forall i, j | 0 <= i < |dirs| && 0 <= j < |dirs[i].files| ensures FileStored(ReaderOf(image), dirs, layout, i, j) {
      FileReads(image, reserved, dirs, layout, data, i, j);
    }
  }

  /** It finds under every path exactly what the tree has there. */
  lemma VolumeReadsBack(image: seq<Byte>, reserved: nat, dirs: Tree, layout: Layout, data: seq<seq<Byte>>, path: seq<Name>)
    requires IsTree(dirs) && Assigned(dirs, layout) && Bodies(dirs, layout, data) && reserved < 0x1_0000
    requires Volume(image, reserved, dirs, layout, data) && PathOk(path)
    ensures Resolve(ReaderOf(image), RootOf(image), path) == Lookup(dirs, 0, path)
  {
    VolumeStored(image, reserved, dirs, layout, data);
    ResolveIsLookup(ReaderOf(image), RootOf(image), dirs, layout, 0, path);
  }

  /** The chain of every object ends, visits each of its clusters once, and meets no other object's chain. */
  lemma ChainsDisjoint(fat: seq<Byte>, dirs: Tree, j: nat, k: nat)
    requires |dirs| > 0 && j < k < ObjectCount(dirs) && AllLinked(fat, dirs, ObjectCount(dirs)) && End(dirs) <= CLUSTER_LIMIT
    ensures var a, b := Follow(fat, Start(dirs, j), CHAIN_LIMIT), Follow(fat, Start(dirs, k), CHAIN_LIMIT);
      && |a| == Clusters(dirs, j) && |b| == Clusters(dirs, k)
      && (forall x, y :: 0 <= x < y < |a| ==> a[x] != a[y])
      && (forall x, y :: 0 <= x < |a| && 0 <= y < |b| ==> a[x] != b[y])
  {
    StartsGrow(dirs, j, k);
    StartsGrow(dirs, j, ObjectCount(dirs));
    StartsGrow(dirs, k, ObjectCount(dirs));
    assert ObjectLinked(fat, dirs, j) && ObjectLinked(fat, dirs, k);
    FollowLinked(fat, Start(dirs, j), Clusters(dirs, j), CHAIN_LIMIT);
    FollowLinked(fat, Start(dirs, k), Clusters(dirs, k), CHAIN_LIMIT);
  }
}
