/** The fixed EXT2 layouts of the application media, and what an image of one has to satisfy. */
module Ext2Format {
  import opened Bytes

  const IMAGE_SIZE := 1_048_576
  const FILE_COUNT := 5
  const DIRECTORY_BLOCK := 21
  const INDIRECT_BLOCK := 22
  const DATA_BLOCK := 32
  const INODE_SIZE := 128
  const DIRECT := 12
  const SUPERBLOCK := 1024
  const LAST_FILE_LIMIT := 16384
  const PROGRAM_LIMIT := 274_432

  /** The layout's number: blocks have 1024 << scale bytes. */
  type Scale = s: int | 0 <= s <= 2

  function BlockSize(s: Scale): int { if s == 0 then 1024 else if s == 1 then 2048 else 4096 }

  /** Where block k begins. */
  function Blk(s: Scale, k: int): int { if s == 0 then 1024 * k else if s == 1 then 2048 * k else 4096 * k }

  function Total(s: Scale): int { if s == 0 then 1024 else if s == 1 then 512 else 256 }

  function First(s: Scale): int { if s == 0 then 1 else 0 }

  /** The first block behind the inode table of sixteen inodes. */
  function MetaEnd(s: Scale): int { 5 + (16 * INODE_SIZE + BlockSize(s) - 1) / BlockSize(s) }

  /** Blocks that hold n bytes. */
  function Count(s: Scale, n: nat): nat {
    if s == 0 then (n + 1023) / 1024 else if s == 1 then (n + 2047) / 2048 else (n + 4095) / 4096
  }

  function PointersPerBlock(s: Scale): int { BlockSize(s) / 4 }

  function SectorsOf(s: Scale, blocks: int): int { if s == 0 then 2 * blocks else if s == 1 then 4 * blocks else 8 * blocks }

  lemma CountBounds(s: Scale, n: nat)
    ensures n <= Blk(s, Count(s, n)) < n + BlockSize(s) && (n > 0 ==> Count(s, n) > 0)
  {
  }

  function GroupAt(s: Scale): int { if s == 2 then 4096 else 2048 }

  function InodeAt(s: Scale, i: int): int { Blk(s, 5) + (11 + i) * INODE_SIZE }

  function RootInodeAt(s: Scale): int { Blk(s, 5) + INODE_SIZE }

  /** The layout in bytes: 1 MiB of blocks of 1024, 2048 or 4096 bytes, and what lies where in it. */
  lemma LayoutExactly(s: Scale, k: nat)
    ensures BlockSize(s) == (if s == 0 then 1024 else if s == 1 then 2048 else 4096) && Blk(s, k) == k * BlockSize(s)
    ensures Blk(s, Total(s)) == 1_048_576 && Blk(s, First(s)) <= 1024 < Blk(s, First(s) + 1) == GroupAt(s)
    ensures InodeAt(s, k) == Blk(s, 5) + 128 * (11 + k) && RootInodeAt(s) == Blk(s, 5) + 128
    ensures 0 <= Blk(s, MetaEnd(s)) - (Blk(s, 5) + 16 * 128) < BlockSize(s)
    ensures 512 * SectorsOf(s, k) == Blk(s, k) && 4 * PointersPerBlock(s) == BlockSize(s)
  {
  }

  type Files = seq<seq<Byte>>

  function Limit(i: int): int { if i == FILE_COUNT - 1 then LAST_FILE_LIMIT else PROGRAM_LIMIT }

  /** Five non-empty files, in the fixed order of their names. */
  predicate Admitted(files: Files) {
    |files| == FILE_COUNT && forall i :: 0 <= i < FILE_COUNT ==> 0 < |files[i]| <= Limit(i)
  }

  // ----- Reading

  function Half(raw: seq<Byte>, at: int): int { if 0 <= at && at + 2 <= |raw| then U16(raw, at) else -1 }

  function Word(raw: seq<Byte>, at: int): int { if 0 <= at && at + 4 <= |raw| then U32(raw, at) else -1 }

  predicate Zero(raw: seq<Byte>, lo: int, hi: int) {
    0 <= lo && hi <= |raw| && forall k :: lo <= k < hi ==> raw[k] == 0
  }

  predicate HeaderOk(raw: seq<Byte>, s: Scale) {
    && Half(raw, 1080) == 0xEF53 && Word(raw, 1024) == 16 && Word(raw, 1028) == Total(s) && Word(raw, 1044) == First(s)
    && Word(raw, 1048) == s && Word(raw, 1052) == s && Word(raw, 1056) == Total(s) && Word(raw, 1060) == Total(s)
    && Word(raw, 1064) == 16
    && Word(raw, 1100) == 1 && Word(raw, 1108) == 11 && Half(raw, 1112) == 128 && Word(raw, 1120) == 2
    && Word(raw, GroupAt(s)) == 3 && Word(raw, GroupAt(s) + 4) == 4 && Word(raw, GroupAt(s) + 8) == 5
  }

  predicate RootInodeOk(raw: seq<Byte>, s: Scale) {
    var r := RootInodeAt(s);
    && Half(raw, r) == 0x41ED && Word(raw, r + 4) == BlockSize(s) && Half(raw, r + 26) == 2
    && Word(raw, r + 28) == BlockSize(s) / 512 && Word(raw, r + 40) == DIRECTORY_BLOCK
  }

  // ----- The directory

  datatype Record = Record(inode: int, name: seq<Byte>, kind: int)

  /** One record that lies before the end, with zero padding. */
  predicate RecordGood(raw: seq<Byte>, pos: int, end: int) {
    && 0 <= pos && pos + 8 <= |raw| && end <= |raw|
    && var length := U16(raw, pos + 4);
       && length >= 8 && length % 4 == 0 && pos + length <= end && (raw[pos + 6] as int) <= length - 8
       && Zero(raw, pos + 8 + (raw[pos + 6] as int), pos + length)
  }

  function RecordAt(raw: seq<Byte>, pos: int, end: int): Record
    requires RecordGood(raw, pos, end)
  {
    Record(U32(raw, pos), raw[pos + 8..pos + 8 + (raw[pos + 6] as int)], raw[pos + 7])
  }

  /** All records up to the end, or nothing if one is malformed. */
  function Parse(raw: seq<Byte>, pos: int, end: int): Option<seq<Record>>
    decreases end - pos
  {
    if pos >= end then Some([])
    else if !RecordGood(raw, pos, end) then None
    else
      match Parse(raw, pos + U16(raw, pos + 4), end)
      case None => None
      case Some(rest) => Some([RecordAt(raw, pos, end)] + rest)
  }

  const NAMES: seq<seq<Byte>> := [
    [98, 111, 111, 116, 46, 112, 114, 103], [99, 97, 116, 46, 112, 114, 103], [108, 115, 46, 112, 114, 103],
    [112, 114, 111, 98, 101, 46, 112, 114, 103], [100, 97, 116, 97, 46, 116, 120, 116]]

  /** The directory's records: itself, its parent, and the five files. */
  const RECORDS: seq<Record> := [
    Record(2, [46], 2), Record(2, [46, 46], 2), Record(12, NAMES[0], 1), Record(13, NAMES[1], 1),
    Record(14, NAMES[2], 1), Record(15, NAMES[3], 1), Record(16, NAMES[4], 1)]

  predicate DirectoryOk(raw: seq<Byte>, s: Scale) {
    Parse(raw, Blk(s, DIRECTORY_BLOCK), Blk(s, DIRECTORY_BLOCK + 1)) == Some(RECORDS)
  }

  // ----- Files

  predicate InodeOk(raw: seq<Byte>, s: Scale, i: int, n: nat) {
    var at, count := InodeAt(s, i), Count(s, n);
    && Half(raw, at) == 0x81A4 && Word(raw, at + 4) == n && Half(raw, at + 26) == 1
    && Word(raw, at + 28) == SectorsOf(s, if count > DIRECT then count + 1 else count)
    && count <= DIRECT + PointersPerBlock(s) && Zero(raw, at + 92, at + 128)
  }

  function IndirectOf(raw: seq<Byte>, s: Scale, i: int): int { Word(raw, InodeAt(s, i) + 88) }

  /** The block that holds part k of file i. */
  function Pointer(raw: seq<Byte>, s: Scale, i: int, k: nat): int {
    if k < DIRECT then Word(raw, InodeAt(s, i) + 40 + 4 * k) else Word(raw, Blk(s, IndirectOf(raw, s, i)) + 4 * (k - DIRECT))
  }

  /** Pointers that are not needed are zero. */
  predicate PointersClean(raw: seq<Byte>, s: Scale, i: int, n: nat) {
    var at, count := InodeAt(s, i), Count(s, n);
    if count <= DIRECT then Zero(raw, at + 40 + 4 * count, at + 92)
    else Zero(raw, Blk(s, IndirectOf(raw, s, i)) + 4 * (count - DIRECT), Blk(s, IndirectOf(raw, s, i) + 1))
  }

  function Pointers(raw: seq<Byte>, s: Scale, i: int, k: nat): (ps: seq<int>)
    ensures |ps| == k
  {
    if k == 0 then [] else Pointers(raw, s, i, k - 1) + [Pointer(raw, s, i, k - 1)]
  }

  /** The blocks file i owns: its pointer block, if it has one, and its data. */
  function OwnedBy(raw: seq<Byte>, s: Scale, i: int, n: nat): seq<int> {
    (if Count(s, n) > DIRECT then [IndirectOf(raw, s, i)] else []) + Pointers(raw, s, i, Count(s, n))
  }

  /** The blocks owned by the directory and the first m files. */
  function Owned(raw: seq<Byte>, s: Scale, files: Files, m: nat): seq<int>
    requires m <= |files|
  {
    if m == 0 then [DIRECTORY_BLOCK] else Owned(raw, s, files, m - 1) + OwnedBy(raw, s, m - 1, |files[m - 1]|)
  }

  function BlockBytes(raw: seq<Byte>, s: Scale, block: int): seq<Byte> {
    if 0 <= Blk(s, block) && Blk(s, block + 1) <= |raw| then raw[Blk(s, block)..Blk(s, block + 1)] else []
  }

  function Joined(parts: seq<seq<Byte>>, n: nat): seq<Byte>
    requires n <= |parts|
  {
    if n == 0 then [] else Joined(parts, n - 1) + parts[n - 1]
  }

  function BlockParts(raw: seq<Byte>, s: Scale, blocks: seq<int>): (parts: seq<seq<Byte>>)
    ensures |parts| == |blocks| && forall j :: 0 <= j < |blocks| ==> parts[j] == BlockBytes(raw, s, blocks[j])
  {
    seq(|blocks|, j requires 0 <= j < |blocks| => BlockBytes(raw, s, blocks[j]))
  }

  /** The bytes of these blocks, one behind the other. */
  function Content(raw: seq<Byte>, s: Scale, blocks: seq<int>): seq<Byte> {
    Joined(BlockParts(raw, s, blocks), |blocks|)
  }

  lemma {:induction false} JoinedPrefix(parts: seq<seq<Byte>>, more: seq<seq<Byte>>, n: nat)
    requires n <= |parts| && parts <= more
    ensures Joined(more, n) == Joined(parts, n)
  {
    if n > 0 {
      JoinedPrefix(parts, more, n - 1);
    }
  }

  /** File i reads as the given bytes, padded with zeros. */
  predicate ContentOk(raw: seq<Byte>, s: Scale, i: int, file: seq<Byte>) {
    var content := Content(raw, s, Pointers(raw, s, i, Count(s, |file|)));
    |file| <= |content| && content[..|file|] == file && Zero(content, |file|, |content|)
  }

  // ----- Ownership

  predicate InMeta(s: Scale, k: int) { First(s) <= k < MetaEnd(s) }

  /** Superblock, group descriptor, bitmaps and inode table. */
  function Meta(s: Scale): (m: set<int>)
    ensures forall k :: k in m <==> InMeta(s, k)
  {
    set k | 0 <= k < 8 && InMeta(s, k)
  }

  /** Blocks of the group behind the inode table, none twice. */
  predicate Separate(s: Scale, blocks: seq<int>) {
    && (forall a :: 0 <= a < |blocks| ==> First(s) <= blocks[a] < Total(s) && blocks[a] !in Meta(s))
    && (forall a, b :: 0 <= a < b < |blocks| ==> blocks[a] != blocks[b])
  }

  function Used(s: Scale, blocks: seq<int>): set<int> { Meta(s) + set b | b in blocks }

  function BitOf(used: set<int>, block: int): int { if block in used then 1 else 0 }

  /** Eight blocks, one bit each. */
  function BitmapByte(used: set<int>, block: int): Byte {
    BitOf(used, block) + 2 * BitOf(used, block + 1) + 4 * BitOf(used, block + 2) + 8 * BitOf(used, block + 3)
    + 16 * BitOf(used, block + 4) + 32 * BitOf(used, block + 5) + 64 * BitOf(used, block + 6) + 128 * BitOf(used, block + 7)
  }

  predicate BitmapByteAt(raw: seq<Byte>, s: Scale, used: set<int>, i: int)
    requires 0 <= i < BlockSize(s) && Blk(s, 5) <= |raw|
  {
    raw[Blk(s, 3) + i] == BitmapByte(used, First(s) + 8 * i)
  }

  predicate BitmapsOk(raw: seq<Byte>, s: Scale, used: set<int>) {
    && Blk(s, 5) <= |raw|
    && (forall i :: 0 <= i < BlockSize(s) ==> BitmapByteAt(raw, s, used, i))
    && raw[Blk(s, 4)] == 0xFF && raw[Blk(s, 4) + 1] == 0xFF && Zero(raw, Blk(s, 4) + 2, Blk(s, 5))
  }

  predicate FreeOk(raw: seq<Byte>, s: Scale, used: set<int>) {
    var free := Total(s) - First(s) - |used|;
    && Word(raw, 1036) == free && Word(raw, 1040) == 0
    && Half(raw, GroupAt(s) + 12) == free && Half(raw, GroupAt(s) + 14) == 0 && Half(raw, GroupAt(s) + 16) == 1
  }

  predicate UnusedZero(raw: seq<Byte>, s: Scale, used: set<int>) {
    forall b :: First(s) <= b < Total(s) && b !in used ==> Zero(raw, Blk(s, b), Blk(s, b + 1))
  }

  predicate FileOk(raw: seq<Byte>, s: Scale, files: Files, i: int)
    requires 0 <= i < |files|
  {
    InodeOk(raw, s, i, |files[i]|) && PointersClean(raw, s, i, |files[i]|) && ContentOk(raw, s, i, files[i])
  }

  predicate FilesOk(raw: seq<Byte>, s: Scale, files: Files, m: int)
    requires m <= |files|
  {
    forall i {:trigger FileOk(raw, s, files, i)} :: 0 <= i < m ==> FileOk(raw, s, files, i)
  }

  /** The image is one of these files in this layout. */
  predicate Accepted(raw: seq<Byte>, s: Scale, files: Files) {
    && Admitted(files) && |raw| == IMAGE_SIZE && HeaderOk(raw, s) && RootInodeOk(raw, s) && DirectoryOk(raw, s)
    && FilesOk(raw, s, files, FILE_COUNT) && Separate(s, Owned(raw, s, files, FILE_COUNT))
    && var used := Used(s, Owned(raw, s, files, FILE_COUNT));
       BitmapsOk(raw, s, used) && FreeOk(raw, s, used) && UnusedZero(raw, s, used)
  }

  // ----- What acceptance means

  /** An accepted image determines its files. */
  lemma AcceptedDetermines(raw: seq<Byte>, s: Scale, f: Files, g: Files)
    requires Accepted(raw, s, f) && Accepted(raw, s, g)
    ensures f == g
  {
    forall i | 0 <= i < FILE_COUNT ensures f[i] == g[i] {
      assert FileOk(raw, s, f, i) && FileOk(raw, s, g, i);
    }
  }

  /** Bit k of a byte, least significant first. */
  predicate BitSet(b: nat, k: nat) { if k == 0 then b % 2 == 1 else BitSet(b / 2, k - 1) }

  lemma Halved(b: nat, low: int, rest: nat)
    requires 0 <= low < 2 && b == low + 2 * rest
    ensures b % 2 == low && b / 2 == rest
  {
  }

  /** Bit k of a bitmap byte is set exactly when the k-th of its blocks is owned. */
  lemma BitmapMeans(used: set<int>, block: int, k: nat)
    requires k < 8
    ensures BitSet(BitmapByte(used, block), k) <==> block + k in used
  {
    var b7 := BitOf(used, block + 7);
    var b6 := BitOf(used, block + 6) + 2 * b7;
    var b5 := BitOf(used, block + 5) + 2 * b6;
    var b4 := BitOf(used, block + 4) + 2 * b5;
    var b3 := BitOf(used, block + 3) + 2 * b4;
    var b2 := BitOf(used, block + 2) + 2 * b3;
    var b1 := BitOf(used, block + 1) + 2 * b2;
    Halved(BitmapByte(used, block), BitOf(used, block), b1);
    Halved(b1, BitOf(used, block + 1), b2);
    Halved(b2, BitOf(used, block + 2), b3);
    Halved(b3, BitOf(used, block + 3), b4);
    Halved(b4, BitOf(used, block + 4), b5);
    Halved(b5, BitOf(used, block + 5), b6);
    Halved(b6, BitOf(used, block + 6), b7);
    var b := BitmapByte(used, block);
    if k == 0 {
    } else if k == 1 {
      assert BitSet(b, 1) == BitSet(b1, 0);
    } else if k == 2 {
      assert BitSet(b, 2) == BitSet(b1, 1) == BitSet(b2, 0);
    } else if k == 3 {
      assert BitSet(b, 3) == BitSet(b1, 2) == BitSet(b2, 1) == BitSet(b3, 0);
    } else if k == 4 {
      assert BitSet(b, 4) == BitSet(b1, 3) == BitSet(b2, 2) == BitSet(b3, 1) == BitSet(b4, 0);
    } else if k == 5 {
      assert BitSet(b, 5) == BitSet(b1, 4) == BitSet(b2, 3) == BitSet(b3, 2) == BitSet(b4, 1) == BitSet(b5, 0);
    } else if k == 6 {
      assert BitSet(b, 6) == BitSet(b1, 5) == BitSet(b2, 4) == BitSet(b3, 3) == BitSet(b4, 2) == BitSet(b5, 1);
      assert BitSet(b5, 1) == BitSet(b6, 0);
    } else {
      assert BitSet(b, 7) == BitSet(b1, 6) == BitSet(b2, 5) == BitSet(b3, 4) == BitSet(b4, 3) == BitSet(b5, 2);
      assert BitSet(b5, 2) == BitSet(b6, 1) == BitSet(b7, 0);
    }
  }

  lemma {:induction false} OwnedWithin(raw: seq<Byte>, s: Scale, files: Files, i: nat, m: nat)
    requires i < m <= |files|
    ensures Owned(raw, s, files, i) + OwnedBy(raw, s, i, |files[i]|) <= Owned(raw, s, files, m)
  {
    if i + 1 < m {
      OwnedWithin(raw, s, files, i, m - 1);
    }
  }

  lemma OwnedThere(raw: seq<Byte>, s: Scale, files: Files, i: nat, m: nat, x: nat)
    requires i < m <= |files| && x < |OwnedBy(raw, s, i, |files[i]|)|
    ensures |Owned(raw, s, files, i)| + x < |Owned(raw, s, files, m)|
    ensures Owned(raw, s, files, m)[|Owned(raw, s, files, i)| + x] == OwnedBy(raw, s, i, |files[i]|)[x]
  {
    OwnedWithin(raw, s, files, i, m);
    InPrefix(Owned(raw, s, files, i), OwnedBy(raw, s, i, |files[i]|), Owned(raw, s, files, m), x);
  }

  lemma InPrefix<T>(a: seq<T>, b: seq<T>, whole: seq<T>, x: nat)
    requires a + b <= whole && x < |b|
    ensures |a| + x < |whole| && whole[|a| + x] == b[x]
  {
    assert (a + b)[|a| + x] == b[x];
  }

  lemma {:induction false} PointerListed(raw: seq<Byte>, s: Scale, i: int, k: nat, n: nat)
    requires k < n
    ensures Pointers(raw, s, i, n)[k] == Pointer(raw, s, i, k)
  {
    if k < n - 1 {
      PointerListed(raw, s, i, k, n - 1);
    }
  }

  /** Part x of what file i owns: its pointer block first, if it has one, then its data blocks. */
  lemma PartOwned(raw: seq<Byte>, s: Scale, i: nat, n: nat, x: nat)
    requires x < |OwnedBy(raw, s, i, n)|
    ensures var lead := if Count(s, n) > DIRECT then 1 else 0;
      && |OwnedBy(raw, s, i, n)| == lead + Count(s, n)
      && OwnedBy(raw, s, i, n)[x] == if x < lead then IndirectOf(raw, s, i) else Pointer(raw, s, i, x - lead)
  {
    var lead := if Count(s, n) > DIRECT then 1 else 0;
    if x >= lead {
      PointerListed(raw, s, i, x - lead, Count(s, n));
    }
  }

  /** Two different parts stand at different places of the whole list. */
  lemma PlacesDiffer(raw: seq<Byte>, s: Scale, files: Files, i: nat, x: nat, j: nat, y: nat)
    requires i < |files| && x < |OwnedBy(raw, s, i, |files[i]|)|
    requires j < |files| && y < |OwnedBy(raw, s, j, |files[j]|)| && (i != j || x != y)
    ensures |Owned(raw, s, files, i)| + x != |Owned(raw, s, files, j)| + y
  {
    if i < j {
      OwnedThere(raw, s, files, i, j, x);
    } else if j < i {
      OwnedThere(raw, s, files, j, i, y);
    }
  }

  /**
   * In an accepted image no two parts of files, data or pointer blocks, share a
   * block, and none lies in the metadata or is the directory.
   */
  lemma OwnershipDisjoint(raw: seq<Byte>, s: Scale, files: Files, i: nat, x: nat, j: nat, y: nat)
    requires Accepted(raw, s, files) && i < FILE_COUNT && j < FILE_COUNT && (i != j || x != y)
    requires x < |OwnedBy(raw, s, i, |files[i]|)| && y < |OwnedBy(raw, s, j, |files[j]|)|
    ensures var b := OwnedBy(raw, s, i, |files[i]|)[x];
      MetaEnd(s) <= b < Total(s) && b != DIRECTORY_BLOCK && b != OwnedBy(raw, s, j, |files[j]|)[y]
  {
    OwnedThere(raw, s, files, i, |files|, x);
    OwnedThere(raw, s, files, j, |files|, y);
    DirectoryFirst(raw, s, files, i);
    DirectoryFirst(raw, s, files, |files|);
    PlacesDiffer(raw, s, files, i, x, j, y);
    SeparateAt(s, Owned(raw, s, files, |files|), |Owned(raw, s, files, i)| + x, |Owned(raw, s, files, j)| + y);
    SeparateAt(s, Owned(raw, s, files, |files|), |Owned(raw, s, files, i)| + x, 0);
  }

  lemma SeparateAt(s: Scale, blocks: seq<int>, a: nat, b: nat)
    requires Separate(s, blocks) && a < |blocks| && b < |blocks| && a != b
    ensures blocks[a] != blocks[b] && MetaEnd(s) <= blocks[a] < Total(s)
  {
    assert blocks[a] !in Meta(s);
    if a < b {
      assert blocks[a] != blocks[b];
    } else {
      assert blocks[b] != blocks[a];
    }
  }

  lemma {:induction false} DirectoryFirst(raw: seq<Byte>, s: Scale, files: Files, m: nat)
    requires m <= |files|
    ensures |Owned(raw, s, files, m)| > 0 && Owned(raw, s, files, m)[0] == DIRECTORY_BLOCK
  {
    if m > 0 {
      DirectoryFirst(raw, s, files, m - 1);
    }
  }
}
