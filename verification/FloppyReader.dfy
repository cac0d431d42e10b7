/** A FAT12 volume as a reader sees it: geometry, chains, directory tables, paths. */
module FloppyReader {
  import opened Bytes
  import opened Numbers
  import opened Fat12

  const SECTOR_SIZE := 512
  const ENTRY_SIZE := 32
  const NAME_SIZE := 11
  const DIRECTORY: Byte := 0x10
  const ARCHIVE: Byte := 0x20
  const DOT: Byte := 46
  const CHAIN_LIMIT := 4096

  type Name = seq<Byte>

  // ----- Directory tables

  datatype DirEntry = DirEntry(name: Name, attributes: Byte, ntCase: Byte, first: int, size: int)

  predicate Encodable(e: DirEntry) {
    |e.name| == NAME_SIZE && 0 <= e.first < 0x1_0000 && 0 <= e.size < WORD_LIMIT
  }

  /** One 32-byte directory entry. */
  function Encode(e: DirEntry): (bytes: seq<Byte>)
    requires Encodable(e)
    ensures |bytes| == ENTRY_SIZE
  {
    e.name + [e.attributes, e.ntCase] + Zeros(13) + Pack16(e.first) + Pack32(e.size)
  }

  function DecodeAt(table: seq<Byte>, k: int): DirEntry
    requires 0 <= k && ENTRY_SIZE * (k + 1) <= |table|
  {
    var at := ENTRY_SIZE * k;
    DirEntry(table[at..at + NAME_SIZE], table[at + 11], table[at + 12], U16(table, at + 26), U32(table, at + 28))
  }

  lemma EncodedWords(e: DirEntry)
    requires Encodable(e)
    ensures DecodeAt(Encode(e), 0) == e
  {
    var b := Encode(e);
    assert b[26..28] == Pack16(e.first) && b[28..32] == Pack32(e.size);
    assert U16(b, 26) == U16(b[26..28], 0) && U32(b, 28) == U32(b[28..32], 0);
  }

  /** An entry is read back as it was stored. */
  lemma DecodeEncode(table: seq<Byte>, k: int, e: DirEntry)
    requires Encodable(e) && 0 <= k && At(table, ENTRY_SIZE * k, Encode(e))
    ensures DecodeAt(table, k) == e && table[ENTRY_SIZE * k] == e.name[0]
  {
    var at, b := ENTRY_SIZE * k, Encode(e);
    EncodedWords(e);
    var slot := table[at..at + ENTRY_SIZE];
    assert forall i :: 0 <= i < ENTRY_SIZE ==> slot[i] == table[at + i];
    assert table[at..at + NAME_SIZE] == b[..NAME_SIZE];
  }

  /** The table holds these entries and zeros behind them. */
  ghost predicate Lists(table: seq<Byte>, entries: seq<DirEntry>) {
    && ENTRY_SIZE * |entries| <= |table|
    && (forall k :: 0 <= k < |entries| ==> Encodable(entries[k]) && At(table, ENTRY_SIZE * k, Encode(entries[k])))
    && (forall b :: ENTRY_SIZE * |entries| <= b < |table| ==> table[b] == 0)
  }

  predicate Occupied(table: seq<Byte>, k: nat) {
    ENTRY_SIZE * (k + 1) <= |table| && table[ENTRY_SIZE * k] != 0
  }

  /** The first entry from k on with this name, before the first free slot; or -1. */
  function Find(table: seq<Byte>, name: Name, k: nat): int
    decreases |table| - k
  {
    if !Occupied(table, k) then -1
    else if DecodeAt(table, k).name == name then k
    else Find(table, name, k + 1)
  }

  ghost predicate Named(entries: seq<DirEntry>, name: Name, from: nat) {
    exists k :: from <= k < |entries| && entries[k].name == name
  }

  lemma NamedNext(entries: seq<DirEntry>, name: Name, k: nat)
    requires k < |entries| && entries[k].name != name
    ensures Named(entries, name, k) <==> Named(entries, name, k + 1)
  {
  }

  /** Slot k reads as entry k, or is the free slot behind the last entry. */
  ghost predicate ReadsAs(table: seq<Byte>, entries: seq<DirEntry>, k: nat) {
    if k < |entries| then Occupied(table, k) && DecodeAt(table, k) == entries[k] else !Occupied(table, k)
  }

  lemma ListedReads(table: seq<Byte>, entries: seq<DirEntry>, k: nat)
    requires Lists(table, entries) && k <= |entries| && forall i :: 0 <= i < |entries| ==> entries[i].name[0] != 0
    ensures ReadsAs(table, entries, k)
  {
    if k < |entries| {
      DecodeEncode(table, k, entries[k]);
    }
  }

  lemma {:induction false} FindRead(table: seq<Byte>, entries: seq<DirEntry>, name: Name, k: nat)
    requires k <= |entries|
    requires forall i: nat {:trigger ReadsAs(table, entries, i)} :: i <= |entries| ==> ReadsAs(table, entries, i)
    ensures var m := Find(table, name, k);
      if Named(entries, name, k) then k <= m < |entries| && entries[m].name == name else m == -1
    decreases |entries| - k
  {
    assert ReadsAs(table, entries, k);
    if k < |entries| && entries[k].name != name {
      FindRead(table, entries, name, k + 1);
      NamedNext(entries, name, k);
    }
  }

  /** A search finds the first entry of that name, and nothing else. */
  lemma FindListed(table: seq<Byte>, entries: seq<DirEntry>, name: Name)
    requires Lists(table, entries) && forall i :: 0 <= i < |entries| ==> entries[i].name[0] != 0
    ensures var m := Find(table, name, 0);
      if Named(entries, name, 0) then 0 <= m < |entries| && entries[m].name == name && ReadsAs(table, entries, m)
      else m == -1
  {
    forall i: nat | i <= |entries| ensures ReadsAs(table, entries, i) {
      ListedReads(table, entries, i);
    }
    FindRead(table, entries, name, 0);
  }

  // ----- Geometry

  predicate Sized(image: seq<Byte>) { |image| >= SECTOR_SIZE }

  function Reserved(image: seq<Byte>): int requires Sized(image) { U16(image, 14) }

  function FatSectors(image: seq<Byte>): int requires Sized(image) { U16(image, 22) }

  function RootSector(image: seq<Byte>): int
    requires Sized(image)
  {
    Reserved(image) + (image[16] as int) * FatSectors(image)
  }

  function RootSectors(image: seq<Byte>): int
    requires Sized(image)
  {
    (U16(image, 17) * ENTRY_SIZE + SECTOR_SIZE - 1) / SECTOR_SIZE
  }

  function DataSector(image: seq<Byte>): int requires Sized(image) { RootSector(image) + RootSectors(image) }

  /** A part of the image, as far as the image goes. */
  function Piece(image: seq<Byte>, at: int, size: int): seq<Byte> {
    if 0 <= at && 0 <= size && at + size <= |image| then image[at..at + size] else []
  }

  function FatOf(image: seq<Byte>): seq<Byte>
    requires Sized(image)
  {
    Piece(image, Reserved(image) * SECTOR_SIZE, FatSectors(image) * SECTOR_SIZE)
  }

  function RootOf(image: seq<Byte>): seq<Byte>
    requires Sized(image)
  {
    Piece(image, RootSector(image) * SECTOR_SIZE, RootSectors(image) * SECTOR_SIZE)
  }

  function ClusterAt(image: seq<Byte>, c: int): int
    requires Sized(image)
  {
    (DataSector(image) + c - 2) * SECTOR_SIZE
  }

  // ----- Files and paths

  function ChainBytes(image: seq<Byte>, chain: seq<nat>, n: nat): seq<Byte>
    requires Sized(image) && n <= |chain|
  {
    if n == 0 then [] else ChainBytes(image, chain, n - 1) + Piece(image, ClusterAt(image, chain[n - 1]), SECTOR_SIZE)
  }

  function ReadChain(image: seq<Byte>, first: nat): seq<Byte>
    requires Sized(image)
  {
    var chain := Follow(FatOf(image), first, CHAIN_LIMIT);
    ChainBytes(image, chain, |chain|)
  }

  /** One sector more. */
  lemma PieceGrows(image: seq<Byte>, at: int, n: nat)
    requires 0 <= at && at + SECTOR_SIZE * (n + 1) <= |image|
    ensures Piece(image, at, SECTOR_SIZE * (n + 1))
         == Piece(image, at, SECTOR_SIZE * n) + Piece(image, at + SECTOR_SIZE * n, SECTOR_SIZE)
  {
    var middle, end := at + SECTOR_SIZE * n, at + SECTOR_SIZE * (n + 1);
    assert image[at..end] == image[at..middle] + image[middle..end];
  }

  lemma ClustersFollow(image: seq<Byte>, first: nat, n: nat)
    requires Sized(image)
    ensures ClusterAt(image, first + n) == ClusterAt(image, first) + SECTOR_SIZE * n
  {
  }

  lemma ChainGrows(image: seq<Byte>, first: nat, count: nat, n: nat)
    requires Sized(image) && n < count && 0 <= ClusterAt(image, first)
    requires ClusterAt(image, first) + SECTOR_SIZE * count <= |image|
    requires ChainBytes(image, Run(first, count), n) == Piece(image, ClusterAt(image, first), SECTOR_SIZE * n)
    ensures ChainBytes(image, Run(first, count), n + 1) == Piece(image, ClusterAt(image, first), SECTOR_SIZE * (n + 1))
  {
    ClustersFollow(image, first, n);
    PieceGrows(image, ClusterAt(image, first), n);
  }

  /** Consecutive clusters are one piece of the image. */
  lemma {:induction false} ChainIsPiece(image: seq<Byte>, first: nat, count: nat, n: nat)
    requires Sized(image) && n <= count && 0 <= ClusterAt(image, first)
    requires ClusterAt(image, first) + SECTOR_SIZE * count <= |image|
    ensures ChainBytes(image, Run(first, count), n) == Piece(image, ClusterAt(image, first), SECTOR_SIZE * n)
  {
    if n > 0 {
      ChainIsPiece(image, first, count, n - 1);
      ChainGrows(image, first, count, n - 1);
    } else {
      assert Piece(image, ClusterAt(image, first), 0) == [];
    }
  }

  /** The data area begins at or behind the start of the image. */
  lemma ClusterInside(image: seq<Byte>, c: nat)
    requires Sized(image) && 2 <= c
    ensures ClusterAt(image, c) >= 0
  {
    assert 0 <= (image[16] as int) * FatSectors(image);
  }

  /** Reading a chain gives all bytes of its clusters. */
  lemma ReadLinked(image: seq<Byte>, first: nat, count: nat)
    requires Sized(image) && Linked(FatOf(image), first, count) && 2 <= first && 1 <= count <= CHAIN_LIMIT
    requires first + count <= 0xFF0 && ClusterAt(image, first) + SECTOR_SIZE * count <= |image|
    ensures ReadChain(image, first) == Piece(image, ClusterAt(image, first), SECTOR_SIZE * count)
    ensures |ReadChain(image, first)| == SECTOR_SIZE * count
  {
    FollowLinked(FatOf(image), first, count, CHAIN_LIMIT);
    ClusterInside(image, first);
    ChainIsPiece(image, first, count, count);
  }

  /** What a reader gets for the first cluster of a chain. */
  type Reader = nat -> seq<Byte>

  function ReaderOf(image: seq<Byte>): Reader {
    (first: nat) => if Sized(image) then ReadChain(image, first) else []
  }

  function ReadFile(read: Reader, e: DirEntry): seq<Byte>
    requires 0 <= e.first
  {
    var bytes := read(e.first);
    if 0 <= e.size <= |bytes| then bytes[..e.size] else bytes
  }

  /** The file a path of short names leads to from a directory table. */
  function Resolve(read: Reader, table: seq<Byte>, path: seq<Name>): Option<seq<Byte>>
    requires |path| > 0
    decreases |path|
  {
    var k := Find(table, path[0], 0);
    if k < 0 || ENTRY_SIZE * (k + 1) > |table| then None
    else
      var e := DecodeAt(table, k);
      if |path| == 1 then
        if e.attributes == ARCHIVE then Some(ReadFile(read, e)) else None
      else if e.attributes == DIRECTORY then Resolve(read, read(e.first), path[1..])
      else None
  }

  /** The last entry on a path of short names. */
  function EntryOn(read: Reader, table: seq<Byte>, path: seq<Name>): Option<DirEntry>
    requires |path| > 0
    decreases |path|
  {
    var k := Find(table, path[0], 0);
    if k < 0 || ENTRY_SIZE * (k + 1) > |table| then None
    else
      var e := DecodeAt(table, k);
      if |path| == 1 then Some(e)
      else if e.attributes == DIRECTORY then EntryOn(read, read(e.first), path[1..])
      else None
  }

  // ----- Names as a listing shows them

  /** Without the spaces at the end. */
  function Unpadded(b: seq<Byte>): (r: seq<Byte>)
    ensures r <= b
  {
    if b != [] && b[|b| - 1] == 32 then Unpadded(b[..|b| - 1]) else b
  }

  function Lowered(b: seq<Byte>, lower: bool): (r: seq<Byte>)
    ensures |r| == |b|
  {
    seq(|b|, i requires 0 <= i < |b| => if lower && 65 <= b[i] <= 90 then b[i] + 32 else b[i])
  }

  /** Stem and extension; bit 3 of the case byte asks for a lower-case stem, bit 4 for a lower-case extension. */
  function ShownName(e: DirEntry): seq<Byte>
    requires |e.name| == NAME_SIZE
  {
    var stem := Lowered(Unpadded(e.name[..8]), (e.ntCase / 8) % 2 == 1);
    var extension := Lowered(Unpadded(e.name[8..]), (e.ntCase / 16) % 2 == 1);
    if extension == [] then stem else stem + [DOT] + extension
  }
}
