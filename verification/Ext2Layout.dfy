/** What the EXT2 writer puts where, and why the checker accepts it. */
module Ext2Layout {
  import opened Bytes
  import opened Numbers
  import opened Ext2Format

  // ----- Ranges that are the same in two images

  predicate Agree(a: seq<Byte>, b: seq<Byte>, lo: int, hi: int) {
    0 <= lo && hi <= |a| == |b| && forall k :: lo <= k < hi ==> a[k] == b[k]
  }

  lemma WordAgrees(a: seq<Byte>, b: seq<Byte>, lo: int, hi: int, at: int)
    requires Agree(a, b, lo, hi) && lo <= at && at + 4 <= hi
    ensures Word(a, at) == Word(b, at) && Half(a, at) == Half(b, at) && Half(a, at + 2) == Half(b, at + 2)
  {
  }

  // ----- Plan

  /** The first data block of file i: files lie one behind the other. */
  function Cursor(s: Scale, files: Files, i: nat): (c: nat)
    requires i <= |files|
    ensures c >= DATA_BLOCK
  {
    if i == 0 then DATA_BLOCK else Cursor(s, files, i - 1) + Count(s, |files[i - 1]|)
  }

  lemma {:induction false} CursorGrows(s: Scale, files: Files, i: nat, j: nat)
    requires i <= j <= |files|
    ensures Cursor(s, files, i) <= Cursor(s, files, j)
    ensures i < j ==> Cursor(s, files, i) + Count(s, |files[i]|) <= Cursor(s, files, j)
  {
    if i < j {
      CursorGrows(s, files, i, j - 1);
    }
  }

  predicate FileFits(s: Scale, files: Files, i: nat)
    requires i < |files|
  {
    Count(s, |files[i]|) <= DIRECT + PointersPerBlock(s) && Cursor(s, files, i) + Count(s, |files[i]|) <= Total(s)
  }

  /** Every file can be reached through one pointer block, and all lie on the medium. */
  predicate Fits(s: Scale, files: Files) { forall i :: 0 <= i < |files| ==> FileFits(s, files, i) }

  function PlanFile(s: Scale, files: Files, i: nat): seq<int>
    requires i < |files|
  {
    (if Count(s, |files[i]|) > DIRECT then [INDIRECT_BLOCK + i] else []) + Run(Cursor(s, files, i), Count(s, |files[i]|))
  }

  /** The blocks that the directory and the first m files get. */
  function Plan(s: Scale, files: Files, m: nat): seq<int>
    requires m <= |files|
  {
    if m == 0 then [DIRECTORY_BLOCK] else Plan(s, files, m - 1) + PlanFile(s, files, m - 1)
  }

  predicate Planned(s: Scale, files: Files, m: nat, b: int)
    requires m <= |files|
  {
    b == DIRECTORY_BLOCK || INDIRECT_BLOCK <= b < INDIRECT_BLOCK + m || DATA_BLOCK <= b < Cursor(s, files, m)
  }

  /** The plan uses only blocks meant for it, each once. */
  lemma {:induction false} PlanSeparate(s: Scale, files: Files, m: nat)
    requires m <= |files| <= FILE_COUNT && Fits(s, files)
    ensures forall a :: 0 <= a < |Plan(s, files, m)| ==> Planned(s, files, m, Plan(s, files, m)[a])
    ensures forall a, b :: 0 <= a < b < |Plan(s, files, m)| ==> Plan(s, files, m)[a] != Plan(s, files, m)[b]
    ensures Cursor(s, files, m) <= Total(s)
  {
    if m > 0 {
      PlanSeparate(s, files, m - 1);
      PlanFileNew(s, files, m - 1);
      var p, q := Plan(s, files, m - 1), PlanFile(s, files, m - 1);
      assert FileFits(s, files, m - 1);
      assert forall a :: 0 <= a < |p| ==> Planned(s, files, m - 1, p[a]) && (p + q)[a] == p[a];
      assert forall a :: |p| <= a < |p + q| ==> (p + q)[a] == q[a - |p|];
    }
  }

  lemma PlanFileNew(s: Scale, files: Files, i: nat)
    requires i < |files| <= FILE_COUNT
    ensures forall a :: 0 <= a < |PlanFile(s, files, i)| ==>
      Planned(s, files, i + 1, PlanFile(s, files, i)[a]) && !Planned(s, files, i, PlanFile(s, files, i)[a])
    ensures forall a, b :: 0 <= a < b < |PlanFile(s, files, i)| ==> PlanFile(s, files, i)[a] != PlanFile(s, files, i)[b]
  {
    var lead := if Count(s, |files[i]|) > DIRECT then 1 else 0;
    var q := PlanFile(s, files, i);
    assert forall a :: lead <= a < |q| ==> q[a] == Cursor(s, files, i) + (a - lead);
    assert lead == 1 ==> q[0] == INDIRECT_BLOCK + i;
  }

  // ----- One written file

  predicate InodeHead(raw: seq<Byte>, at: int, n: int, sectors: int) {
    && Half(raw, at) == 0x81A4 && Word(raw, at + 4) == n && Half(raw, at + 26) == 1 && Word(raw, at + 28) == sectors
    && Zero(raw, at + 2, at + 4) && Zero(raw, at + 8, at + 26) && Zero(raw, at + 32, at + 40)
  }

  /** Consecutive block numbers in consecutive words. */
  predicate PointersAt(raw: seq<Byte>, base: int, start: int, count: int) {
    forall k {:trigger PointerAt(raw, base, start, k)} :: 0 <= k < count ==> PointerAt(raw, base, start, k)
  }

  predicate PointerAt(raw: seq<Byte>, base: int, start: int, k: int) { Word(raw, base + 4 * k) == start + k }

  function InodeSectors(s: Scale, n: nat): int {
    SectorsOf(s, if Count(s, n) > DIRECT then Count(s, n) + 1 else Count(s, n))
  }

  predicate InodeWritten(raw: seq<Byte>, s: Scale, i: int, n: nat, cursor: int) {
    var at, count := InodeAt(s, i), Count(s, n);
    && InodeHead(raw, at, n, InodeSectors(s, n)) && PointersAt(raw, at + 40, cursor, Min(DIRECT, count))
    && Zero(raw, at + 40 + 4 * Min(DIRECT, count), at + 88) && Zero(raw, at + 92, at + 128)
    && (count > DIRECT ==> Word(raw, at + 88) == INDIRECT_BLOCK + i)
    && (count <= DIRECT ==> Zero(raw, at + 88, at + 92))
  }

  predicate IndirectWritten(raw: seq<Byte>, s: Scale, i: int, n: nat, cursor: int) {
    var base, more := Blk(s, INDIRECT_BLOCK + i), Count(s, n) - DIRECT;
    if more > 0 then
      PointersAt(raw, base, cursor + DIRECT, more) && Zero(raw, base + 4 * more, Blk(s, INDIRECT_BLOCK + i + 1))
    else Zero(raw, base, Blk(s, INDIRECT_BLOCK + i + 1))
  }

  predicate DataWritten(raw: seq<Byte>, s: Scale, file: seq<Byte>, cursor: int) {
    At(raw, Blk(s, cursor), file) && Zero(raw, Blk(s, cursor) + |file|, Blk(s, cursor + Count(s, |file|)))
  }

  predicate FileWritten(raw: seq<Byte>, s: Scale, files: Files, i: int)
    requires 0 <= i < |files|
  {
    && InodeWritten(raw, s, i, |files[i]|, Cursor(s, files, i))
    && IndirectWritten(raw, s, i, |files[i]|, Cursor(s, files, i))
    && DataWritten(raw, s, files[i], Cursor(s, files, i))
  }

  lemma PointersAgree(a: seq<Byte>, b: seq<Byte>, base: int, start: int, count: int)
    requires Agree(a, b, base, base + 4 * count) && PointersAt(a, base, start, count)
    ensures PointersAt(b, base, start, count)
  {
    forall k | 0 <= k < count ensures PointerAt(b, base, start, k) {
      assert PointerAt(a, base, start, k);
      WordAgrees(a, b, base, base + 4 * count, base + 4 * k);
    }
  }

  lemma AgreeWithin(a: seq<Byte>, b: seq<Byte>, lo: int, hi: int, lo': int, hi': int)
    requires Agree(a, b, lo, hi) && lo <= lo' && hi' <= hi
    ensures Agree(a, b, lo', hi')
  {
  }

  lemma ZeroAgrees(a: seq<Byte>, b: seq<Byte>, lo: int, hi: int)
    requires Agree(a, b, lo, hi) && Zero(a, lo, hi)
    ensures Zero(b, lo, hi)
  {
  }

  lemma HeadKept(a: seq<Byte>, b: seq<Byte>, at: int, n: int, sectors: int)
    requires InodeHead(a, at, n, sectors) && Agree(a, b, at, at + 128)
    ensures InodeHead(b, at, n, sectors)
  {
    WordAgrees(a, b, at, at + 128, at);
    WordAgrees(a, b, at, at + 128, at + 4);
    WordAgrees(a, b, at, at + 128, at + 24);
    WordAgrees(a, b, at, at + 128, at + 28);
  }

  lemma InodeKept(a: seq<Byte>, b: seq<Byte>, s: Scale, i: nat, n: nat, cursor: int)
    requires InodeWritten(a, s, i, n, cursor) && Agree(a, b, InodeAt(s, i), InodeAt(s, i) + 128)
    ensures InodeWritten(b, s, i, n, cursor)
  {
    var at, direct := InodeAt(s, i), Min(DIRECT, Count(s, n));
    HeadKept(a, b, at, n, InodeSectors(s, n));
    WordAgrees(a, b, at, at + 128, at + 88);
    AgreeWithin(a, b, at, at + 128, at + 40, at + 40 + 4 * direct);
    PointersAgree(a, b, at + 40, cursor, direct);
    ZeroAgrees(a, b, at + 40 + 4 * direct, at + 88);
    ZeroAgrees(a, b, at + 92, at + 128);
    if Count(s, n) <= DIRECT {
      ZeroAgrees(a, b, at + 88, at + 92);
    }
  }

  lemma IndirectKept(a: seq<Byte>, b: seq<Byte>, s: Scale, i: nat, n: nat, cursor: int)
    requires IndirectWritten(a, s, i, n, cursor) && Count(s, n) <= DIRECT + PointersPerBlock(s)
    requires Agree(a, b, Blk(s, INDIRECT_BLOCK + i), Blk(s, INDIRECT_BLOCK + i + 1))
    ensures IndirectWritten(b, s, i, n, cursor)
  {
    var base, more := Blk(s, INDIRECT_BLOCK + i), Count(s, n) - DIRECT;
    if more > 0 {
      AgreeWithin(a, b, base, Blk(s, INDIRECT_BLOCK + i + 1), base, base + 4 * more);
      PointersAgree(a, b, base, cursor + DIRECT, more);
    }
  }

  lemma DataKept(a: seq<Byte>, b: seq<Byte>, s: Scale, file: seq<Byte>, cursor: nat)
    requires DataWritten(a, s, file, cursor) && Agree(a, b, Blk(s, cursor), Blk(s, cursor + Count(s, |file|)))
    ensures DataWritten(b, s, file, cursor)
  {
    CountBounds(s, |file|);
  }

  // ----- Reading a written file

  /** Part k of file i lies k blocks behind the first. */
  predicate PointsAt(raw: seq<Byte>, s: Scale, i: int, cursor: int, k: nat) { Pointer(raw, s, i, k) == cursor + k }

  predicate PointsTo(raw: seq<Byte>, s: Scale, i: int, cursor: int, count: nat) {
    forall k: nat {:trigger PointsAt(raw, s, i, cursor, k)} :: k < count ==> PointsAt(raw, s, i, cursor, k)
  }

  lemma DirectPoints(raw: seq<Byte>, s: Scale, i: nat, n: nat, cursor: int, k: nat)
    requires InodeWritten(raw, s, i, n, cursor) && k < Count(s, n) && k < DIRECT
    ensures PointsAt(raw, s, i, cursor, k)
  {
    assert PointerAt(raw, InodeAt(s, i) + 40, cursor, k);
  }

  lemma IndirectPoints(raw: seq<Byte>, s: Scale, i: nat, n: nat, cursor: int, k: nat)
    requires Word(raw, InodeAt(s, i) + 88) == INDIRECT_BLOCK + i && IndirectWritten(raw, s, i, n, cursor)
    requires DIRECT <= k < Count(s, n)
    ensures PointsAt(raw, s, i, cursor, k)
  {
    assert PointerAt(raw, Blk(s, INDIRECT_BLOCK + i), cursor + DIRECT, k - DIRECT);
  }

  lemma FilePoints(raw: seq<Byte>, s: Scale, i: nat, n: nat, cursor: int)
    requires InodeWritten(raw, s, i, n, cursor) && IndirectWritten(raw, s, i, n, cursor)
    ensures PointsTo(raw, s, i, cursor, Count(s, n))
    ensures Count(s, n) > DIRECT ==> IndirectOf(raw, s, i) == INDIRECT_BLOCK + i
  {
    forall k: nat | k < Count(s, n) ensures PointsAt(raw, s, i, cursor, k) {
      if k < DIRECT {
        DirectPoints(raw, s, i, n, cursor, k);
      } else {
        IndirectPoints(raw, s, i, n, cursor, k);
      }
    }
  }

  lemma {:induction false} PointersRange(raw: seq<Byte>, s: Scale, i: nat, cursor: int, count: nat, k: nat)
    requires PointsTo(raw, s, i, cursor, count) && k <= count
    ensures Pointers(raw, s, i, k) == Run(cursor, k)
  {
    if k > 0 {
      PointersRange(raw, s, i, cursor, count, k - 1);
      assert PointsAt(raw, s, i, cursor, k - 1);
    }
  }

  /** A written file owns the blocks planned for it. */
  lemma OwnedAsPlanned(raw: seq<Byte>, s: Scale, files: Files, i: nat)
    requires i < |files| && FileWritten(raw, s, files, i)
    ensures OwnedBy(raw, s, i, |files[i]|) == PlanFile(s, files, i)
  {
    FilePoints(raw, s, i, |files[i]|, Cursor(s, files, i));
    PointersRange(raw, s, i, Cursor(s, files, i), Count(s, |files[i]|), Count(s, |files[i]|));
  }

  ghost predicate OwnsPlan(raw: seq<Byte>, s: Scale, files: Files, i: int)
    requires 0 <= i < |files|
  {
    OwnedBy(raw, s, i, |files[i]|) == PlanFile(s, files, i)
  }

  lemma {:induction false} OwnedIsPlan(raw: seq<Byte>, s: Scale, files: Files, m: nat)
    requires m <= |files| && forall i {:trigger OwnsPlan(raw, s, files, i)} :: 0 <= i < m ==> OwnsPlan(raw, s, files, i)
    ensures Owned(raw, s, files, m) == Plan(s, files, m)
  {
    if m > 0 {
      OwnedIsPlan(raw, s, files, m - 1);
      assert OwnsPlan(raw, s, files, m - 1);
    }
  }

  lemma BlockBytesAre(raw: seq<Byte>, s: Scale, block: int)
    requires |raw| == IMAGE_SIZE && 0 <= block < Total(s)
    ensures 0 <= Blk(s, block) <= Blk(s, block + 1) <= |raw|
    ensures BlockBytes(raw, s, block) == raw[Blk(s, block)..Blk(s, block + 1)]
  {
  }

  /** Part j of the pieces that are cut at these places. */
  predicate CutAt(raw: seq<Byte>, parts: seq<seq<Byte>>, cut: seq<int>, j: int)
    requires 0 <= j < |parts| && |cut| == |parts| + 1
  {
    0 <= cut[j] <= cut[j + 1] <= |raw| && parts[j] == raw[cut[j]..cut[j + 1]]
  }

  /** Pieces cut one behind the other join to the whole. */
  lemma {:induction false} CutsJoin(raw: seq<Byte>, parts: seq<seq<Byte>>, cut: seq<int>, n: nat)
    requires n <= |parts| && |cut| == |parts| + 1 && 0 <= cut[0] <= |raw|
    requires forall j {:trigger CutAt(raw, parts, cut, j)} :: 0 <= j < |parts| ==> CutAt(raw, parts, cut, j)
    ensures cut[0] <= cut[n] <= |raw| && Joined(parts, n) == raw[cut[0]..cut[n]]
  {
    if n > 0 {
      CutsJoin(raw, parts, cut, n - 1);
      assert CutAt(raw, parts, cut, n - 1);
    }
  }

  function Cuts(s: Scale, cursor: int, count: nat): (cut: seq<int>)
    ensures |cut| == count + 1 && forall j :: 0 <= j <= count ==> cut[j] == Blk(s, cursor + j)
  {
    seq(count + 1, j => Blk(s, cursor + j))
  }

  /** Consecutive blocks are one piece of the image. */
  lemma ContentIsPiece(raw: seq<Byte>, s: Scale, cursor: nat, count: nat)
    requires |raw| == IMAGE_SIZE && cursor + count <= Total(s)
    ensures 0 <= Blk(s, cursor) <= Blk(s, cursor + count) <= |raw|
    ensures Content(raw, s, Run(cursor, count)) == raw[Blk(s, cursor)..Blk(s, cursor + count)]
  {
    var blocks := Run(cursor, count);
    var parts, cut := BlockParts(raw, s, blocks), Cuts(s, cursor, count);
    forall j | 0 <= j < count ensures CutAt(raw, parts, cut, j) {
      BlockBytesAre(raw, s, cursor + j);
    }
    assert cut[0] == Blk(s, cursor) && cut[count] == Blk(s, cursor + count);
    CutsJoin(raw, parts, cut, count);
  }

  lemma PieceReads(raw: seq<Byte>, lo: int, hi: int, file: seq<Byte>)
    requires At(raw, lo, file) && lo + |file| <= hi <= |raw| && Zero(raw, lo + |file|, hi)
    ensures raw[lo..hi][..|file|] == file && Zero(raw[lo..hi], |file|, hi - lo)
  {
    assert raw[lo..hi][..|file|] == raw[lo..lo + |file|];
  }

  lemma ContentReads(raw: seq<Byte>, s: Scale, i: nat, file: seq<Byte>, cursor: nat)
    requires Pointers(raw, s, i, Count(s, |file|)) == Run(cursor, Count(s, |file|))
    requires DataWritten(raw, s, file, cursor)
    requires |raw| == IMAGE_SIZE && cursor + Count(s, |file|) <= Total(s)
    ensures ContentOk(raw, s, i, file)
  {
    var count := Count(s, |file|);
    CountBounds(s, |file|);
    ContentIsPiece(raw, s, cursor, count);
    PieceReads(raw, Blk(s, cursor), Blk(s, cursor + count), file);
  }

  lemma PointersAreClean(raw: seq<Byte>, s: Scale, i: nat, n: nat, cursor: int)
    requires InodeWritten(raw, s, i, n, cursor) && IndirectWritten(raw, s, i, n, cursor)
    ensures PointersClean(raw, s, i, n)
  {
  }

  /** A written file passes every check on it. */
  lemma WrittenIsOk(raw: seq<Byte>, s: Scale, files: Files, i: nat)
    requires i < |files| && FileWritten(raw, s, files, i) && FileFits(s, files, i) && |raw| == IMAGE_SIZE
    ensures FileOk(raw, s, files, i)
  {
    FilePoints(raw, s, i, |files[i]|, Cursor(s, files, i));
    PointersRange(raw, s, i, Cursor(s, files, i), Count(s, |files[i]|), Count(s, |files[i]|));
    ContentReads(raw, s, i, files[i], Cursor(s, files, i));
    PointersAreClean(raw, s, i, |files[i]|, Cursor(s, files, i));
  }

  // ----- The whole image

  /** Blocks that no part of the layout uses. */
  predicate GapsZero(raw: seq<Byte>, s: Scale, files: Files) {
    && Zero(raw, InodeAt(s, FILE_COUNT), Blk(s, DIRECTORY_BLOCK))
    && Zero(raw, Blk(s, INDIRECT_BLOCK + FILE_COUNT), Blk(s, DATA_BLOCK))
    && Zero(raw, Blk(s, Cursor(s, files, |files|)), |raw|)
  }

  /** The bytes in front of the files' inodes that belong to no field are zero. */
  predicate Margins(raw: seq<Byte>, s: Scale) {
    var r := RootInodeAt(s);
    && Zero(raw, 0, 1024) && Zero(raw, 1032, 1036) && Zero(raw, 1068, 1080) && Zero(raw, 1084, 1100)
    && Zero(raw, 1104, 1108) && Zero(raw, 1114, 1120) && Zero(raw, 1124, GroupAt(s))
    && Zero(raw, GroupAt(s) + 18, Blk(s, 3)) && Zero(raw, Blk(s, 5), r)
    && Zero(raw, r + 2, r + 4) && Zero(raw, r + 8, r + 26) && Zero(raw, r + 32, r + 40) && Zero(raw, r + 44, InodeAt(s, 0))
  }

  /** The whole image; the file system is marked as cleanly unmounted. */
  ghost predicate Written(raw: seq<Byte>, s: Scale, files: Files) {
    && |raw| == IMAGE_SIZE && |files| == FILE_COUNT && HeaderOk(raw, s) && RootInodeOk(raw, s) && DirectoryOk(raw, s)
    && Half(raw, 1082) == 1 && Margins(raw, s)
    && (forall i {:trigger FileWritten(raw, s, files, i)} :: 0 <= i < FILE_COUNT ==> FileWritten(raw, s, files, i))
    && GapsZero(raw, s, files)
    && var used := Used(s, Plan(s, files, FILE_COUNT)); BitmapsOk(raw, s, used) && FreeOk(raw, s, used)
  }

  lemma PlanHolds(s: Scale, files: Files, m: nat, b: int)
    requires 0 < m <= |files| && (b in Plan(s, files, m - 1) || b in PlanFile(s, files, m - 1))
    ensures b in Plan(s, files, m)
  {
  }

  lemma {:induction false} IndirectPlanned(s: Scale, files: Files, m: nat, i: nat)
    requires i < m <= |files| && Count(s, |files[i]|) > DIRECT
    ensures INDIRECT_BLOCK + i in Plan(s, files, m)
  {
    if i == m - 1 {
      assert PlanFile(s, files, i)[0] == INDIRECT_BLOCK + i;
    } else {
      IndirectPlanned(s, files, m - 1, i);
    }
    PlanHolds(s, files, m, INDIRECT_BLOCK + i);
  }

  lemma {:induction false} DataPlanned(s: Scale, files: Files, m: nat, b: int)
    requires m <= |files| && DATA_BLOCK <= b < Cursor(s, files, m)
    ensures b in Plan(s, files, m)
  {
    if b < Cursor(s, files, m - 1) {
      DataPlanned(s, files, m - 1, b);
    } else {
      var lead := if Count(s, |files[m - 1]|) > DIRECT then 1 else 0;
      assert PlanFile(s, files, m - 1)[lead + (b - Cursor(s, files, m - 1))] == b;
    }
  }

  lemma {:induction false} DirectoryPlanned(s: Scale, files: Files, m: nat)
    requires m <= |files|
    ensures DIRECTORY_BLOCK in Plan(s, files, m)
  {
    if m > 0 {
      DirectoryPlanned(s, files, m - 1);
    }
  }

  predicate IndirectDone(raw: seq<Byte>, s: Scale, files: Files, i: int)
    requires 0 <= i < |files|
  {
    IndirectWritten(raw, s, i, |files[i]|, Cursor(s, files, i))
  }

  /** A block that is not in use is one of the gaps, or a pointer block that no file needs. */
  lemma UnusedBlockZero(raw: seq<Byte>, s: Scale, files: Files, b: int)
    requires |raw| == IMAGE_SIZE && |files| == FILE_COUNT && GapsZero(raw, s, files)
    requires forall i {:trigger IndirectDone(raw, s, files, i)} :: 0 <= i < FILE_COUNT ==> IndirectDone(raw, s, files, i)
    requires MetaEnd(s) <= b < Total(s) && b !in Plan(s, files, FILE_COUNT)
    ensures Zero(raw, Blk(s, b), Blk(s, b + 1))
  {
    DirectoryPlanned(s, files, FILE_COUNT);
    if INDIRECT_BLOCK <= b < INDIRECT_BLOCK + FILE_COUNT {
      IndirectZero(raw, s, files, b - INDIRECT_BLOCK);
    } else {
      if DATA_BLOCK <= b < Cursor(s, files, FILE_COUNT) {
        DataPlanned(s, files, FILE_COUNT, b);
        assert false;
      }
      GapBlock(raw, s, files, b);
    }
  }

  lemma GapBlock(raw: seq<Byte>, s: Scale, files: Files, b: int)
    requires |raw| == IMAGE_SIZE && GapsZero(raw, s, files) && MetaEnd(s) <= b < Total(s)
    requires b < DIRECTORY_BLOCK || INDIRECT_BLOCK + FILE_COUNT <= b < DATA_BLOCK || Cursor(s, files, |files|) <= b
    ensures Zero(raw, Blk(s, b), Blk(s, b + 1))
  {
  }

  lemma IndirectZero(raw: seq<Byte>, s: Scale, files: Files, i: nat)
    requires i < |files| == FILE_COUNT && IndirectDone(raw, s, files, i)
    requires INDIRECT_BLOCK + i !in Plan(s, files, FILE_COUNT)
    ensures Zero(raw, Blk(s, INDIRECT_BLOCK + i), Blk(s, INDIRECT_BLOCK + i + 1))
  {
    if Count(s, |files[i]|) > DIRECT {
      IndirectPlanned(s, files, FILE_COUNT, i);
    }
  }

  lemma UnusedIsZero(raw: seq<Byte>, s: Scale, files: Files)
    requires Written(raw, s, files)
    ensures UnusedZero(raw, s, Used(s, Plan(s, files, FILE_COUNT)))
  {
    forall i | 0 <= i < FILE_COUNT ensures IndirectDone(raw, s, files, i) {
      assert FileWritten(raw, s, files, i);
    }
    forall b | First(s) <= b < Total(s) && b !in Used(s, Plan(s, files, FILE_COUNT))
      ensures Zero(raw, Blk(s, b), Blk(s, b + 1))
    {
      assert !InMeta(s, b);
      UnusedBlockZero(raw, s, files, b);
    }
  }

  lemma PlanIsSeparate(s: Scale, files: Files)
    requires |files| == FILE_COUNT && Fits(s, files)
    ensures Separate(s, Plan(s, files, FILE_COUNT))
  {
    PlanSeparate(s, files, FILE_COUNT);
    var p := Plan(s, files, FILE_COUNT);
    forall a | 0 <= a < |p| ensures First(s) <= p[a] < Total(s) && p[a] !in Meta(s) {
      assert Planned(s, files, FILE_COUNT, p[a]);
    }
  }

  lemma PointsToCursor(raw: seq<Byte>, s: Scale, files: Files, i: nat, k: nat)
    requires Written(raw, s, files) && i < FILE_COUNT && k < Count(s, |files[i]|)
    ensures Pointer(raw, s, i, k) == Cursor(s, files, i) + k
    ensures Count(s, |files[i]|) > DIRECT ==> IndirectOf(raw, s, i) == INDIRECT_BLOCK + i
  {
    assert FileWritten(raw, s, files, i);
    FilePoints(raw, s, i, |files[i]|, Cursor(s, files, i));
    assert PointsAt(raw, s, i, Cursor(s, files, i), k);
  }

  /** The first file begins at block 32; the pointer block of file i is block 22 + i. */
  lemma FirstPointers(raw: seq<Byte>, s: Scale, files: Files, i: nat)
    requires Written(raw, s, files) && Admitted(files) && i < FILE_COUNT
    ensures Pointer(raw, s, 0, 0) == 32
    ensures Count(s, |files[i]|) > 12 ==> IndirectOf(raw, s, i) == 22 + i
  {
    CountBounds(s, |files[0]|);
    PointsToCursor(raw, s, files, 0, 0);
    if Count(s, |files[i]|) > 12 {
      PointsToCursor(raw, s, files, i, 0);
    }
  }

  /** The blocks of a file follow one another. */
  lemma NextBlock(raw: seq<Byte>, s: Scale, files: Files, i: nat, k: nat)
    requires Written(raw, s, files) && i < FILE_COUNT && k + 1 < Count(s, |files[i]|)
    ensures Pointer(raw, s, i, k + 1) == Pointer(raw, s, i, k) + 1
  {
    PointsToCursor(raw, s, files, i, k);
    PointsToCursor(raw, s, files, i, k + 1);
  }

  lemma FirstBlock(raw: seq<Byte>, s: Scale, files: Files, i: nat)
    requires Written(raw, s, files) && Admitted(files) && i < FILE_COUNT
    ensures Pointer(raw, s, i, 0) == Cursor(s, files, i)
  {
    CountBounds(s, |files[i]|);
    PointsToCursor(raw, s, files, i, 0);
  }

  lemma LastBlock(raw: seq<Byte>, s: Scale, files: Files, i: nat, n: nat)
    requires Written(raw, s, files) && i < FILE_COUNT && n + 1 == Count(s, |files[i]|)
    ensures Pointer(raw, s, i, n) + 1 == Cursor(s, files, i + 1)
  {
    PointsToCursor(raw, s, files, i, n);
  }

  /** And the files follow one another. */
  lemma NextFile(raw: seq<Byte>, s: Scale, files: Files, i: nat, n: nat)
    requires Written(raw, s, files) && Admitted(files) && i + 1 < FILE_COUNT && n + 1 == Count(s, |files[i]|)
    ensures Pointer(raw, s, i + 1, 0) == Pointer(raw, s, i, n) + 1
  {
    LastBlock(raw, s, files, i, n);
    FirstBlock(raw, s, files, i + 1);
  }

  /** What the writer produces, the checker accepts. */
  lemma WrittenIsAccepted(raw: seq<Byte>, s: Scale, files: Files)
    requires Written(raw, s, files) && Admitted(files) && Fits(s, files)
    ensures Accepted(raw, s, files)
  {
    forall i | 0 <= i < FILE_COUNT ensures OwnsPlan(raw, s, files, i) {
      assert FileWritten(raw, s, files, i);
      OwnedAsPlanned(raw, s, files, i);
    }
    OwnedIsPlan(raw, s, files, FILE_COUNT);
    PlanIsSeparate(s, files);
    forall i | 0 <= i < FILE_COUNT ensures FileOk(raw, s, files, i) {
      assert FileWritten(raw, s, files, i) && FileFits(s, files, i);
      WrittenIsOk(raw, s, files, i);
    }
    UnusedIsZero(raw, s, files);
  }
}
