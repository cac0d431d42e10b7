/** Conversion of a linked ELF32 program to the kernel's flat image, and the loader's view of it. */
module ProgramImage {
  import opened Bytes
  import opened Numbers

  const PROGRAM_BASE := 0x4000_0000
  const REGION_SIZE := 8 * 1024 * 1024
  const HEADER_SIZE := 28
  const PAYLOAD_BASE := PROGRAM_BASE + HEADER_SIZE
  const ELF_HEADER_SIZE := 52
  const PROGRAM_HEADER_SIZE := 32
  const SECTION_HEADER_SIZE := 40
  const MAGIC := 0xDEAD_BEEF
  const PAGE_SIZE := 4096
  const ELF_IDENT: seq<Byte> := [0x7F, 0x45, 0x4C, 0x46, 1, 1, 1]
  const IMAGE_IDENT: seq<Byte> := [0x4D, 0x59, 0x50, 0x52]

  datatype Segment = Segment(at: int, offset: int, fileSize: int, memorySize: int, executable: bool)

  datatype Verdict = Accepted | BadHeader | BadSections | BadSegment | NoEntry | Overlap

  // ----- What the file says

  function PhOff(elf: seq<Byte>): int requires |elf| >= ELF_HEADER_SIZE { U32(elf, 28) }
  function ShOff(elf: seq<Byte>): int requires |elf| >= ELF_HEADER_SIZE { U32(elf, 32) }
  function PhNum(elf: seq<Byte>): int requires |elf| >= ELF_HEADER_SIZE { U16(elf, 44) }
  function ShNum(elf: seq<Byte>): int requires |elf| >= ELF_HEADER_SIZE { U16(elf, 48) }
  function Entry(elf: seq<Byte>): int requires |elf| >= ELF_HEADER_SIZE { U32(elf, 24) }

  /** A little-endian i386 executable whose program-header table lies in the file. */
  predicate HeaderGood(elf: seq<Byte>) {
    && |elf| >= ELF_HEADER_SIZE
    && elf[..7] == ELF_IDENT && U16(elf, 16) == 2 && U16(elf, 18) == 3
    && U32(elf, 20) == 1 && U16(elf, 40) == ELF_HEADER_SIZE && U16(elf, 42) == PROGRAM_HEADER_SIZE
    && PhOff(elf) + PhNum(elf) * PROGRAM_HEADER_SIZE <= |elf|
  }

  predicate SectionsListed(elf: seq<Byte>)
    requires |elf| >= ELF_HEADER_SIZE
  {
    ShNum(elf) != 0 && ShOff(elf) != 0
  }

  predicate SectionTableGood(elf: seq<Byte>)
    requires |elf| >= ELF_HEADER_SIZE
  {
    U16(elf, 46) == SECTION_HEADER_SIZE && ShOff(elf) + ShNum(elf) * SECTION_HEADER_SIZE <= |elf|
  }

  /** Section i holds relocations that would have to be applied at run time. */
  predicate Relocates(elf: seq<Byte>, i: int)
    requires |elf| >= ELF_HEADER_SIZE && SectionTableGood(elf) && 0 <= i < ShNum(elf)
  {
    var at := ShOff(elf) + i * SECTION_HEADER_SIZE;
    (U32(elf, at + 4) == 4 || U32(elf, at + 4) == 9) && U32(elf, at + 20) != 0
  }

  predicate SectionsGood(elf: seq<Byte>)
    requires |elf| >= ELF_HEADER_SIZE
  {
    SectionsListed(elf) ==> SectionTableGood(elf) && forall i :: 0 <= i < ShNum(elf) ==> !Relocates(elf, i)
  }

  function HeaderAt(elf: seq<Byte>, i: int): int
    requires |elf| >= ELF_HEADER_SIZE
  {
    PhOff(elf) + i * PROGRAM_HEADER_SIZE
  }

  predicate Listed(elf: seq<Byte>, i: int) {
    HeaderGood(elf) && 0 <= i < PhNum(elf)
  }

  /** Only PT_LOAD entries that occupy memory are loaded. */
  predicate Loads(elf: seq<Byte>, i: int)
    requires Listed(elf, i)
  {
    U32(elf, HeaderAt(elf, i)) == 1 && U32(elf, HeaderAt(elf, i) + 20) != 0
  }

  function SegmentAt(elf: seq<Byte>, i: int): Segment
    requires Listed(elf, i)
  {
    var at := HeaderAt(elf, i);
    Segment(U32(elf, at + 8), U32(elf, at + 4), U32(elf, at + 16), U32(elf, at + 20), U32(elf, at + 24) % 2 == 1)
  }

  predicate SegmentGood(elf: seq<Byte>, i: int)
    requires Listed(elf, i)
  {
    Loads(elf, i) ==> Fits(elf, SegmentAt(elf, i)) && U32(elf, HeaderAt(elf, i) + 8) == U32(elf, HeaderAt(elf, i) + 12)
  }

  /** File bytes in the file, memory in the region behind the image header. */
  predicate Fits(elf: seq<Byte>, s: Segment) {
    && 0 <= s.fileSize <= s.memorySize && 0 < s.memorySize && 0 <= s.offset && s.offset + s.fileSize <= |elf|
    && PAYLOAD_BASE <= s.at && s.at + s.memorySize - PROGRAM_BASE <= REGION_SIZE
  }

  /** The loaded segments of the first n table entries, in file order. */
  function Segments(elf: seq<Byte>, n: nat): seq<Segment>
    requires HeaderGood(elf) && n <= PhNum(elf)
  {
    if n == 0 then []
    else if Loads(elf, n - 1) then Segments(elf, n - 1) + [SegmentAt(elf, n - 1)]
    else Segments(elf, n - 1)
  }

  function AllSegments(elf: seq<Byte>): seq<Segment>
    requires HeaderGood(elf)
  {
    Segments(elf, PhNum(elf))
  }

  predicate SegmentsGood(elf: seq<Byte>, n: int)
    requires HeaderGood(elf) && n <= PhNum(elf)
  {
    forall i :: 0 <= i < n ==> SegmentGood(elf, i)
  }

  predicate Covers(s: Segment, a: int) { s.at <= a < s.at + s.memorySize }

  predicate Backs(s: Segment, a: int) { s.at <= a < s.at + s.fileSize }

  predicate Clear(s: Segment, t: Segment) {
    s.at + s.memorySize <= t.at || t.at + t.memorySize <= s.at
  }

  predicate Apart(segs: seq<Segment>, n: int)
    requires n <= |segs|
  {
    forall i, j :: 0 <= i < j < n ==> Clear(segs[i], segs[j])
  }

  predicate Starts(s: Segment, entry: int) { s.executable && Backs(s, entry) }

  predicate EntryBacked(segs: seq<Segment>, entry: int) {
    exists i :: 0 <= i < |segs| && Starts(segs[i], entry)
  }

  /** What the converter says about a file, check by check. */
  ghost function Judged(elf: seq<Byte>): Verdict {
    if !HeaderGood(elf) then BadHeader
    else if !SectionsGood(elf) then BadSections
    else if !SegmentsGood(elf, PhNum(elf)) then BadSegment
    else if !EntryBacked(AllSegments(elf), Entry(elf)) then NoEntry
    else if !Apart(AllSegments(elf), |AllSegments(elf)|) then Overlap
    else Accepted
  }

  // ----- What running the file means

  /** The byte a segment puts at an address: a file byte, or zero in its tail. */
  function SegmentByte(elf: seq<Byte>, s: Segment, a: int): Byte {
    if Backs(s, a) && 0 <= s.offset + (a - s.at) < |elf| then elf[s.offset + (a - s.at)] else 0
  }

  /** The byte at an address after loading the first n segments, one after the other, into zeroed memory. */
  function ByteAfter(elf: seq<Byte>, segs: seq<Segment>, n: int, a: int): Byte
    requires 0 <= n <= |segs|
  {
    if n == 0 then 0
    else if Covers(segs[n - 1], a) then SegmentByte(elf, segs[n - 1], a)
    else ByteAfter(elf, segs, n - 1, a)
  }

  /** Loading leaves zero, or the byte of a segment that covers the address. */
  lemma {:induction false} ByteFrom(elf: seq<Byte>, segs: seq<Segment>, n: int, a: int) returns (i: int)
    requires 0 <= n <= |segs|
    ensures -1 <= i < n
    ensures i == -1 ==> ByteAfter(elf, segs, n, a) == 0 && forall j :: 0 <= j < n ==> !Covers(segs[j], a)
    ensures i >= 0 ==> Covers(segs[i], a) && ByteAfter(elf, segs, n, a) == SegmentByte(elf, segs[i], a)
  {
    if n == 0 {
      i := -1;
    } else if Covers(segs[n - 1], a) {
      i := n - 1;
    } else {
      i := ByteFrom(elf, segs, n - 1, a);
    }
  }

  lemma CoverUnique(segs: seq<Segment>, i: int, j: int, a: int)
    requires Apart(segs, |segs|) && 0 <= i < |segs| && 0 <= j < |segs| && Covers(segs[i], a) && Covers(segs[j], a)
    ensures i == j
  {
  }

  lemma SameMembers<T>(s: seq<T>, t: seq<T>, k: int) returns (j: int)
    requires multiset(s) == multiset(t) && 0 <= k < |s|
    ensures 0 <= j < |t| && t[j] == s[k]
  {
    assert s[k] in multiset(s);
    j :| 0 <= j < |t| && t[j] == s[k];
  }

  /** Segments that lie apart may be loaded in any order. */
  lemma OrderIrrelevant(elf: seq<Byte>, segs: seq<Segment>, order: seq<Segment>, a: int)
    requires Apart(segs, |segs|) && multiset(order) == multiset(segs)
    ensures ByteAfter(elf, order, |order|, a) == ByteAfter(elf, segs, |segs|, a)
  {
    var i := ByteFrom(elf, segs, |segs|, a);
    var k := ByteFrom(elf, order, |order|, a);
    if k >= 0 {
      var j := SameMembers(order, segs, k);
      CoverUnique(segs, i, j, a);
    } else if i >= 0 {
      var j := SameMembers(segs, order, i);
    }
  }

  // ----- The converter

  method CheckSections(elf: seq<Byte>) returns (ok: bool)
    requires |elf| >= ELF_HEADER_SIZE
    ensures ok <==> SectionsGood(elf)
  {
    if !SectionsListed(elf) { return true; }
    if !SectionTableGood(elf) { return false; }
    var index := 0;
    while index < ShNum(elf)
      invariant 0 <= index <= ShNum(elf)
      invariant forall i :: 0 <= i < index ==> !Relocates(elf, i)
    {
      if Relocates(elf, index) { return false; }
      index := index + 1;
    }
    ok := true;
  }

  function MemoryEnd(s: Segment): int { s.at + s.memorySize }

  function FileEnd(s: Segment): int { s.at + s.fileSize }

  /** The ends the converter collects bound every segment, and are reached unless they are still at the start. */
  ghost predicate Extents(segs: seq<Segment>, imageEnd: int, fileEnd: int) {
    && PAYLOAD_BASE <= fileEnd <= imageEnd <= PROGRAM_BASE + REGION_SIZE
    && (forall i :: 0 <= i < |segs| ==> MemoryEnd(segs[i]) <= imageEnd)
    && (forall i :: 0 <= i < |segs| ==> FileEnd(segs[i]) <= fileEnd)
    && (imageEnd == PAYLOAD_BASE || exists i :: 0 <= i < |segs| && MemoryEnd(segs[i]) == imageEnd)
    && (fileEnd == PAYLOAD_BASE || exists i :: 0 <= i < |segs| && FileEnd(segs[i]) == fileEnd)
  }

  lemma ExtentsGrow(elf: seq<Byte>, segs: seq<Segment>, s: Segment, imageEnd: int, fileEnd: int)
    requires Extents(segs, imageEnd, fileEnd) && AllFit(elf, segs) && Fits(elf, s)
    ensures Extents(segs + [s], Max(imageEnd, MemoryEnd(s)), Max(fileEnd, FileEnd(s))) && AllFit(elf, segs + [s])
  {
    var more := segs + [s];
    assert more[|segs|] == s;
    if i :| 0 <= i < |segs| && MemoryEnd(segs[i]) == imageEnd {
      assert MemoryEnd(more[i]) == imageEnd;
    }
    if i :| 0 <= i < |segs| && FileEnd(segs[i]) == fileEnd {
      assert FileEnd(more[i]) == fileEnd;
    }
  }

  ghost predicate AllFit(elf: seq<Byte>, segs: seq<Segment>) {
    forall i :: 0 <= i < |segs| ==> Fits(elf, segs[i])
  }

  /** Reads the program headers; gives up at the first segment that cannot be loaded. */
  method ReadSegments(elf: seq<Byte>) returns (ok: bool, segs: seq<Segment>, imageEnd: int, fileEnd: int, runs: bool)
    requires HeaderGood(elf)
    ensures ok <==> SegmentsGood(elf, PhNum(elf))
    ensures ok ==> segs == AllSegments(elf) && AllFit(elf, segs) && Extents(segs, imageEnd, fileEnd)
    ensures ok ==> (runs <==> EntryBacked(segs, Entry(elf)))
  {
    segs, imageEnd, fileEnd, runs, ok := [], PAYLOAD_BASE, PAYLOAD_BASE, false, true;
    var index := 0;
    while index < PhNum(elf)
      invariant 0 <= index <= PhNum(elf) && Collected(elf, index, segs, imageEnd, fileEnd, runs)
    {
      ok := SegmentGood(elf, index);
      if !ok { return; }
      if Loads(elf, index) {
        CollectMore(elf, index, segs, imageEnd, fileEnd, runs);
        var s := SegmentAt(elf, index);
        if Starts(s, Entry(elf)) { runs := true; }
        segs := segs + [s];
        imageEnd := Max(imageEnd, MemoryEnd(s));
        fileEnd := Max(fileEnd, FileEnd(s));
      }
      index := index + 1;
    }
  }

  /** What has been collected from the first n table entries. */
  ghost predicate Collected(elf: seq<Byte>, n: int, segs: seq<Segment>, imageEnd: int, fileEnd: int, runs: bool)
    requires HeaderGood(elf) && 0 <= n <= PhNum(elf)
  {
    && SegmentsGood(elf, n) && segs == Segments(elf, n) && AllFit(elf, segs) && Extents(segs, imageEnd, fileEnd)
    && (runs <==> EntryBacked(segs, Entry(elf)))
  }

  lemma CollectMore(elf: seq<Byte>, n: int, segs: seq<Segment>, imageEnd: int, fileEnd: int, runs: bool)
    requires Listed(elf, n) && Collected(elf, n, segs, imageEnd, fileEnd, runs) && SegmentGood(elf, n) && Loads(elf, n)
    ensures var s := SegmentAt(elf, n);
      Collected(elf, n + 1, segs + [s], Max(imageEnd, MemoryEnd(s)), Max(fileEnd, FileEnd(s)),
                runs || Starts(s, Entry(elf)))
  {
    var s := SegmentAt(elf, n);
    assert EntryBacked(segs + [s], Entry(elf)) <==> runs || Starts(s, Entry(elf)) by {
      EntryAdded(segs, s, Entry(elf));
    }
    ExtentsGrow(elf, segs, s, imageEnd, fileEnd);
  }

  lemma EntryAdded(segs: seq<Segment>, s: Segment, entry: int)
    ensures EntryBacked(segs + [s], entry) <==> EntryBacked(segs, entry) || Starts(s, entry)
  {
    if EntryBacked(segs, entry) {
      var i :| 0 <= i < |segs| && Starts(segs[i], entry);
      assert Starts((segs + [s])[i], entry);
    }
    assert (segs + [s])[|segs|] == s;
  }

  ghost predicate Taken(segs: seq<Segment>, n: int, a: int)
    requires n <= |segs|
  {
    exists i :: 0 <= i < n && Covers(segs[i], a)
  }

  /** The occupancy map marks exactly the addresses of the first n segments. */
  ghost predicate Occupied(occupied: seq<bool>, segs: seq<Segment>, n: int)
    requires n <= |segs|
  {
    forall d :: 0 <= d < |occupied| ==> (occupied[d] <==> Taken(segs, n, PAYLOAD_BASE + d))
  }

  ghost predicate Placed(elf: seq<Byte>, payload: seq<Byte>, segs: seq<Segment>, n: int)
    requires 0 <= n <= |segs|
  {
    forall d :: 0 <= d < |payload| ==> payload[d] == ByteAfter(elf, segs, n, PAYLOAD_BASE + d)
  }

  lemma ApartMore(segs: seq<Segment>, n: int)
    requires 0 <= n < |segs| && Apart(segs, n)
    ensures Apart(segs, n + 1) <==> forall i :: 0 <= i < n ==> Clear(segs[i], segs[n])
  {
  }

  /** Copies one segment's file bytes and marks its memory; refuses memory that is already taken. */
  method PlaceOne(elf: seq<Byte>, segs: seq<Segment>, n: int, payload: array<Byte>, occupied: array<bool>)
    returns (ok: bool)
    requires 0 <= n < |segs| && AllFit(elf, segs)
    requires Extents(segs, PAYLOAD_BASE + occupied.Length, PAYLOAD_BASE + payload.Length)
    requires Occupied(occupied[..], segs, n) && Placed(elf, payload[..], segs, n)
    requires payload as object != occupied as object && Apart(segs, n)
    modifies payload, occupied
    ensures ok <==> Apart(segs, n + 1)
    ensures ok ==> Occupied(occupied[..], segs, n + 1) && Placed(elf, payload[..], segs, n + 1)
  {
    var s := segs[n];
    var destination := s.at - PAYLOAD_BASE;
    ok := AllFree(occupied, destination, destination + s.memorySize);
    ApartMore(segs, n);
    FreeMeansClear(occupied[..], segs, n, destination, destination + s.memorySize);
    if !ok { return; }
    forall k | 0 <= k < s.fileSize {
      payload[destination + k] := elf[s.offset + k];
    }
    forall k | 0 <= k < s.memorySize {
      occupied[destination + k] := true;
    }
    PlacedMore(elf, old(payload[..]), payload[..], segs, n);
    OccupiedMore(old(occupied[..]), occupied[..], segs, n);
  }

  method AllFree(occupied: array<bool>, from: int, to: int) returns (free: bool)
    requires 0 <= from <= to <= occupied.Length
    ensures free <==> forall d :: from <= d < to ==> !occupied[d]
  {
    var d := from;
    while d < to
      invariant from <= d <= to && forall e :: from <= e < d ==> !occupied[e]
    {
      if occupied[d] { return false; }
      d := d + 1;
    }
    free := true;
  }

  /** The bytes of the new segment are free exactly when it lies apart from all placed ones. */
  lemma FreeMeansClear(occupied: seq<bool>, segs: seq<Segment>, n: int, from: int, to: int)
    requires 0 <= n < |segs| && Occupied(occupied, segs, n) && forall i :: 0 <= i <= n ==> segs[i].memorySize > 0
    requires 0 <= from < to <= |occupied| && from == segs[n].at - PAYLOAD_BASE && to == from + segs[n].memorySize
    ensures (forall d :: from <= d < to ==> !occupied[d]) <==> forall i :: 0 <= i < n ==> Clear(segs[i], segs[n])
  {
    if i :| 0 <= i < n && !Clear(segs[i], segs[n]) {
      var meet := Max(segs[i].at, segs[n].at);
      assert Covers(segs[i], meet) && occupied[meet - PAYLOAD_BASE];
    }
    if d :| from <= d < to && occupied[d] {
      assert Taken(segs, n, PAYLOAD_BASE + d);
      var i :| 0 <= i < n && Covers(segs[i], PAYLOAD_BASE + d);
      assert !Clear(segs[i], segs[n]);
    }
  }

  lemma OccupiedMore(before: seq<bool>, after: seq<bool>, segs: seq<Segment>, n: int)
    requires 0 <= n < |segs| && Occupied(before, segs, n) && |after| == |before|
    requires forall d :: 0 <= d < |after| ==> after[d] == (before[d] || Covers(segs[n], PAYLOAD_BASE + d))
    ensures Occupied(after, segs, n + 1)
  {
    forall d | 0 <= d < |after| ensures after[d] <==> Taken(segs, n + 1, PAYLOAD_BASE + d) {
      assert before[d] <==> Taken(segs, n, PAYLOAD_BASE + d);
      if Covers(segs[n], PAYLOAD_BASE + d) {
        assert Taken(segs, n + 1, PAYLOAD_BASE + d);
      }
    }
  }

  lemma PlacedMore(elf: seq<Byte>, before: seq<Byte>, after: seq<Byte>, segs: seq<Segment>, n: int)
    requires 0 <= n < |segs| && Fits(elf, segs[n]) && Placed(elf, before, segs, n) && |after| == |before|
    requires forall i :: 0 <= i < n ==> Clear(segs[i], segs[n])
    requires forall d :: 0 <= d < |after| && Backs(segs[n], PAYLOAD_BASE + d) ==>
      after[d] == SegmentByte(elf, segs[n], PAYLOAD_BASE + d)
    requires forall d :: 0 <= d < |after| && !Backs(segs[n], PAYLOAD_BASE + d) ==> after[d] == before[d]
    ensures Placed(elf, after, segs, n + 1)
  {
    forall d | 0 <= d < |after| ensures after[d] == ByteAfter(elf, segs, n + 1, PAYLOAD_BASE + d) {
      var i := ByteFrom(elf, segs, n, PAYLOAD_BASE + d);
    }
  }

  lemma NothingPlaced(elf: seq<Byte>, payload: seq<Byte>, occupied: seq<bool>, segs: seq<Segment>)
    requires forall d :: 0 <= d < |payload| ==> payload[d] == 0
    requires forall d :: 0 <= d < |occupied| ==> !occupied[d]
    ensures Apart(segs, 0) && Occupied(occupied, segs, 0) && Placed(elf, payload, segs, 0)
  {
  }

  /** Lays all segments out in one payload; fails exactly when two of them overlap. */
  method Place(elf: seq<Byte>, segs: seq<Segment>, imageEnd: int, fileEnd: int)
    returns (ok: bool, bytes: seq<Byte>)
    requires AllFit(elf, segs) && Extents(segs, imageEnd, fileEnd)
    ensures ok <==> Apart(segs, |segs|)
    ensures ok ==> |bytes| == fileEnd - PAYLOAD_BASE && Placed(elf, bytes, segs, |segs|)
  {
    var payload := new Byte[fileEnd - PAYLOAD_BASE](_ => 0);
    var occupied := new bool[imageEnd - PAYLOAD_BASE](_ => false);
    NothingPlaced(elf, payload[..], occupied[..], segs);
    var n := 0;
    while n < |segs|
      invariant 0 <= n <= |segs| && Apart(segs, n)
      invariant Occupied(occupied[..], segs, n) && Placed(elf, payload[..], segs, n)
    {
      ok := PlaceOne(elf, segs, n, payload, occupied);
      if !ok { return false, []; }
      n := n + 1;
    }
    return true, payload[..];
  }

  /** Zero bytes up to the next word boundary of the whole image. */
  method Pad(payload: seq<Byte>) returns (padded: seq<Byte>)
    ensures |payload| <= |padded| < |payload| + 4 && (HEADER_SIZE + |padded|) % 4 == 0
    ensures padded == payload + Zeros(|padded| - |payload|)
  {
    var odd := (HEADER_SIZE + |payload|) % 4;
    padded := payload;
    while (HEADER_SIZE + |padded|) % 4 != 0
      invariant |payload| <= |padded| && padded == payload + Zeros(|padded| - |payload|)
      invariant |padded| == |payload| || (0 < odd && odd + (|padded| - |payload|) <= 4)
      invariant (HEADER_SIZE + |padded|) % 4 == (odd + (|padded| - |payload|)) % 4
      decreases |payload| + 4 - |padded|
    {
      padded := padded + [0];
    }
  }

  /** The image header: seven words, the first of them the letters MYPR. */
  function ImageHeader(entry: int, programSize: int, storedSize: int): (h: seq<Byte>)
    requires PROGRAM_BASE <= entry < WORD_LIMIT && 0 <= programSize < WORD_LIMIT && 0 <= storedSize < WORD_LIMIT
    ensures |h| == HEADER_SIZE
  {
    IMAGE_IDENT + Pack32(MAGIC) + Pack32(entry - PROGRAM_BASE) + Pack32(programSize) + Pack32(PROGRAM_BASE)
    + Pack32(storedSize) + Pack32(0)
  }

  function WordAt(image: seq<Byte>, k: int): int
    requires |image| >= HEADER_SIZE && 0 <= k < 7
  {
    U32(image, 4 * k)
  }

  lemma HeaderWords(entry: int, programSize: int, storedSize: int, payload: seq<Byte>)
    requires PROGRAM_BASE <= entry < WORD_LIMIT && 0 <= programSize < WORD_LIMIT && 0 <= storedSize < WORD_LIMIT
    ensures var image := ImageHeader(entry, programSize, storedSize) + payload;
      && image[..4] == IMAGE_IDENT && WordAt(image, 1) == MAGIC && WordAt(image, 2) == entry - PROGRAM_BASE
      && WordAt(image, 3) == programSize && WordAt(image, 4) == PROGRAM_BASE && WordAt(image, 5) == storedSize
      && WordAt(image, 6) == 0
  {
    var image := ImageHeader(entry, programSize, storedSize) + payload;
    SameWord(image, 4, MAGIC);
    SameWord(image, 8, entry - PROGRAM_BASE);
    SameWord(image, 12, programSize);
    SameWord(image, 16, PROGRAM_BASE);
    SameWord(image, 20, storedSize);
    SameWord(image, 24, 0);
  }

  /** What the loader puts at an address: a stored byte, or zero behind the stored image. */
  function LoadedByte(image: seq<Byte>, a: int): Byte {
    if 0 <= a - PROGRAM_BASE < |image| then image[a - PROGRAM_BASE] else 0
  }

  /** The kernel's own check of an image before it is mapped. */
  predicate Valid(image: seq<Byte>, regionSize: int) {
    && HEADER_SIZE <= |image| <= regionSize
    && image[..4] == IMAGE_IDENT && WordAt(image, 1) == MAGIC
    && 0 < WordAt(image, 3) <= regionSize - HEADER_SIZE
    && WordAt(image, 4) == PROGRAM_BASE && PROGRAM_BASE <= WORD_LIMIT - 1 - (HEADER_SIZE + WordAt(image, 3))
    && WordAt(image, 6) == 0 && WordAt(image, 5) == |image|
    && HEADER_SIZE <= WordAt(image, 2) < HEADER_SIZE + WordAt(image, 3) && WordAt(image, 2) < WordAt(image, 5)
    && WordAt(image, 5) <= HEADER_SIZE + WordAt(image, 3) && WordAt(image, 5) % 4 == 0
  }

  /** The image of a program: the kernel accepts it, and every address holds what loading the segments puts there. */
  ghost predicate ImageOf(elf: seq<Byte>, image: seq<Byte>)
    requires HeaderGood(elf)
  {
    && Valid(image, REGION_SIZE) && WordAt(image, 2) == Entry(elf) - PROGRAM_BASE
    && (forall a :: PAYLOAD_BASE <= a ==>
          LoadedByte(image, a) == ByteAfter(elf, AllSegments(elf), |AllSegments(elf)|, a))
    && (forall a :: Taken(AllSegments(elf), |AllSegments(elf)|, a) ==>
          PAYLOAD_BASE <= a < PAYLOAD_BASE + WordAt(image, 3))
    && Tight(AllSegments(elf), image)
  }

  /** No less and no more is stored than the last file byte needs, nor mapped than the last memory byte needs, up to a word. */
  ghost predicate Tight(segs: seq<Segment>, image: seq<Byte>)
    requires |image| >= HEADER_SIZE
  {
    && (forall i :: 0 <= i < |segs| ==> FileEnd(segs[i]) <= PROGRAM_BASE + |image|)
    && (exists i :: 0 <= i < |segs| && PROGRAM_BASE + |image| < FileEnd(segs[i]) + 4)
    && (HEADER_SIZE + WordAt(image, 3) == |image|
        || exists i :: 0 <= i < |segs| && MemoryEnd(segs[i]) == PAYLOAD_BASE + WordAt(image, 3))
  }

  /** Padding and zero fill stand where no segment has a file byte. */
  lemma PaddingUnseen(elf: seq<Byte>, segs: seq<Segment>, imageEnd: int, payload: seq<Byte>, image: seq<Byte>, a: int)
    requires AllFit(elf, segs) && Extents(segs, imageEnd, PAYLOAD_BASE + |payload|)
    requires Placed(elf, payload, segs, |segs|) && |image| >= HEADER_SIZE + |payload| && PAYLOAD_BASE <= a
    requires forall d :: 0 <= d < |payload| ==> image[HEADER_SIZE + d] == payload[d]
    requires forall d :: HEADER_SIZE + |payload| <= d < |image| ==> image[d] == 0
    ensures LoadedByte(image, a) == ByteAfter(elf, segs, |segs|, a)
  {
    var d := a - PAYLOAD_BASE;
    if d < |payload| {
      assert payload[d] == ByteAfter(elf, segs, |segs|, PAYLOAD_BASE + d);
      assert image[HEADER_SIZE + d] == payload[d];
    } else {
      var j := ByteFrom(elf, segs, |segs|, a);
    }
  }

  lemma EntryInside(segs: seq<Segment>, imageEnd: int, fileEnd: int, entry: int)
    requires Extents(segs, imageEnd, fileEnd) && EntryBacked(segs, entry)
    requires forall i :: 0 <= i < |segs| ==> PAYLOAD_BASE <= segs[i].at
    ensures PAYLOAD_BASE <= entry < fileEnd
  {
    var i :| 0 <= i < |segs| && Starts(segs[i], entry);
  }

  method Assemble(elf: seq<Byte>, segs: seq<Segment>, imageEnd: int, payload: seq<Byte>) returns (image: seq<Byte>)
    requires HeaderGood(elf) && segs == AllSegments(elf) && AllFit(elf, segs) && EntryBacked(segs, Entry(elf))
    requires Extents(segs, imageEnd, PAYLOAD_BASE + |payload|) && Placed(elf, payload, segs, |segs|)
    ensures ImageOf(elf, image)
  {
    var entry := Entry(elf);
    EntryInside(segs, imageEnd, PAYLOAD_BASE + |payload|, entry);
    image := Finish(entry, imageEnd, payload);
    forall a | PAYLOAD_BASE <= a ensures LoadedByte(image, a) == ByteAfter(elf, segs, |segs|, a) {
      PaddingUnseen(elf, segs, imageEnd, payload, image, a);
    }
  }

  /** The kernel accepts the header of a padded payload. */
  lemma HeaderAccepted(entry: int, programSize: int, padded: seq<Byte>)
    requires 0 < |padded| <= programSize <= REGION_SIZE - HEADER_SIZE && (HEADER_SIZE + |padded|) % 4 == 0
    requires PAYLOAD_BASE <= entry < PAYLOAD_BASE + |padded|
    ensures var image := ImageHeader(entry, programSize, HEADER_SIZE + |padded|) + padded;
      Valid(image, REGION_SIZE) && WordAt(image, 2) == entry - PROGRAM_BASE && WordAt(image, 3) == programSize
  {
    HeaderWords(entry, programSize, HEADER_SIZE + |padded|, padded);
  }

  lemma BehindHeader(header: seq<Byte>, payload: seq<Byte>, padded: seq<Byte>)
    requires |header| == HEADER_SIZE && |payload| <= |padded| && padded == payload + Zeros(|padded| - |payload|)
    ensures var image := header + padded;
      && (forall d :: 0 <= d < |payload| ==> image[HEADER_SIZE + d] == payload[d])
      && (forall d :: HEADER_SIZE + |payload| <= d < |image| ==> image[d] == 0)
  {
    var image := header + padded;
    forall d | HEADER_SIZE <= d < |image| ensures image[d] == padded[d - HEADER_SIZE] {
    }
  }

  /** Pads the payload and puts the header in front. */
  method Finish(entry: int, imageEnd: int, payload: seq<Byte>) returns (image: seq<Byte>)
    requires PAYLOAD_BASE <= entry < PAYLOAD_BASE + |payload| <= imageEnd <= PROGRAM_BASE + REGION_SIZE
    ensures Valid(image, REGION_SIZE) && WordAt(image, 2) == entry - PROGRAM_BASE
    ensures HEADER_SIZE + |payload| <= |image| < HEADER_SIZE + |payload| + 4
    ensures PAYLOAD_BASE + WordAt(image, 3) == Max(imageEnd, PROGRAM_BASE + |image|)
    ensures forall d :: 0 <= d < |payload| ==> image[HEADER_SIZE + d] == payload[d]
    ensures forall d :: HEADER_SIZE + |payload| <= d < |image| ==> image[d] == 0
  {
    var padded := Pad(payload);
    var storedSize := HEADER_SIZE + |padded|;
    var programSize := Max(imageEnd - PAYLOAD_BASE, |padded|);
    var header := ImageHeader(entry, programSize, storedSize);
    image := header + padded;
    HeaderAccepted(entry, programSize, padded);
    BehindHeader(header, payload, padded);
  }

  /** Turns a linked program into an image, or says at which check it fails. */
  method Convert(elf: seq<Byte>) returns (verdict: Verdict, image: seq<Byte>)
    ensures verdict == Judged(elf)
    ensures verdict == Accepted ==> ImageOf(elf, image)
  {
    if !HeaderGood(elf) { return BadHeader, []; }
    var sectionsGood := CheckSections(elf);
    if !sectionsGood { return BadSections, []; }
    var ok, segs, imageEnd, fileEnd, runs := ReadSegments(elf);
    if !ok { return BadSegment, []; }
    if segs == [] || !runs { return NoEntry, []; }
    var apart, payload := Place(elf, segs, imageEnd, fileEnd);
    if !apart { return Overlap, []; }
    image := Assemble(elf, segs, imageEnd, payload);
    verdict := Accepted;
  }

  // ----- The loader

  function Pages(size: int): int { (size + PAGE_SIZE - 1) / PAGE_SIZE }

  /** One zeroed frame, with the stored bytes of its page copied in. */
  method LoadPage(image: seq<Byte>, memory: array<Byte>, offset: int)
    requires 0 <= offset && offset + PAGE_SIZE <= memory.Length
    modifies memory
    ensures forall d :: offset <= d < offset + PAGE_SIZE ==> memory[d] == LoadedByte(image, PROGRAM_BASE + d)
    ensures forall d :: 0 <= d < memory.Length && !(offset <= d < offset + PAGE_SIZE) ==> memory[d] == old(memory[d])
  {
    forall d | offset <= d < offset + PAGE_SIZE {
      memory[d] := 0;
    }
    if offset < |image| {
      var amount := if |image| - offset > PAGE_SIZE then PAGE_SIZE else |image| - offset;
      forall k | 0 <= k < amount {
        memory[offset + k] := image[offset + k];
      }
    }
  }

  /** Maps and fills the program's pages, whatever the frames held before. */
  method Load(image: seq<Byte>, memory: array<Byte>)
    requires Valid(image, REGION_SIZE) && memory.Length == PAGE_SIZE * Pages(HEADER_SIZE + WordAt(image, 3))
    modifies memory
    ensures forall d :: 0 <= d < memory.Length ==> memory[d] == LoadedByte(image, PROGRAM_BASE + d)
  {
    var page := 0;
    while page < Pages(HEADER_SIZE + WordAt(image, 3))
      invariant 0 <= page <= Pages(HEADER_SIZE + WordAt(image, 3))
      invariant forall d :: 0 <= d < PAGE_SIZE * page ==> memory[d] == LoadedByte(image, PROGRAM_BASE + d)
    {
      LoadPage(image, memory, PAGE_SIZE * page);
      page := page + 1;
    }
  }

  /**
   * Converting and loading runs the program that was linked: at every address a
   * segment covers, the mapped memory holds the byte that loading the segments
   * one by one, in any order, puts there.
   */
  lemma ConversionPreserves(elf: seq<Byte>, image: seq<Byte>, memory: seq<Byte>, order: seq<Segment>, a: int)
    requires Judged(elf) == Accepted && ImageOf(elf, image) && multiset(order) == multiset(AllSegments(elf))
    requires |memory| == PAGE_SIZE * Pages(HEADER_SIZE + WordAt(image, 3))
    requires forall d :: 0 <= d < |memory| ==> memory[d] == LoadedByte(image, PROGRAM_BASE + d)
    requires Taken(order, |order|, a)
    ensures 0 <= a - PROGRAM_BASE < |memory| && memory[a - PROGRAM_BASE] == ByteAfter(elf, order, |order|, a)
  {
    var segs := AllSegments(elf);
    OrderIrrelevant(elf, segs, order, a);
    var k :| 0 <= k < |order| && Covers(order[k], a);
    var j := SameMembers(order, segs, k);
    assert Taken(segs, |segs|, a);
  }

  /** The entry point is a stored byte of an executable segment, never part of a zero-filled tail. */
  lemma EntryIsStored(elf: seq<Byte>, image: seq<Byte>)
    requires Judged(elf) == Accepted && ImageOf(elf, image)
    ensures PAYLOAD_BASE <= Entry(elf) < PROGRAM_BASE + |image| <= PROGRAM_BASE + REGION_SIZE
    ensures exists s :: s in AllSegments(elf) && Starts(s, Entry(elf)) &&
                        LoadedByte(image, Entry(elf)) == SegmentByte(elf, s, Entry(elf))
  {
    var segs := AllSegments(elf);
    var i :| 0 <= i < |segs| && Starts(segs[i], Entry(elf));
    var j := ByteFrom(elf, segs, |segs|, Entry(elf));
    SegmentsFit(elf, PhNum(elf));
    CoverUnique(segs, i, j, Entry(elf));
    assert segs[i] in segs;
  }

  lemma {:induction false} SegmentsFit(elf: seq<Byte>, n: int)
    requires HeaderGood(elf) && 0 <= n <= PhNum(elf) && SegmentsGood(elf, n)
    ensures AllFit(elf, Segments(elf, n))
  {
    if n > 0 {
      SegmentsFit(elf, n - 1);
      assert SegmentGood(elf, n - 1);
    }
  }
}
