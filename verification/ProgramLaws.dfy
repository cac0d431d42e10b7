/**
 * What a converted program is, said of the numbers in the program-header table
 * of the ELF32 file (System V gABI, chapter 5, "Program Header") alone.
 */
module ProgramLaws {
  import opened Bytes
  import opened Numbers
  import opened ProgramImage

  // ----- The table

  predicate TableThere(elf: seq<Byte>) { |elf| >= 52 && U32(elf, 28) + 32 * U16(elf, 44) <= |elf| }

  predicate InTable(elf: seq<Byte>, i: int) { TableThere(elf) && 0 <= i < U16(elf, 44) }

  function Field(elf: seq<Byte>, i: int, at: int): int
    requires InTable(elf, i) && 0 <= at <= 28
  {
    U32(elf, U32(elf, 28) + 32 * i + at)
  }

  function Type(elf: seq<Byte>, i: int): int requires InTable(elf, i) { Field(elf, i, 0) }
  function Offset(elf: seq<Byte>, i: int): int requires InTable(elf, i) { Field(elf, i, 4) }
  function Address(elf: seq<Byte>, i: int): int requires InTable(elf, i) { Field(elf, i, 8) }
  function Physical(elf: seq<Byte>, i: int): int requires InTable(elf, i) { Field(elf, i, 12) }
  function FileSize(elf: seq<Byte>, i: int): int requires InTable(elf, i) { Field(elf, i, 16) }
  function MemorySize(elf: seq<Byte>, i: int): int requires InTable(elf, i) { Field(elf, i, 20) }
  function Flags(elf: seq<Byte>, i: int): int requires InTable(elf, i) { Field(elf, i, 24) }

  /** Entry i is to be loaded and takes memory. */
  predicate Loaded(elf: seq<Byte>, i: int) { InTable(elf, i) && Type(elf, i) == 1 && MemorySize(elf, i) != 0 }

  /** The address lies in the memory of entry i. */
  predicate Within(elf: seq<Byte>, i: int, a: int)
    requires InTable(elf, i)
  {
    Address(elf, i) <= a < Address(elf, i) + MemorySize(elf, i)
  }

  // ----- The list of segments and the table

  lemma EntryIs(elf: seq<Byte>, i: int)
    requires Listed(elf, i)
    ensures InTable(elf, i) && (Loads(elf, i) <==> Loaded(elf, i))
    ensures SegmentAt(elf, i)
         == Segment(Address(elf, i), Offset(elf, i), FileSize(elf, i), MemorySize(elf, i), Flags(elf, i) % 2 == 1)
  {
  }

  /** How many of the entries before i are loaded. */
  function Rank(elf: seq<Byte>, i: nat): nat
    requires HeaderGood(elf) && i <= PhNum(elf)
  {
    |Segments(elf, i)|
  }

  lemma {:induction false} RankGrows(elf: seq<Byte>, i: nat, n: nat)
    requires HeaderGood(elf) && i <= n <= PhNum(elf)
    ensures Segments(elf, i) <= Segments(elf, n)
  {
    if i < n {
      RankGrows(elf, i, n - 1);
    }
  }

  /** A loaded entry is in the list, at its rank. */
  lemma Ranked(elf: seq<Byte>, i: nat, n: nat)
    requires HeaderGood(elf) && i < n <= PhNum(elf) && Loads(elf, i)
    ensures Rank(elf, i) < |Segments(elf, n)| && Segments(elf, n)[Rank(elf, i)] == SegmentAt(elf, i)
  {
    RankGrows(elf, i + 1, n);
  }

  lemma RanksDiffer(elf: seq<Byte>, i: nat, j: nat)
    requires HeaderGood(elf) && i < j < PhNum(elf) && Loads(elf, i)
    ensures Rank(elf, i) < Rank(elf, j)
  {
    RankGrows(elf, i + 1, j);
  }

  /** And the list holds nothing else. */
  lemma {:induction false} Unranked(elf: seq<Byte>, n: nat, k: nat) returns (i: nat)
    requires HeaderGood(elf) && n <= PhNum(elf) && k < |Segments(elf, n)|
    ensures i < n && Loads(elf, i) && Rank(elf, i) == k && Segments(elf, n)[k] == SegmentAt(elf, i)
  {
    if k < |Segments(elf, n - 1)| {
      i := Unranked(elf, n - 1, k);
    } else {
      i := n - 1;
    }
  }

  // ----- Which files are accepted

  /** Header, section table and relocations. */
  ghost predicate FileHeader(elf: seq<Byte>) {
    && TableThere(elf)
    && elf[..7] == [0x7F, 0x45, 0x4C, 0x46, 1, 1, 1]
    && U16(elf, 16) == 2 && U16(elf, 18) == 3 && U32(elf, 20) == 1 && U16(elf, 40) == 52 && U16(elf, 42) == 32
  }

  ghost predicate NothingToRelocate(elf: seq<Byte>)
    requires |elf| >= 52
  {
    U16(elf, 48) != 0 && U32(elf, 32) != 0 ==>
      && U16(elf, 46) == 40 && U32(elf, 32) + 40 * U16(elf, 48) <= |elf|
      && forall j :: 0 <= j < U16(elf, 48) && (SectionWord(elf, j, 4) == 4 || SectionWord(elf, j, 4) == 9)
           ==> SectionWord(elf, j, 20) == 0
  }

  function SectionWord(elf: seq<Byte>, j: int, at: int): int
    requires |elf| >= 52 && 0 <= j < U16(elf, 48) && 0 <= at <= 36 && U32(elf, 32) + 40 * U16(elf, 48) <= |elf|
  {
    U32(elf, U32(elf, 32) + 40 * j + at)
  }

  /** File bytes in the file, memory between the image header and the end of the 8-MiB region, one address. */
  predicate EntryGood(elf: seq<Byte>, i: int)
    requires InTable(elf, i)
  {
    && FileSize(elf, i) <= MemorySize(elf, i) && Offset(elf, i) + FileSize(elf, i) <= |elf|
    && Address(elf, i) == Physical(elf, i)
    && 0x4000_001C <= Address(elf, i) && Address(elf, i) + MemorySize(elf, i) <= 0x4080_0000
  }

  predicate Separate(elf: seq<Byte>, i: int, j: int)
    requires InTable(elf, i) && InTable(elf, j)
  {
    Address(elf, i) + MemorySize(elf, i) <= Address(elf, j) || Address(elf, j) + MemorySize(elf, j) <= Address(elf, i)
  }

  /** The entry point is a file byte of an executable segment. */
  predicate StartsIn(elf: seq<Byte>, i: int) {
    Loaded(elf, i) && Flags(elf, i) % 2 == 1 && Address(elf, i) <= U32(elf, 24) < Address(elf, i) + FileSize(elf, i)
  }

  ghost predicate Acceptable(elf: seq<Byte>) {
    && FileHeader(elf) && NothingToRelocate(elf)
    && (forall i :: Loaded(elf, i) ==> EntryGood(elf, i))
    && (exists i :: StartsIn(elf, i))
    && (forall i, j :: 0 <= i < j && Loaded(elf, i) && Loaded(elf, j) ==> Separate(elf, i, j))
  }

  lemma HeadersAgree(elf: seq<Byte>)
    ensures HeaderGood(elf) <==> FileHeader(elf)
    ensures HeaderGood(elf) ==> (SectionsGood(elf) <==> NothingToRelocate(elf))
  {
    if HeaderGood(elf) && SectionsListed(elf) && SectionTableGood(elf) {
      forall j | 0 <= j < ShNum(elf)
        ensures Relocates(elf, j) <==>
          (SectionWord(elf, j, 4) == 4 || SectionWord(elf, j, 4) == 9) && SectionWord(elf, j, 20) != 0
      {
      }
    }
  }

  lemma EntriesAgree(elf: seq<Byte>)
    requires HeaderGood(elf)
    ensures SegmentsGood(elf, PhNum(elf)) <==> forall i :: Loaded(elf, i) ==> EntryGood(elf, i)
  {
    forall i | 0 <= i < PhNum(elf) ensures SegmentGood(elf, i) <==> (Loaded(elf, i) ==> EntryGood(elf, i)) {
      EntryIs(elf, i);
    }
  }

  lemma StartsAgree(elf: seq<Byte>)
    requires HeaderGood(elf)
    ensures EntryBacked(AllSegments(elf), Entry(elf)) <==> exists i :: StartsIn(elf, i)
  {
    var segs := AllSegments(elf);
    if EntryBacked(segs, Entry(elf)) {
      var k :| 0 <= k < |segs| && Starts(segs[k], Entry(elf));
      var i := Unranked(elf, PhNum(elf), k);
      EntryIs(elf, i);
      assert StartsIn(elf, i);
    }
    if i :| StartsIn(elf, i) {
      EntryIs(elf, i);
      Ranked(elf, i, PhNum(elf));
      assert Starts(segs[Rank(elf, i)], Entry(elf));
    }
  }

  lemma RanksApart(elf: seq<Byte>, i: int, j: int)
    requires HeaderGood(elf) && Apart(AllSegments(elf), |AllSegments(elf)|)
    requires 0 <= i < j && Loaded(elf, i) && Loaded(elf, j)
    ensures Separate(elf, i, j)
  {
    var segs := AllSegments(elf);
    EntryIs(elf, i);
    EntryIs(elf, j);
    Ranked(elf, i, PhNum(elf));
    Ranked(elf, j, PhNum(elf));
    RanksDiffer(elf, i, j);
    assert Clear(segs[Rank(elf, i)], segs[Rank(elf, j)]);
  }

  lemma EntriesApart(elf: seq<Byte>, k: int, l: int)
    requires HeaderGood(elf) && 0 <= k < l < |AllSegments(elf)|
    requires forall i, j :: 0 <= i < j && Loaded(elf, i) && Loaded(elf, j) ==> Separate(elf, i, j)
    ensures Clear(AllSegments(elf)[k], AllSegments(elf)[l])
  {
    var i := Unranked(elf, PhNum(elf), k);
    var j := Unranked(elf, PhNum(elf), l);
    EntryIs(elf, i);
    EntryIs(elf, j);
    if j < i {
      RanksDiffer(elf, j, i);
    }
    assert Separate(elf, i, j);
  }

  lemma PlacesAgree(elf: seq<Byte>)
    requires HeaderGood(elf)
    ensures Apart(AllSegments(elf), |AllSegments(elf)|)
       <==> forall i, j :: 0 <= i < j && Loaded(elf, i) && Loaded(elf, j) ==> Separate(elf, i, j)
  {
    var segs := AllSegments(elf);
    if Apart(segs, |segs|) {
      forall i, j | 0 <= i < j && Loaded(elf, i) && Loaded(elf, j) ensures Separate(elf, i, j) {
        RanksApart(elf, i, j);
      }
    } else if forall i, j :: 0 <= i < j && Loaded(elf, i) && Loaded(elf, j) ==> Separate(elf, i, j) {
      forall k, l | 0 <= k < l < |segs| ensures Clear(segs[k], segs[l]) {
        EntriesApart(elf, k, l);
      }
    }
  }

  /** The converter accepts exactly these files. */
  lemma AcceptedExactly(elf: seq<Byte>)
    ensures Judged(elf) == Accepted <==> Acceptable(elf)
  {
    HeadersAgree(elf);
    if HeaderGood(elf) {
      EntriesAgree(elf);
      StartsAgree(elf);
      PlacesAgree(elf);
    }
  }

  // ----- What the memory of the program holds

  /** The byte of the file, or zero behind its file bytes, that entry i puts at an address. */
  function EntryByte(elf: seq<Byte>, i: int, a: int): int
    requires InTable(elf, i) && Address(elf, i) <= a
  {
    var d := a - Address(elf, i);
    if d < FileSize(elf, i) && Offset(elf, i) + d < |elf| then elf[Offset(elf, i) + d] else 0
  }

  /** The fewest pages that hold so many bytes. */
  lemma PagesExactly(size: int)
    ensures 0 <= 4096 * Pages(size) - size < 4096
  {
  }

  /** The mapped pages of an image, filled by the loader. */
  ghost predicate Mapped(image: seq<Byte>, memory: seq<Byte>) {
    && Valid(image, REGION_SIZE) && |memory| == PAGE_SIZE * Pages(HEADER_SIZE + WordAt(image, 3))
    && forall d :: 0 <= d < |memory| ==> memory[d] == LoadedByte(image, PROGRAM_BASE + d)
  }

  lemma SegmentInMemory(elf: seq<Byte>, image: seq<Byte>, memory: seq<Byte>, segs: seq<Segment>, k: int, a: int)
    requires Judged(elf) == Accepted && ImageOf(elf, image) && Mapped(image, memory)
    requires segs == AllSegments(elf) && 0 <= k < |segs| && Covers(segs[k], a)
    ensures 0 <= a - 0x4000_0000 < |memory| && memory[a - 0x4000_0000] == SegmentByte(elf, segs[k], a)
  {
    assert Taken(segs, |segs|, a);
    ConversionPreserves(elf, image, memory, segs, a);
    var j := ByteFrom(elf, segs, |segs|, a);
    CoverUnique(segs, k, j, a);
  }

  lemma ByteOfSegment(elf: seq<Byte>, s: Segment, a: int)
    requires s.at <= a && 0 <= s.offset
    ensures SegmentByte(elf, s, a)
         == if a - s.at < s.fileSize && s.offset + (a - s.at) < |elf| then elf[s.offset + (a - s.at)] else 0
  {
  }

  lemma EntryIsSegment(elf: seq<Byte>, i: int, a: int)
    requires Listed(elf, i) && InTable(elf, i) && Type(elf, i) == 1 && Within(elf, i, a) && SegmentGood(elf, i)
    ensures Loads(elf, i) && Covers(SegmentAt(elf, i), a) && Offset(elf, i) + FileSize(elf, i) <= |elf|
    ensures SegmentByte(elf, SegmentAt(elf, i), a) == EntryByte(elf, i, a)
  {
    EntryIs(elf, i);
    ByteOfSegment(elf, SegmentAt(elf, i), a);
  }

  /** Every byte of every loaded entry stands at its address. */
  lemma EntryInMemory(elf: seq<Byte>, image: seq<Byte>, memory: seq<Byte>, i: int, a: int)
    requires Judged(elf) == Accepted && ImageOf(elf, image) && Mapped(image, memory)
    requires InTable(elf, i) && Type(elf, i) == 1 && Within(elf, i, a)
    ensures 0 <= a - 0x4000_0000 < |memory| && Offset(elf, i) + FileSize(elf, i) <= |elf|
    ensures memory[a - 0x4000_0000] == EntryByte(elf, i, a)
  {
    assert SegmentGood(elf, i);
    EntryIsSegment(elf, i, a);
    Ranked(elf, i, PhNum(elf));
    SegmentInMemory(elf, image, memory, AllSegments(elf), Rank(elf, i), a);
  }

  /** All other mapped bytes behind the image header are zero. */
  lemma RestIsZero(elf: seq<Byte>, image: seq<Byte>, memory: seq<Byte>, a: int)
    requires Judged(elf) == Accepted && ImageOf(elf, image) && Mapped(image, memory)
    requires 0x4000_001C <= a < 0x4000_0000 + |memory| && forall i :: Loaded(elf, i) ==> !Within(elf, i, a)
    ensures memory[a - 0x4000_0000] == 0
  {
    var segs := AllSegments(elf);
    var k := ByteFrom(elf, segs, |segs|, a);
    if k >= 0 {
      var i := Unranked(elf, PhNum(elf), k);
      EntryIs(elf, i);
    }
  }

  lemma EntryEnds(elf: seq<Byte>, image: seq<Byte>, i: int)
    requires Judged(elf) == Accepted && ImageOf(elf, image) && Loaded(elf, i)
    ensures Address(elf, i) + MemorySize(elf, i) <= 0x4000_001C + U32(image, 12)
    ensures Address(elf, i) + FileSize(elf, i) <= 0x4000_0000 + |image|
  {
    var segs := AllSegments(elf);
    EntryIs(elf, i);
    Ranked(elf, i, PhNum(elf));
    var last := Address(elf, i) + MemorySize(elf, i) - 1;
    assert Covers(segs[Rank(elf, i)], last);
    assert Taken(segs, |segs|, last);
    assert last < PAYLOAD_BASE + WordAt(image, 3);
  }

  lemma StoredEnd(elf: seq<Byte>, image: seq<Byte>) returns (i: nat)
    requires Judged(elf) == Accepted && ImageOf(elf, image)
    ensures Loaded(elf, i) && 0x4000_0000 + |image| < Address(elf, i) + FileSize(elf, i) + 4
  {
    var segs := AllSegments(elf);
    var k :| 0 <= k < |segs| && PROGRAM_BASE + |image| < FileEnd(segs[k]) + 4;
    i := Unranked(elf, PhNum(elf), k);
    EntryIs(elf, i);
  }

  lemma MappedEnd(elf: seq<Byte>, image: seq<Byte>) returns (i: nat)
    requires Judged(elf) == Accepted && ImageOf(elf, image) && U32(image, 12) + 28 != |image|
    ensures Loaded(elf, i) && Address(elf, i) + MemorySize(elf, i) == 0x4000_001C + U32(image, 12)
  {
    var segs := AllSegments(elf);
    var k :| 0 <= k < |segs| && MemoryEnd(segs[k]) == PAYLOAD_BASE + WordAt(image, 3);
    i := Unranked(elf, PhNum(elf), k);
    EntryIs(elf, i);
  }

  /** The stored image ends with the last file byte, and the program with the last byte of memory, up to a word. */
  lemma SizesExactly(elf: seq<Byte>, image: seq<Byte>)
    requires Judged(elf) == Accepted && ImageOf(elf, image)
    ensures forall i :: Loaded(elf, i) ==>
      Address(elf, i) + MemorySize(elf, i) <= 0x4000_001C + U32(image, 12)
      && Address(elf, i) + FileSize(elf, i) <= 0x4000_0000 + |image|
    ensures exists i :: Loaded(elf, i) && 0x4000_0000 + |image| < Address(elf, i) + FileSize(elf, i) + 4
    ensures U32(image, 12) + 28 == |image|
      || exists i :: Loaded(elf, i) && Address(elf, i) + MemorySize(elf, i) == 0x4000_001C + U32(image, 12)
    ensures U32(image, 8) == U32(elf, 24) - 0x4000_0000 && |image| % 4 == 0
  {
    forall i | Loaded(elf, i)
      ensures Address(elf, i) + MemorySize(elf, i) <= 0x4000_001C + U32(image, 12)
      ensures Address(elf, i) + FileSize(elf, i) <= 0x4000_0000 + |image|
    {
      EntryEnds(elf, image, i);
    }
    var s := StoredEnd(elf, image);
    if U32(image, 12) + 28 != |image| {
      var m := MappedEnd(elf, image);
    }
  }

  /** The seven header words: the letters MYPR, a magic number, entry and size of the program, base, stored size, zero. */
  lemma HeaderExactly(elf: seq<Byte>, image: seq<Byte>)
    requires Judged(elf) == Accepted && ImageOf(elf, image)
    ensures image[0] == 77 && image[1] == 89 && image[2] == 80 && image[3] == 82 && U32(image, 4) == 0xDEAD_BEEF
    ensures U32(image, 8) == U32(elf, 24) - 0x4000_0000 && U32(image, 16) == 0x4000_0000
    ensures U32(image, 20) == |image| && U32(image, 24) == 0
  {
    assert forall k :: 0 <= k < 4 ==> image[..4][k] == image[k];
  }

  // ----- The whole way

  /**
   * Converts and loads a program. It runs exactly the acceptable files, and then
   * the mapped memory holds every byte of every loaded entry, and zeros elsewhere.
   */
  method ConvertAndLoad(elf: seq<Byte>) returns (ok: bool, memory: seq<Byte>)
    ensures ok <==> Acceptable(elf)
    ensures ok ==> forall i, a :: InTable(elf, i) && Type(elf, i) == 1 && Within(elf, i, a) ==>
      0 <= a - 0x4000_0000 < |memory| && memory[a - 0x4000_0000] == EntryByte(elf, i, a)
    ensures ok ==> forall a :: 0x4000_001C <= a < 0x4000_0000 + |memory| && Unused(elf, a) ==> memory[a - 0x4000_0000] == 0
  {
    AcceptedExactly(elf);
    var verdict, image := Convert(elf);
    ok, memory := verdict == Accepted, [];
    if ok {
      var pages := new Byte[PAGE_SIZE * Pages(HEADER_SIZE + WordAt(image, 3))](_ => 0);
      Load(image, pages);
      memory := pages[..];
      forall i, a | InTable(elf, i) && Type(elf, i) == 1 && Within(elf, i, a)
        ensures 0 <= a - 0x4000_0000 < |memory| && memory[a - 0x4000_0000] == EntryByte(elf, i, a)
      {
        EntryInMemory(elf, image, memory, i, a);
      }
      forall a | 0x4000_001C <= a < 0x4000_0000 + |memory| && Unused(elf, a) ensures memory[a - 0x4000_0000] == 0 {
        RestIsZero(elf, image, memory, a);
      }
    }
  }

  /** No loaded entry takes the address. */
  ghost predicate Unused(elf: seq<Byte>, a: int) { forall i :: Loaded(elf, i) ==> !Within(elf, i, a) }

  // ----- An example

  /** The fields of a file with code at 0x4000001C, a page of zero-filled memory at 0x40001000, and no sections. */
  ghost predicate CodeAndBss(elf: seq<Byte>) {
    && |elf| == 132 && elf[..7] == [0x7F, 0x45, 0x4C, 0x46, 1, 1, 1]
    && U16(elf, 16) == 2 && U16(elf, 18) == 3 && U32(elf, 20) == 1 && U32(elf, 24) == 0x4000_001C
    && U32(elf, 28) == 52 && U16(elf, 40) == 52 && U16(elf, 42) == 32 && U16(elf, 44) == 2 && U16(elf, 48) == 0
    && EntryReads(elf, 52, 116, 0x4000_001C, 16, 16, 5)
    && EntryReads(elf, 84, 132, 0x4000_1000, 0, 0x1000, 6)
  }

  predicate EntryReads(elf: seq<Byte>, at: int, offset: int, address: int, fileSize: int, memorySize: int, flags: int) {
    && 0 <= at && at + 32 <= |elf| && U32(elf, at) == 1 && U32(elf, at + 4) == offset
    && U32(elf, at + 8) == address && U32(elf, at + 12) == address
    && U32(elf, at + 16) == fileSize && U32(elf, at + 20) == memorySize && U32(elf, at + 24) == flags
  }

  /** Such a file, byte by byte. */
  function Sample(): (elf: seq<Byte>)
    ensures |elf| == 132 && forall k :: 0 <= k < 132 ==> elf[k] == SampleByte(k)
  {
    seq(132, k => SampleByte(k))
  }

  function SampleByte(k: int): Byte {
    if k < 52 then
      match k
      case 0 => 127 case 1 => 69 case 2 => 76 case 3 => 70 case 4 => 1 case 5 => 1 case 6 => 1
      case 16 => 2 case 18 => 3 case 20 => 1 case 24 => 28 case 27 => 64 case 28 => 52
      case 40 => 52 case 42 => 32 case 44 => 2 case _ => 0
    else if k < 84 then
      match k
      case 52 => 1 case 56 => 116 case 60 => 28 case 63 => 64 case 64 => 28 case 67 => 64
      case 68 => 16 case 72 => 16 case 76 => 5 case 81 => 16 case _ => 0
    else if k < 116 then
      match k
      case 84 => 1 case 88 => 132 case 93 => 16 case 95 => 64 case 97 => 16 case 99 => 64
      case 105 => 16 case 108 => 6 case 113 => 16 case _ => 0
    else 144
  }

  lemma SampleEntries()
    ensures EntryReads(Sample(), 52, 116, 0x4000_001C, 16, 16, 5)
    ensures EntryReads(Sample(), 84, 132, 0x4000_1000, 0, 0x1000, 6)
  {
  }

  lemma SampleHeader()
    ensures U16(Sample(), 16) == 2 && U16(Sample(), 18) == 3 && U32(Sample(), 20) == 1
    ensures U32(Sample(), 24) == 0x4000_001C && U32(Sample(), 28) == 52
    ensures U16(Sample(), 40) == 52 && U16(Sample(), 42) == 32 && U16(Sample(), 44) == 2 && U16(Sample(), 48) == 0
  {
  }

  lemma SampleIdent()
    ensures Sample()[..7] == [0x7F, 0x45, 0x4C, 0x46, 1, 1, 1]
  {
  }

  /** There is such a file. */
  lemma SampleReads()
    ensures CodeAndBss(Sample())
  {
    SampleIdent();
    SampleHeader();
    SampleEntries();
  }

  lemma EntryRead(elf: seq<Byte>, i: int, offset: int, address: int, fileSize: int, memorySize: int, flags: int)
    requires InTable(elf, i) && EntryReads(elf, U32(elf, 28) + 32 * i, offset, address, fileSize, memorySize, flags)
    ensures Type(elf, i) == 1 && Offset(elf, i) == offset && Address(elf, i) == Physical(elf, i) == address
    ensures FileSize(elf, i) == fileSize && MemorySize(elf, i) == memorySize && Flags(elf, i) == flags
  {
  }

  /** The two loaded entries of the example. */
  ghost predicate TwoEntries(elf: seq<Byte>) {
    && (forall i :: InTable(elf, i) <==> i == 0 || i == 1)
    && Loaded(elf, 0) && EntryGood(elf, 0) && StartsIn(elf, 0)
    && Address(elf, 0) == 0x4000_001C && MemorySize(elf, 0) == FileSize(elf, 0) == 16
    && Loaded(elf, 1) && EntryGood(elf, 1)
    && Address(elf, 1) == 0x4000_1000 && MemorySize(elf, 1) == 0x1000 && FileSize(elf, 1) == 0
  }

  lemma EntriesRead(elf: seq<Byte>)
    requires CodeAndBss(elf)
    ensures TwoEntries(elf)
  {
    EntryRead(elf, 0, 116, 0x4000_001C, 16, 16, 5);
    EntryRead(elf, 1, 132, 0x4000_1000, 0, 0x1000, 6);
  }

  /** Such a file is accepted, and its zero-filled page is part of the program. */
  lemma BssIsMapped(elf: seq<Byte>, image: seq<Byte>)
    requires CodeAndBss(elf)
    ensures Judged(elf) == Accepted
    ensures ImageOf(elf, image) ==> |image| == 0x1000 && U32(image, 12) == 0x1FE4
  {
    EntriesRead(elf);
    assert Separate(elf, 0, 1);
    assert FileHeader(elf) && NothingToRelocate(elf);
    AcceptedExactly(elf);
    if ImageOf(elf, image) {
      BssStored(elf, image);
      BssSize(elf, image);
    }
  }

  lemma BssStored(elf: seq<Byte>, image: seq<Byte>)
    requires TwoEntries(elf) && Judged(elf) == Accepted && ImageOf(elf, image)
    ensures |image| == 0x1000
  {
    WholeWords(elf, image);
    EntryEnds(elf, image, 1);
    var i := StoredEnd(elf, image);
    BssEnds(elf, i);
    PageExact(|image|);
  }

  lemma BssEnds(elf: seq<Byte>, i: int)
    requires TwoEntries(elf) && Loaded(elf, i)
    ensures Address(elf, i) + FileSize(elf, i) <= 0x4000_1000
  {
    assert i == 0 || i == 1;
  }

  lemma PageExact(n: int)
    requires 0x1000 <= n < 0x1004 && n % 4 == 0
    ensures n == 0x1000
  {
  }

  lemma WholeWords(elf: seq<Byte>, image: seq<Byte>)
    requires Judged(elf) == Accepted && ImageOf(elf, image)
    ensures |image| % 4 == 0
  {
    SizesExactly(elf, image);
  }

  lemma BssSize(elf: seq<Byte>, image: seq<Byte>)
    requires TwoEntries(elf) && Judged(elf) == Accepted && ImageOf(elf, image) && |image| == 0x1000
    ensures U32(image, 12) == 0x1FE4
  {
    EntryEnds(elf, image, 1);
    if U32(image, 12) + 28 != |image| {
      var m := MappedEnd(elf, image);
    }
  }
}
