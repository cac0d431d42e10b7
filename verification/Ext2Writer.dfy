/** The EXT2 branch of the application media builder. */
module Ext2Writer {
  import opened Bytes
  import opened Numbers
  import opened Ext2Format
  import opened Ext2Layout

  // ----- Single fields

  method Write16(image: array<Byte>, at: int, value: int)
    requires 0 <= at && at + 2 <= image.Length && 0 <= value < 0x1_0000
    modifies image
    ensures Half(image[..], at) == value && SameOutside(old(image[..]), image[..], at, at + 2)
  {
    Blit(image, at, Pack16(value));
    HalfStored(image[..], at, value);
  }

  method Write32(image: array<Byte>, at: int, value: int)
    requires 0 <= at && at + 4 <= image.Length && 0 <= value < WORD_LIMIT
    modifies image
    ensures Word(image[..], at) == value && SameOutside(old(image[..]), image[..], at, at + 4)
  {
    Blit(image, at, Pack32(value));
    SameWord(image[..], at, value);
  }

  lemma HalfStored(raw: seq<Byte>, at: int, value: int)
    requires 0 <= value < 0x1_0000 && At(raw, at, Pack16(value))
    ensures Half(raw, at) == value
  {
    assert raw[at] == raw[at..at + 2][0] && raw[at + 1] == raw[at..at + 2][1];
  }

  /** What one write leaves alone. */
  lemma Untouched(a: seq<Byte>, b: seq<Byte>, lo: int, hi: int, from: int, to: int)
    requires SameOutside(a, b, lo, hi) && 0 <= from && to <= |a| && (to <= lo || hi <= from)
    ensures Agree(a, b, from, to)
  {
  }

  // ----- Tables of fields

  predicate WordAt(raw: seq<Byte>, base: int, words: seq<(int, int)>, k: int)
    requires 0 <= k < |words|
  {
    Word(raw, base + words[k].0) == words[k].1
  }

  predicate WordsAt(raw: seq<Byte>, base: int, words: seq<(int, int)>, n: int)
    requires n <= |words|
  {
    forall k {:trigger WordAt(raw, base, words, k)} :: 0 <= k < n ==> WordAt(raw, base, words, k)
  }

  /** Fields in ascending order, none overlapping the next. */
  predicate Ascending(words: seq<(int, int)>, size: int) {
    && (forall k :: 0 <= k < |words| ==> 0 <= words[k].0 && words[k].0 + 4 <= size && 0 <= words[k].1 < WORD_LIMIT)
    && (forall j, k :: 0 <= j < k < |words| ==> words[j].0 + 4 <= words[k].0)
  }

  /** No field meets this range. */
  predicate Spared(words: seq<(int, int)>, lo: int, hi: int) {
    forall k :: 0 <= k < |words| ==> words[k].0 + 4 <= lo || hi <= words[k].0
  }

  method WriteWords(image: array<Byte>, base: int, words: seq<(int, int)>, ghost size: int)
    requires Ascending(words, size) && 0 <= base && base + size <= image.Length && 0 <= size
    modifies image
    ensures WordsAt(image[..], base, words, |words|) && SameOutside(old(image[..]), image[..], base, base + size)
    ensures forall lo, hi :: 0 <= lo && hi <= size && Spared(words, lo, hi) ==>
      Agree(old(image[..]), image[..], base + lo, base + hi)
  {
    var n := 0;
    while n < |words|
      invariant 0 <= n <= |words| && WordsAt(image[..], base, words, n)
      invariant SameOutside(old(image[..]), image[..], base, base + size)
      invariant forall lo, hi :: 0 <= lo && hi <= size && Spared(words, lo, hi) ==>
        Agree(old(image[..]), image[..], base + lo, base + hi)
    {
      ghost var before := image[..];
      Write32(image, base + words[n].0, words[n].1);
      forall k | 0 <= k < n + 1 ensures WordAt(image[..], base, words, k) {
        if k < n {
          assert WordAt(before, base, words, k);
          WordKept(before, image[..], base + words[n].0, base + words[n].0 + 4, base + words[k].0);
        }
      }
      SameTwice(old(image[..]), before, image[..], base, base + size, base + words[n].0, base + words[n].0 + 4);
      forall lo, hi | 0 <= lo && hi <= size && Spared(words, lo, hi)
        ensures Agree(old(image[..]), image[..], base + lo, base + hi)
      {
        assert Agree(old(image[..]), before, base + lo, base + hi);
      }
      n := n + 1;
    }
  }

  lemma WordKept(a: seq<Byte>, b: seq<Byte>, lo: int, hi: int, at: int)
    requires SameOutside(a, b, lo, hi) && (at + 4 <= lo || hi <= at)
    ensures Word(a, at) == Word(b, at)
  {
  }

  lemma HalfKept(a: seq<Byte>, b: seq<Byte>, lo: int, hi: int, at: int)
    requires SameOutside(a, b, lo, hi) && (at + 2 <= lo || hi <= at)
    ensures Half(a, at) == Half(b, at)
  {
  }

  // ----- Pointers

  /** Consecutive block numbers. */
  method WritePointers(image: array<Byte>, base: int, start: int, count: nat)
    requires 0 <= base && base + 4 * count <= image.Length && 0 <= start && start + count <= WORD_LIMIT
    modifies image
    ensures PointersAt(image[..], base, start, count)
    ensures SameOutside(old(image[..]), image[..], base, base + 4 * count)
  {
    var i := 0;
    while i < count
      invariant 0 <= i <= count && PointersAt(image[..], base, start, i)
      invariant SameOutside(old(image[..]), image[..], base, base + 4 * i)
    {
      ghost var before := image[..];
      Write32(image, base + 4 * i, start + i);
      forall k | 0 <= k < i + 1 ensures PointerAt(image[..], base, start, k) {
        if k < i {
          assert PointerAt(before, base, start, k);
          WordKept(before, image[..], base + 4 * i, base + 4 * i + 4, base + 4 * k);
        }
      }
      SameTwice(old(image[..]), before, image[..], base, base + 4 * i, base + 4 * i, base + 4 * i + 4);
      i := i + 1;
    }
  }

  // ----- One file

  method WriteInodeHead(image: array<Byte>, at: int, n: nat, sectors: nat)
    requires 0 <= at && at + 128 <= image.Length && n < WORD_LIMIT && sectors < WORD_LIMIT
    requires Zero(image[..], at, at + 128)
    modifies image
    ensures InodeHead(image[..], at, n, sectors) && SameOutside(old(image[..]), image[..], at, at + 32)
  {
    Write16(image, at, 0x81A4);
    ghost var i1 := image[..];
    Write32(image, at + 4, n);
    ghost var i2 := image[..];
    Write16(image, at + 26, 1);
    ghost var i3 := image[..];
    Write32(image, at + 28, sectors);
    HalfKept(i1, i2, at + 4, at + 8, at);
    HalfKept(i2, i3, at + 26, at + 28, at);
    HalfKept(i3, image[..], at + 28, at + 32, at);
    WordKept(i2, i3, at + 26, at + 28, at + 4);
    WordKept(i3, image[..], at + 28, at + 32, at + 4);
    HalfKept(i3, image[..], at + 28, at + 32, at + 26);
  }

  lemma SectorsSmall(s: Scale, n: nat)
    requires Count(s, n) <= DIRECT + PointersPerBlock(s)
    ensures 0 <= InodeSectors(s, n) < WORD_LIMIT
  {
  }

  /** The inode of file i: head, direct pointers, and the pointer block if one is needed. */
  method WriteInode(image: array<Byte>, s: Scale, i: nat, n: nat, cursor: nat)
    requires image.Length == IMAGE_SIZE && i < FILE_COUNT && n < WORD_LIMIT && cursor + Count(s, n) <= Total(s)
    requires Count(s, n) <= DIRECT + PointersPerBlock(s) && Zero(image[..], InodeAt(s, i), InodeAt(s, i) + 128)
    modifies image
    ensures InodeWritten(image[..], s, i, n, cursor)
    ensures SameOutside(old(image[..]), image[..], InodeAt(s, i), InodeAt(s, i) + 128)
  {
    var at, count := InodeAt(s, i), Count(s, n);
    var direct := Min(DIRECT, count);
    SectorsSmall(s, n);
    ghost var i0 := image[..];
    WriteInodeHead(image, at, n, InodeSectors(s, n));
    ghost var i1 := image[..];
    WritePointers(image, at + 40, cursor, direct);
    ghost var i2 := image[..];
    HeadKept(i1, i2, at, n, InodeSectors(s, n), at + 40, at + 40 + 4 * direct);
    if count > DIRECT {
      Write32(image, at + 88, INDIRECT_BLOCK + i);
      HeadKept(i2, image[..], at, n, InodeSectors(s, n), at + 88, at + 92);
      Untouched(i2, image[..], at + 88, at + 92, at + 40, at + 40 + 4 * direct);
      PointersAgree(i2, image[..], at + 40, cursor, direct);
    }
  }

  lemma HeadKept(a: seq<Byte>, b: seq<Byte>, at: int, n: int, sectors: int, lo: int, hi: int)
    requires InodeHead(a, at, n, sectors) && SameOutside(a, b, lo, hi) && at + 40 <= lo
    ensures InodeHead(b, at, n, sectors)
  {
    HalfKept(a, b, lo, hi, at);
    WordKept(a, b, lo, hi, at + 4);
    HalfKept(a, b, lo, hi, at + 26);
    WordKept(a, b, lo, hi, at + 28);
  }

  method WriteIndirect(image: array<Byte>, s: Scale, i: nat, n: nat, cursor: nat)
    requires image.Length == IMAGE_SIZE && i < FILE_COUNT && cursor + Count(s, n) <= Total(s)
    requires Count(s, n) <= DIRECT + PointersPerBlock(s)
    requires Zero(image[..], Blk(s, INDIRECT_BLOCK + i), Blk(s, INDIRECT_BLOCK + i + 1))
    modifies image
    ensures IndirectWritten(image[..], s, i, n, cursor)
    ensures SameOutside(old(image[..]), image[..], Blk(s, INDIRECT_BLOCK + i), Blk(s, INDIRECT_BLOCK + i + 1))
  {
    if Count(s, n) > DIRECT {
      WritePointers(image, Blk(s, INDIRECT_BLOCK + i), cursor + DIRECT, Count(s, n) - DIRECT);
    }
  }

  method WriteData(image: array<Byte>, s: Scale, file: seq<Byte>, cursor: nat)
    requires image.Length == IMAGE_SIZE && cursor + Count(s, |file|) <= Total(s)
    requires Zero(image[..], Blk(s, cursor), IMAGE_SIZE)
    modifies image
    ensures DataWritten(image[..], s, file, cursor)
    ensures SameOutside(old(image[..]), image[..], Blk(s, cursor), Blk(s, cursor + Count(s, |file|)))
  {
    CountBounds(s, |file|);
    Blit(image, Blk(s, cursor), file);
  }

  /** What was zero stays zero where nothing is written. */
  lemma ZeroStays(a: seq<Byte>, b: seq<Byte>, lo: int, hi: int, from: int, to: int)
    requires SameOutside(a, b, lo, hi) && Zero(a, from, to) && (to <= lo || hi <= from)
    ensures Zero(b, from, to)
  {
  }

  /** The ranges that writing file i does not touch. */
  predicate FileFrame(a: seq<Byte>, b: seq<Byte>, s: Scale, i: nat, cursor: nat, count: nat) {
    && Agree(a, b, 0, InodeAt(s, i)) && Agree(a, b, InodeAt(s, i) + 128, Blk(s, INDIRECT_BLOCK + i))
    && Agree(a, b, Blk(s, INDIRECT_BLOCK + i + 1), Blk(s, cursor)) && Agree(a, b, Blk(s, cursor + count), IMAGE_SIZE)
  }

  method WriteFile(image: array<Byte>, s: Scale, files: Files, i: nat, cursor: nat)
    requires image.Length == IMAGE_SIZE && i < |files| == FILE_COUNT && FileFits(s, files, i)
    requires cursor == Cursor(s, files, i) && |files[i]| < WORD_LIMIT
    requires Zero(image[..], InodeAt(s, i), InodeAt(s, i) + 128)
    requires Zero(image[..], Blk(s, INDIRECT_BLOCK + i), Blk(s, INDIRECT_BLOCK + i + 1))
    requires Zero(image[..], Blk(s, cursor), IMAGE_SIZE)
    modifies image
    ensures FileWritten(image[..], s, files, i)
    ensures FileFrame(old(image[..]), image[..], s, i, cursor, Count(s, |files[i]|))
  {
    var file := files[i];
    ghost var i0 := image[..];
    WriteInode(image, s, i, |file|, cursor);
    ghost var i1 := image[..];
    assert Zero(i1, Blk(s, INDIRECT_BLOCK + i), Blk(s, INDIRECT_BLOCK + i + 1)) by {
      ZeroStays(i0, i1, InodeAt(s, i), InodeAt(s, i) + 128, Blk(s, INDIRECT_BLOCK + i), Blk(s, INDIRECT_BLOCK + i + 1));
    }
    WriteIndirect(image, s, i, |file|, cursor);
    ghost var i2 := image[..];
    assert Zero(i2, Blk(s, cursor), IMAGE_SIZE) by {
      ZeroStays(i0, i1, InodeAt(s, i), InodeAt(s, i) + 128, Blk(s, cursor), IMAGE_SIZE);
      ZeroStays(i1, i2, Blk(s, INDIRECT_BLOCK + i), Blk(s, INDIRECT_BLOCK + i + 1), Blk(s, cursor), IMAGE_SIZE);
    }
    WriteData(image, s, file, cursor);
    FileDone(i0, i1, i2, image[..], s, files, i);
  }

  /** The three writes together are the file, and touch nothing else. */
  lemma FileDone(a: seq<Byte>, b: seq<Byte>, c: seq<Byte>, d: seq<Byte>, s: Scale, files: Files, i: nat)
    requires |a| == IMAGE_SIZE && i < |files| == FILE_COUNT && FileFits(s, files, i)
    requires var cursor, n := Cursor(s, files, i), |files[i]|;
      && SameOutside(a, b, InodeAt(s, i), InodeAt(s, i) + 128) && InodeWritten(b, s, i, n, cursor)
      && SameOutside(b, c, Blk(s, INDIRECT_BLOCK + i), Blk(s, INDIRECT_BLOCK + i + 1)) && IndirectWritten(c, s, i, n, cursor)
      && SameOutside(c, d, Blk(s, cursor), Blk(s, cursor + Count(s, n))) && DataWritten(d, s, files[i], cursor)
    ensures FileWritten(d, s, files, i)
    ensures FileFrame(a, d, s, i, Cursor(s, files, i), Count(s, |files[i]|))
  {
    var cursor := Cursor(s, files, i);
    ThreeWrites(a, b, c, d, s, i, cursor, Count(s, |files[i]|));
    PartsKept(b, c, d, s, i, files[i], cursor);
  }

  lemma PartsKept(b: seq<Byte>, c: seq<Byte>, d: seq<Byte>, s: Scale, i: nat, file: seq<Byte>, cursor: nat)
    requires |b| == IMAGE_SIZE && i < FILE_COUNT && DATA_BLOCK <= cursor && cursor + Count(s, |file|) <= Total(s)
    requires Count(s, |file|) <= DIRECT + PointersPerBlock(s)
    requires InodeWritten(b, s, i, |file|, cursor) && IndirectWritten(c, s, i, |file|, cursor)
    requires SameOutside(b, c, Blk(s, INDIRECT_BLOCK + i), Blk(s, INDIRECT_BLOCK + i + 1))
    requires SameOutside(c, d, Blk(s, cursor), Blk(s, cursor + Count(s, |file|)))
    ensures InodeWritten(d, s, i, |file|, cursor) && IndirectWritten(d, s, i, |file|, cursor)
  {
    Untouched(b, c, Blk(s, INDIRECT_BLOCK + i), Blk(s, INDIRECT_BLOCK + i + 1), InodeAt(s, i), InodeAt(s, i) + 128);
    InodeKept(b, c, s, i, |file|, cursor);
    var from, to := Blk(s, cursor), Blk(s, cursor + Count(s, |file|));
    Untouched(c, d, from, to, InodeAt(s, i), InodeAt(s, i) + 128);
    InodeKept(c, d, s, i, |file|, cursor);
    Untouched(c, d, from, to, Blk(s, INDIRECT_BLOCK + i), Blk(s, INDIRECT_BLOCK + i + 1));
    IndirectKept(c, d, s, i, |file|, cursor);
  }

  lemma ThreeWrites(a: seq<Byte>, b: seq<Byte>, c: seq<Byte>, d: seq<Byte>, s: Scale, i: nat, cursor: nat, count: nat)
    requires |a| == IMAGE_SIZE && i < FILE_COUNT && DATA_BLOCK <= cursor && cursor + count <= Total(s)
    requires SameOutside(a, b, InodeAt(s, i), InodeAt(s, i) + 128)
    requires SameOutside(b, c, Blk(s, INDIRECT_BLOCK + i), Blk(s, INDIRECT_BLOCK + i + 1))
    requires SameOutside(c, d, Blk(s, cursor), Blk(s, cursor + count))
    ensures FileFrame(a, d, s, i, cursor, count)
  {
    OutsideThree(a, b, c, d, s, i, cursor, count, 0, InodeAt(s, i));
    OutsideThree(a, b, c, d, s, i, cursor, count, InodeAt(s, i) + 128, Blk(s, INDIRECT_BLOCK + i));
    OutsideThree(a, b, c, d, s, i, cursor, count, Blk(s, INDIRECT_BLOCK + i + 1), Blk(s, cursor));
    OutsideThree(a, b, c, d, s, i, cursor, count, Blk(s, cursor + count), IMAGE_SIZE);
  }

  lemma OutsideThree(a: seq<Byte>, b: seq<Byte>, c: seq<Byte>, d: seq<Byte>, s: Scale, i: nat, cursor: nat, count: nat,
                     lo: int, hi: int)
    requires |a| == IMAGE_SIZE && 0 <= lo && hi <= IMAGE_SIZE
    requires SameOutside(a, b, InodeAt(s, i), InodeAt(s, i) + 128)
    requires SameOutside(b, c, Blk(s, INDIRECT_BLOCK + i), Blk(s, INDIRECT_BLOCK + i + 1))
    requires SameOutside(c, d, Blk(s, cursor), Blk(s, cursor + count))
    requires hi <= InodeAt(s, i) || InodeAt(s, i) + 128 <= lo
    requires hi <= Blk(s, INDIRECT_BLOCK + i) || Blk(s, INDIRECT_BLOCK + i + 1) <= lo
    requires hi <= Blk(s, cursor) || Blk(s, cursor + count) <= lo
    ensures Agree(a, d, lo, hi)
  {
  }

  // ----- All files

  /** The first n files are written; what the others will need is still zero. */
  ghost predicate FilesSoFar(raw: seq<Byte>, s: Scale, files: Files, n: nat)
    requires n <= |files|
  {
    && |raw| == IMAGE_SIZE && |files| == FILE_COUNT
    && (forall m {:trigger FileWritten(raw, s, files, m)} :: 0 <= m < n ==> FileWritten(raw, s, files, m))
    && Zero(raw, InodeAt(s, n), InodeAt(s, FILE_COUNT))
    && Zero(raw, Blk(s, INDIRECT_BLOCK + n), Blk(s, INDIRECT_BLOCK + FILE_COUNT))
    && Zero(raw, Blk(s, Cursor(s, files, n)), IMAGE_SIZE)
  }

  /** What is written of a file stays when its inode, its pointer block and its data stay. */
  lemma FileStays(a: seq<Byte>, b: seq<Byte>, s: Scale, files: Files, m: nat)
    requires m < |files| && FileWritten(a, s, files, m) && FileFits(s, files, m)
    requires Agree(a, b, InodeAt(s, m), InodeAt(s, m) + 128)
    requires Agree(a, b, Blk(s, INDIRECT_BLOCK + m), Blk(s, INDIRECT_BLOCK + m + 1))
    requires Agree(a, b, Blk(s, Cursor(s, files, m)), Blk(s, Cursor(s, files, m) + Count(s, |files[m]|)))
    ensures FileWritten(b, s, files, m)
  {
    var n, cursor := |files[m]|, Cursor(s, files, m);
    InodeKept(a, b, s, m, n, cursor);
    IndirectKept(a, b, s, m, n, cursor);
    DataKept(a, b, s, files[m], cursor);
  }

  lemma FileKept(a: seq<Byte>, b: seq<Byte>, s: Scale, files: Files, m: nat, n: nat)
    requires m < n < |files| == FILE_COUNT && FileWritten(a, s, files, m) && FileFits(s, files, m) && |a| == IMAGE_SIZE
    requires FileFrame(a, b, s, n, Cursor(s, files, n), Count(s, |files[n]|))
    ensures FileWritten(b, s, files, m)
  {
    var cursor, count := Cursor(s, files, m), Count(s, |files[m]|);
    CursorGrows(s, files, m, n);
    AgreeWithin(a, b, 0, InodeAt(s, n), InodeAt(s, m), InodeAt(s, m) + 128);
    AgreeWithin(a, b, InodeAt(s, n) + 128, Blk(s, INDIRECT_BLOCK + n),
                Blk(s, INDIRECT_BLOCK + m), Blk(s, INDIRECT_BLOCK + m + 1));
    AgreeWithin(a, b, Blk(s, INDIRECT_BLOCK + n + 1), Blk(s, Cursor(s, files, n)), Blk(s, cursor), Blk(s, cursor + count));
    FileStays(a, b, s, files, m);
  }

  lemma FilesStep(a: seq<Byte>, b: seq<Byte>, s: Scale, files: Files, n: nat)
    requires n < |files| && FilesSoFar(a, s, files, n) && FileWritten(b, s, files, n)
    requires forall m :: 0 <= m <= n ==> FileFits(s, files, m)
    requires FileFrame(a, b, s, n, Cursor(s, files, n), Count(s, |files[n]|))
    ensures FilesSoFar(b, s, files, n + 1)
  {
    FilesKept(a, b, s, files, n);
    RestZero(a, b, s, files, n);
  }

  lemma FilesKept(a: seq<Byte>, b: seq<Byte>, s: Scale, files: Files, n: nat)
    requires n < |files| && FilesSoFar(a, s, files, n) && FileWritten(b, s, files, n)
    requires forall m :: 0 <= m <= n ==> FileFits(s, files, m)
    requires FileFrame(a, b, s, n, Cursor(s, files, n), Count(s, |files[n]|))
    ensures forall m :: 0 <= m < n + 1 ==> FileWritten(b, s, files, m)
  {
    forall m | 0 <= m < n + 1 ensures FileWritten(b, s, files, m) {
      if m < n {
        FileKept(a, b, s, files, m, n);
      }
    }
  }

  lemma RestZero(a: seq<Byte>, b: seq<Byte>, s: Scale, files: Files, n: nat)
    requires n < |files| == FILE_COUNT && |a| == IMAGE_SIZE && FileFits(s, files, n)
    requires Zero(a, InodeAt(s, n), InodeAt(s, FILE_COUNT)) && Zero(a, Blk(s, Cursor(s, files, n)), IMAGE_SIZE)
    requires Zero(a, Blk(s, INDIRECT_BLOCK + n), Blk(s, INDIRECT_BLOCK + FILE_COUNT))
    requires FileFrame(a, b, s, n, Cursor(s, files, n), Count(s, |files[n]|))
    ensures Zero(b, InodeAt(s, n + 1), InodeAt(s, FILE_COUNT)) && Zero(b, Blk(s, Cursor(s, files, n + 1)), IMAGE_SIZE)
    ensures Zero(b, Blk(s, INDIRECT_BLOCK + n + 1), Blk(s, INDIRECT_BLOCK + FILE_COUNT))
  {
    AgreeWithin(a, b, InodeAt(s, n) + 128, Blk(s, INDIRECT_BLOCK + n), InodeAt(s, n + 1), InodeAt(s, FILE_COUNT));
    ZeroAgrees(a, b, InodeAt(s, n + 1), InodeAt(s, FILE_COUNT));
    AgreeWithin(a, b, Blk(s, INDIRECT_BLOCK + n + 1), Blk(s, Cursor(s, files, n)),
                Blk(s, INDIRECT_BLOCK + n + 1), Blk(s, INDIRECT_BLOCK + FILE_COUNT));
    ZeroAgrees(a, b, Blk(s, INDIRECT_BLOCK + n + 1), Blk(s, INDIRECT_BLOCK + FILE_COUNT));
    ZeroAgrees(a, b, Blk(s, Cursor(s, files, n + 1)), IMAGE_SIZE);
  }

  /** What the files leave alone: everything below the first inode, the directory, and the gaps. */
  predicate Aside(a: seq<Byte>, b: seq<Byte>, s: Scale) {
    && Agree(a, b, 0, InodeAt(s, 0)) && Agree(a, b, InodeAt(s, FILE_COUNT), Blk(s, INDIRECT_BLOCK))
    && Agree(a, b, Blk(s, INDIRECT_BLOCK + FILE_COUNT), Blk(s, DATA_BLOCK))
  }

  lemma AsideStep(a: seq<Byte>, b: seq<Byte>, c: seq<Byte>, s: Scale, n: nat, cursor: nat, count: nat)
    requires |a| == IMAGE_SIZE && n < FILE_COUNT && DATA_BLOCK <= cursor && Aside(a, b, s)
    requires FileFrame(b, c, s, n, cursor, count)
    ensures Aside(a, c, s)
  {
  }

  /** Blocks in use before any file. */
  function BaseBlocks(s: Scale): set<int> { Meta(s) + {DIRECTORY_BLOCK} }

  lemma UsedAtFirst(s: Scale, files: Files)
    ensures BaseBlocks(s) == Used(s, Plan(s, files, 0))
  {
  }

  lemma UsedNext(s: Scale, files: Files, n: nat)
    requires n < |files|
    ensures var more := set b | b in Run(Cursor(s, files, n), Count(s, |files[n]|));
      Used(s, Plan(s, files, n + 1)) ==
      Used(s, Plan(s, files, n)) + (if Count(s, |files[n]|) > DIRECT then {INDIRECT_BLOCK + n} else {}) + more
  {
    var p, q := Plan(s, files, n), PlanFile(s, files, n);
    assert forall b :: b in p + q <==> b in p || b in q;
  }

  /** The state of the loop over the files. */
  ghost predicate AtFile(initial: seq<Byte>, raw: seq<Byte>, s: Scale, files: Files, n: nat, cursor: nat, occupied: set<int>)
    requires n <= |files|
  {
    && FilesSoFar(raw, s, files, n) && Aside(initial, raw, s) && (forall m :: 0 <= m < n ==> FileFits(s, files, m))
    && cursor == Cursor(s, files, n) && occupied == Used(s, Plan(s, files, n))
  }

  method WriteNext(image: array<Byte>, s: Scale, files: Files, n: nat, cursor: nat, occupied: set<int>,
                   ghost initial: seq<Byte>)
    returns (ok: bool, cursor': nat, occupied': set<int>)
    requires Admitted(files) && image.Length == IMAGE_SIZE == |initial| && n < |files|
    requires AtFile(initial, image[..], s, files, n, cursor, occupied)
    modifies image
    ensures ok <==> FileFits(s, files, n)
    ensures ok ==> AtFile(initial, image[..], s, files, n + 1, cursor', occupied')
  {
    var count := Count(s, |files[n]|);
    ok, cursor', occupied' := false, cursor, occupied;
    if count > DIRECT + PointersPerBlock(s) || cursor + count > Total(s) { return; }
    ghost var before := image[..];
    WriteFile(image, s, files, n, cursor);
    FilesStep(before, image[..], s, files, n);
    AsideStep(initial, before, image[..], s, n, cursor, count);
    UsedNext(s, files, n);
    if count > DIRECT {
      occupied' := occupied' + {INDIRECT_BLOCK + n};
    }
    occupied' := occupied' + (set b | b in Run(cursor, count));
    cursor' := cursor + count;
    ok := true;
  }

  /** Writes the files one behind the other; gives up at the first that does not fit. */
  method WriteFiles(image: array<Byte>, s: Scale, files: Files) returns (ok: bool, occupied: set<int>)
    requires Admitted(files) && image.Length == IMAGE_SIZE && FilesSoFar(image[..], s, files, 0)
    modifies image
    ensures ok <==> Fits(s, files)
    ensures ok ==> FilesSoFar(image[..], s, files, FILE_COUNT) && Aside(old(image[..]), image[..], s)
    ensures ok ==> occupied == Used(s, Plan(s, files, FILE_COUNT))
  {
    var cursor, n := DATA_BLOCK, 0;
    ok, occupied := true, BaseBlocks(s);
    UsedAtFirst(s, files);
    while n < FILE_COUNT
      invariant 0 <= n <= FILE_COUNT && ok && 0 <= cursor
      invariant AtFile(old(image[..]), image[..], s, files, n, cursor, occupied)
    {
      ok, cursor, occupied := WriteNext(image, s, files, n, cursor, occupied, old(image[..]));
      if !ok { return; }
      n := n + 1;
    }
  }

  // ----- The directory

  predicate RecordWritten(raw: seq<Byte>, pos: int, end: int, r: Record) {
    && Word(raw, pos) == r.inode && Half(raw, pos + 4) == end - pos && 0 <= pos && pos + 8 <= |raw|
    && (raw[pos + 6] as int) == |r.name| && (raw[pos + 7] as int) == r.kind && At(raw, pos + 8, r.name)
    && Zero(raw, pos + 8 + |r.name|, end)
  }

  method WriteRecord(image: array<Byte>, pos: int, end: int, r: Record)
    requires 0 <= pos && pos + 8 + |r.name| <= end <= image.Length && end - pos < 0x1_0000
    requires 0 <= r.inode < WORD_LIMIT && |r.name| < 256 && 0 <= r.kind < 256 && Zero(image[..], pos, end)
    modifies image
    ensures RecordWritten(image[..], pos, end, r) && SameOutside(old(image[..]), image[..], pos, end)
  {
    Write32(image, pos, r.inode);
    ghost var i1 := image[..];
    Write16(image, pos + 4, end - pos);
    ghost var i2 := image[..];
    Blit(image, pos + 6, [|r.name|, r.kind]);
    ghost var i3 := image[..];
    assert i3[pos + 6..pos + 8] == [|r.name|, r.kind];
    assert i3[pos + 6] == i3[pos + 6..pos + 8][0] && i3[pos + 7] == i3[pos + 6..pos + 8][1];
    Blit(image, pos + 8, r.name);
    WordKept(i1, i2, pos + 4, pos + 6, pos);
    WordKept(i2, i3, pos + 6, pos + 8, pos);
    WordKept(i3, image[..], pos + 8, pos + 8 + |r.name|, pos);
    HalfKept(i2, i3, pos + 6, pos + 8, pos + 4);
    HalfKept(i3, image[..], pos + 8, pos + 8 + |r.name|, pos + 4);
  }

  /** Records that fit between these positions, the last position being the end. */
  predicate Spaced(pos: seq<int>, recs: seq<Record>) {
    && |pos| == |recs| + 1 && 0 <= pos[0]
    && (forall k :: 0 <= k < |pos| ==> pos[k] % 4 == 0)
    && (forall k :: 0 <= k < |recs| ==> pos[k] + 8 + |recs[k].name| <= pos[k + 1] < pos[k] + 0x1_0000)
    && (forall k :: 0 <= k < |recs| ==>
          |recs[k].name| < 256 && 0 <= recs[k].inode < WORD_LIMIT && 0 <= recs[k].kind < 256)
  }

  predicate RecordThere(raw: seq<Byte>, pos: seq<int>, recs: seq<Record>, k: nat)
    requires k < |recs| && |pos| == |recs| + 1
  {
    RecordWritten(raw, pos[k], pos[k + 1], recs[k])
  }

  predicate RecordsThere(raw: seq<Byte>, pos: seq<int>, recs: seq<Record>, n: nat)
    requires n <= |recs| && |pos| == |recs| + 1
  {
    forall k: nat {:trigger RecordThere(raw, pos, recs, k)} :: k < n ==> RecordThere(raw, pos, recs, k)
  }

  lemma {:induction false} PositionsAscend(pos: seq<int>, recs: seq<Record>, j: nat, k: nat)
    requires Spaced(pos, recs) && j <= k < |pos|
    ensures pos[j] <= pos[k]
  {
    if j < k {
      PositionsAscend(pos, recs, j, k - 1);
    }
  }

  lemma RecordParses(raw: seq<Byte>, at: int, next: int, end: int, r: Record)
    requires RecordWritten(raw, at, next, r) && at % 4 == 0 && next % 4 == 0 && at + 8 + |r.name| <= next <= end <= |raw|
    ensures RecordGood(raw, at, end) && RecordAt(raw, at, end) == r && at + U16(raw, at + 4) == next
  {
  }

  /** Parsing a written directory gives the records back. */
  lemma {:induction false} ParseWritten(raw: seq<Byte>, pos: seq<int>, recs: seq<Record>, k: nat)
    requires Spaced(pos, recs) && k <= |recs| && RecordsThere(raw, pos, recs, |recs|) && pos[|recs|] <= |raw|
    ensures Parse(raw, pos[k], pos[|recs|]) == Some(recs[k..])
    decreases |recs| - k
  {
    if k < |recs| {
      assert RecordThere(raw, pos, recs, k);
      PositionsAscend(pos, recs, k + 1, |recs|);
      RecordParses(raw, pos[k], pos[k + 1], pos[|recs|], recs[k]);
      ParseWritten(raw, pos, recs, k + 1);
      assert [recs[k]] + recs[k + 1..] == recs[k..];
    } else {
      assert recs[k..] == [];
    }
  }

  lemma RecordStays(a: seq<Byte>, b: seq<Byte>, lo: int, hi: int, at: int, end: int, r: Record)
    requires RecordWritten(a, at, end, r) && SameOutside(a, b, lo, hi) && at + 8 + |r.name| <= end
    requires end <= lo || hi <= at
    ensures RecordWritten(b, at, end, r)
  {
    WordKept(a, b, lo, hi, at);
    HalfKept(a, b, lo, hi, at + 4);
    AtKept(a, b, lo, hi, at + 8, r.name);
  }

  lemma RecordsStay(a: seq<Byte>, b: seq<Byte>, pos: seq<int>, recs: seq<Record>, n: nat)
    requires Spaced(pos, recs) && n < |recs| && RecordsThere(a, pos, recs, n)
    requires SameOutside(a, b, pos[n], pos[n + 1]) && RecordThere(b, pos, recs, n)
    ensures RecordsThere(b, pos, recs, n + 1)
  {
    forall k: nat | k < n + 1 ensures RecordThere(b, pos, recs, k) {
      if k < n {
        assert RecordThere(a, pos, recs, k);
        PositionsAscend(pos, recs, k + 1, n);
        RecordStays(a, b, pos[n], pos[n + 1], pos[k], pos[k + 1], recs[k]);
      }
    }
  }

  method WriteRecords(image: array<Byte>, pos: seq<int>, recs: seq<Record>)
    requires Spaced(pos, recs) && pos[|recs|] <= image.Length && Zero(image[..], pos[0], pos[|recs|])
    modifies image
    ensures RecordsThere(image[..], pos, recs, |recs|) && SameOutside(old(image[..]), image[..], pos[0], pos[|recs|])
  {
    var n := 0;
    while n < |recs|
      invariant 0 <= n <= |recs| && RecordsThere(image[..], pos, recs, n)
      invariant Zero(image[..], pos[n], pos[|recs|]) && SameOutside(old(image[..]), image[..], pos[0], pos[|recs|])
    {
      ghost var before := image[..];
      PositionsAscend(pos, recs, 0, n);
      PositionsAscend(pos, recs, n + 1, |recs|);
      WriteRecord(image, pos[n], pos[n + 1], recs[n]);
      RecordsStay(before, image[..], pos, recs, n);
      SameTwice(old(image[..]), before, image[..], pos[0], pos[|recs|], pos[n], pos[n + 1]);
      n := n + 1;
    }
  }

  /** The space of a record, up to the next multiple of four. */
  function RecordSize(r: Record): int { (8 + |r.name| + 3) / 4 * 4 }

  /** Records stand close together from the start of the block; the last takes the rest. */
  function Positions(base: int, end: int, recs: seq<Record>): (pos: seq<int>)
    ensures |pos| == |recs| + 1
    decreases |recs|
  {
    if |recs| == 0 then [base]
    else if |recs| == 1 then [base, end]
    else [base] + Positions(base + RecordSize(recs[0]), end, recs[1..])
  }

  /** The positions of the seven records. */
  lemma PositionsAre(base: int, end: int)
    ensures Positions(base, end, RECORDS) == [base, base + 12, base + 24, base + 40, base + 56, base + 72, base + 92, end]
  {
    var r := RECORDS;
    assert RecordSize(r[0]) == 12 && RecordSize(r[1]) == 12 && RecordSize(r[2]) == 16;
    assert RecordSize(r[3]) == 16 && RecordSize(r[4]) == 16 && RecordSize(r[5]) == 20;
    assert r[1..][0] == r[1] && r[2..][0] == r[2] && r[3..][0] == r[3] && r[4..][0] == r[4] && r[5..][0] == r[5];
    assert r[1..][1..] == r[2..] && r[2..][1..] == r[3..] && r[3..][1..] == r[4..] && r[4..][1..] == r[5..];
    assert r[5..][1..] == r[6..] && |r[6..]| == 1;
    assert Positions(base + 92, end, r[6..]) == [base + 92, end];
    assert Positions(base + 72, end, r[5..]) == [base + 72] + Positions(base + 92, end, r[6..]);
    assert Positions(base + 56, end, r[4..]) == [base + 56] + Positions(base + 72, end, r[5..]);
    assert Positions(base + 40, end, r[3..]) == [base + 40] + Positions(base + 56, end, r[4..]);
    assert Positions(base + 24, end, r[2..]) == [base + 24] + Positions(base + 40, end, r[3..]);
    assert Positions(base + 12, end, r[1..]) == [base + 12] + Positions(base + 24, end, r[2..]);
  }

  lemma RecordBounds()
    ensures forall k :: 0 <= k < |RECORDS| ==>
      |RECORDS[k].name| < 256 && 0 <= RECORDS[k].inode < WORD_LIMIT && 0 <= RECORDS[k].kind < 256
  {
  }

  lemma RecordsSpaced(base: int, end: int)
    requires 0 <= base && base % 4 == 0 && end % 4 == 0 && base + 1024 <= end <= base + 4096
    ensures Spaced(Positions(base, end, RECORDS), RECORDS)
  {
    PositionsAre(base, end);
    SpacedAt(base, end, Positions(base, end, RECORDS));
  }

  lemma SpacedAt(base: int, end: int, p: seq<int>)
    requires 0 <= base && base % 4 == 0 && end % 4 == 0 && base + 1024 <= end <= base + 4096
    requires p == [base, base + 12, base + 24, base + 40, base + 56, base + 72, base + 92, end]
    ensures Spaced(p, RECORDS)
  {
    RecordBounds();
    assert p[0] == base && p[1] == base + 12 && p[2] == base + 24 && p[3] == base + 40;
    assert p[4] == base + 56 && p[5] == base + 72 && p[6] == base + 92 && p[7] == end;
    assert |RECORDS[0].name| == 1 && |RECORDS[1].name| == 2 && |RECORDS[2].name| == 8 && |RECORDS[3].name| == 7;
    assert |RECORDS[4].name| == 6 && |RECORDS[5].name| == 9 && |RECORDS[6].name| == 8;
  }

  function DirectoryPositions(s: Scale): seq<int> {
    Positions(Blk(s, DIRECTORY_BLOCK), Blk(s, DIRECTORY_BLOCK + 1), RECORDS)
  }

  predicate DirectoryWritten(raw: seq<Byte>, s: Scale) { RecordsThere(raw, DirectoryPositions(s), RECORDS, |RECORDS|) }

  lemma DirectorySpaced(s: Scale)
    ensures Spaced(DirectoryPositions(s), RECORDS) && DirectoryPositions(s)[0] == Blk(s, DIRECTORY_BLOCK)
    ensures DirectoryPositions(s)[|RECORDS|] == Blk(s, DIRECTORY_BLOCK + 1)
  {
    RecordsSpaced(Blk(s, DIRECTORY_BLOCK), Blk(s, DIRECTORY_BLOCK + 1));
    PositionsAre(Blk(s, DIRECTORY_BLOCK), Blk(s, DIRECTORY_BLOCK + 1));
  }

  method WriteDirectory(image: array<Byte>, s: Scale)
    requires image.Length == IMAGE_SIZE && Zero(image[..], Blk(s, DIRECTORY_BLOCK), Blk(s, DIRECTORY_BLOCK + 1))
    modifies image
    ensures DirectoryWritten(image[..], s)
    ensures SameOutside(old(image[..]), image[..], Blk(s, DIRECTORY_BLOCK), Blk(s, DIRECTORY_BLOCK + 1))
  {
    DirectorySpaced(s);
    WriteRecords(image, DirectoryPositions(s), RECORDS);
  }

  /** A written directory parses as the expected records. */
  lemma DirectoryParses(raw: seq<Byte>, s: Scale)
    requires |raw| == IMAGE_SIZE && DirectoryWritten(raw, s)
    ensures DirectoryOk(raw, s)
  {
    DirectorySpaced(s);
    ParseWritten(raw, DirectoryPositions(s), RECORDS, 0);
    assert RECORDS[0..] == RECORDS;
  }

  lemma DirectoryStays(a: seq<Byte>, b: seq<Byte>, s: Scale, lo: int, hi: int)
    requires DirectoryWritten(a, s) && SameOutside(a, b, lo, hi) && hi <= Blk(s, DIRECTORY_BLOCK)
    ensures DirectoryWritten(b, s)
  {
    var pos := DirectoryPositions(s);
    DirectorySpaced(s);
    forall k: nat | k < |RECORDS| ensures RecordThere(b, pos, RECORDS, k) {
      assert RecordThere(a, pos, RECORDS, k);
      PositionsAscend(pos, RECORDS, 0, k);
      RecordStays(a, b, lo, hi, pos[k], pos[k + 1], RECORDS[k]);
    }
  }

  // ----- Bitmaps

  function Power(k: nat): nat { if k == 0 then 1 else 2 * Power(k - 1) }

  /** A byte with bit k set, whatever it was before. */
  function WithBit(b: nat, k: nat): nat { if BitSet(b, k) then b else b + Power(k) }

  /** Setting the bit of a block that was not marked marks this block and no other. */
  lemma MarkBit(done: set<int>, block: int, base: int)
    requires block !in done && base <= block < base + 8
    ensures WithBit(BitmapByte(done, base), block - base) == BitmapByte(done + {block}, base)
  {
    BitmapMeans(done, base, block - base);
    assert Power(0) == 1 && Power(1) == 2 && Power(2) == 4 && Power(3) == 8;
    assert Power(4) == 16 && Power(5) == 32 && Power(6) == 64 && Power(7) == 128;
  }

  lemma OtherByte(done: set<int>, block: int, base: int)
    requires block < base || base + 8 <= block
    ensures BitmapByte(done + {block}, base) == BitmapByte(done, base)
  {
  }

  /** The bytes of the bitmap for the blocks marked so far. */
  predicate Marks(raw: seq<Byte>, s: Scale, done: set<int>) {
    && Blk(s, 5) <= |raw|
    && forall i {:trigger BitmapByteAt(raw, s, done, i)} :: 0 <= i < BlockSize(s) ==> BitmapByteAt(raw, s, done, i)
  }

  method MarkBlock(image: array<Byte>, s: Scale, block: int, ghost done: set<int>)
    requires image.Length == IMAGE_SIZE && Marks(image[..], s, done) && block !in done && First(s) <= block < Total(s)
    modifies image
    ensures Marks(image[..], s, done + {block})
    ensures SameOutside(old(image[..]), image[..], Blk(s, 3), Blk(s, 4))
  {
    var bit := block - First(s);
    var at := Blk(s, 3) + bit / 8;
    ghost var before := image[..];
    assert BitmapByteAt(before, s, done, bit / 8);
    MarkBit(done, block, First(s) + 8 * (bit / 8));
    var marked: int := WithBit(image[at], bit % 8);
    assert marked == BitmapByte(done + {block}, First(s) + 8 * (bit / 8));
    image[at] := marked;
    MarksMore(before, image[..], s, done, block, bit / 8);
  }

  lemma MarksMore(a: seq<Byte>, b: seq<Byte>, s: Scale, done: set<int>, block: int, i0: int)
    requires |a| == |b| == IMAGE_SIZE && Marks(a, s, done) && 0 <= i0 < BlockSize(s)
    requires First(s) + 8 * i0 <= block < First(s) + 8 * i0 + 8 && BitmapByteAt(b, s, done + {block}, i0)
    requires forall i :: 0 <= i < BlockSize(s) && i != i0 ==> ByteKept(a, b, Blk(s, 3), i)
    ensures Marks(b, s, done + {block})
  {
    forall i | 0 <= i < BlockSize(s) ensures BitmapByteAt(b, s, done + {block}, i) {
      if i != i0 {
        assert BitmapByteAt(a, s, done, i) && ByteKept(a, b, Blk(s, 3), i);
        OtherByte(done, block, First(s) + 8 * i);
      }
    }
  }

  predicate ByteKept(a: seq<Byte>, b: seq<Byte>, base: int, i: int) {
    0 <= base + i < |a| == |b| && a[base + i] == b[base + i]
  }

  lemma NothingMarked(raw: seq<Byte>, s: Scale)
    requires |raw| == IMAGE_SIZE && Zero(raw, Blk(s, 3), Blk(s, 4))
    ensures Marks(raw, s, {})
  {
  }

  /** Marks all occupied blocks. */
  method WriteBitmap(image: array<Byte>, s: Scale, occupied: set<int>)
    requires image.Length == IMAGE_SIZE && Zero(image[..], Blk(s, 3), Blk(s, 4))
    requires forall b :: b in occupied ==> First(s) <= b < Total(s)
    modifies image
    ensures Marks(image[..], s, occupied) && SameOutside(old(image[..]), image[..], Blk(s, 3), Blk(s, 4))
  {
    NothingMarked(image[..], s);
    ghost var done: set<int> := {};
    var block := First(s);
    while block < Total(s)
      invariant First(s) <= block <= Total(s) && done <= occupied
      invariant forall b :: b in occupied ==> (b in done <==> b < block)
      invariant Marks(image[..], s, done) && SameOutside(old(image[..]), image[..], Blk(s, 3), Blk(s, 4))
    {
      if block in occupied {
        ghost var before := image[..];
        MarkBlock(image, s, block, done);
        SameTwice(old(image[..]), before, image[..], Blk(s, 3), Blk(s, 4), Blk(s, 3), Blk(s, 4));
        done := done + {block};
      }
      block := block + 1;
    }
    assert done == occupied;
  }

  // ----- Fixed fields

  function SuperWords(s: Scale): seq<(int, int)> {
    [(0, 16), (4, Total(s)), (16, 0), (20, First(s)), (24, s), (28, s), (32, Total(s)), (36, Total(s)), (40, 16),
     (76, 1), (84, 11), (96, 2)]
  }

  predicate SuperOk(raw: seq<Byte>, s: Scale) {
    && WordsAt(raw, SUPERBLOCK, SuperWords(s), 12) && Half(raw, SUPERBLOCK + 56) == 0xEF53
    && Half(raw, SUPERBLOCK + 58) == 1 && Half(raw, SUPERBLOCK + 88) == 128
  }

  lemma SuperAscending(s: Scale)
    ensures Ascending(SuperWords(s), 100)
  {
  }

  lemma WordsKept(a: seq<Byte>, b: seq<Byte>, base: int, words: seq<(int, int)>, lo: int, hi: int)
    requires SameOutside(a, b, lo, hi) && WordsAt(a, base, words, |words|)
    requires forall k :: 0 <= k < |words| ==> base + words[k].0 + 4 <= lo || hi <= base + words[k].0
    ensures WordsAt(b, base, words, |words|)
  {
    forall k | 0 <= k < |words| ensures WordAt(b, base, words, k) {
      assert WordAt(a, base, words, k);
      WordKept(a, b, lo, hi, base + words[k].0);
    }
  }

  /** A write outside the superblock's fields, or into its free block count. */
  predicate SparesSuper(lo: int, hi: int) {
    hi <= SUPERBLOCK || SUPERBLOCK + 100 <= lo || (SUPERBLOCK + 12 <= lo && hi <= SUPERBLOCK + 16)
    || (SUPERBLOCK + 56 <= lo && hi <= SUPERBLOCK + 60) || (SUPERBLOCK + 88 <= lo && hi <= SUPERBLOCK + 90)
  }

  lemma SuperWordsKept(a: seq<Byte>, b: seq<Byte>, s: Scale, lo: int, hi: int)
    requires SameOutside(a, b, lo, hi) && WordsAt(a, SUPERBLOCK, SuperWords(s), 12) && SparesSuper(lo, hi) && lo <= hi
    ensures WordsAt(b, SUPERBLOCK, SuperWords(s), 12)
  {
    WordsKept(a, b, SUPERBLOCK, SuperWords(s), lo, hi);
  }

  /** A write into fields or areas of their own. */
  predicate Named(s: Scale, lo: int, hi: int) {
    var r := RootInodeAt(s);
    || (1024 <= lo && hi <= 1032) || (1036 <= lo && hi <= 1068) || (1080 <= lo && hi <= 1084) || (1100 <= lo && hi <= 1104)
    || (1108 <= lo && hi <= 1114) || (1120 <= lo && hi <= 1124) || (GroupAt(s) <= lo && hi <= GroupAt(s) + 18)
    || (Blk(s, 3) <= lo && hi <= Blk(s, 5)) || (r <= lo && hi <= r + 2) || (r + 4 <= lo && hi <= r + 8)
    || (r + 26 <= lo && hi <= r + 32) || (r + 40 <= lo && hi <= r + 44) || InodeAt(s, 0) <= lo
  }

  lemma MarginsKept(a: seq<Byte>, b: seq<Byte>, s: Scale, lo: int, hi: int)
    requires Margins(a, s) && SameOutside(a, b, lo, hi) && lo <= hi && Named(s, lo, hi)
    ensures Margins(b, s)
  {
  }

  lemma SuperSpared(s: Scale)
    ensures Spared(SuperWords(s), 8, 12) && Spared(SuperWords(s), 44, 56) && Spared(SuperWords(s), 60, 76)
    ensures Spared(SuperWords(s), 80, 84) && Spared(SuperWords(s), 90, 96)
  {
  }

  method WriteSuperWords(image: array<Byte>, s: Scale)
    requires image.Length == IMAGE_SIZE && Margins(image[..], s)
    modifies image
    ensures WordsAt(image[..], SUPERBLOCK, SuperWords(s), 12) && Margins(image[..], s)
    ensures SameOutside(old(image[..]), image[..], SUPERBLOCK, SUPERBLOCK + 100)
  {
    SuperAscending(s);
    SuperSpared(s);
    WriteWords(image, SUPERBLOCK, SuperWords(s), 100);
  }

  method WriteSuper(image: array<Byte>, s: Scale)
    requires image.Length == IMAGE_SIZE && Margins(image[..], s)
    modifies image
    ensures SuperOk(image[..], s) && Margins(image[..], s)
    ensures SameOutside(old(image[..]), image[..], SUPERBLOCK, SUPERBLOCK + 100)
  {
    WriteSuperWords(image, s);
    ghost var i1 := image[..];
    Write16(image, SUPERBLOCK + 56, 0xEF53);
    ghost var i2 := image[..];
    Write16(image, SUPERBLOCK + 58, 1);
    ghost var i3 := image[..];
    Write16(image, SUPERBLOCK + 88, 128);
    SuperHalves(i1, i2, i3, image[..], s);
  }

  lemma SuperHalves(i1: seq<Byte>, i2: seq<Byte>, i3: seq<Byte>, i4: seq<Byte>, s: Scale)
    requires WordsAt(i1, SUPERBLOCK, SuperWords(s), 12) && Margins(i1, s)
    requires SameOutside(i1, i2, SUPERBLOCK + 56, SUPERBLOCK + 58) && SameOutside(i2, i3, SUPERBLOCK + 58, SUPERBLOCK + 60)
    requires SameOutside(i3, i4, SUPERBLOCK + 88, SUPERBLOCK + 90)
    ensures WordsAt(i4, SUPERBLOCK, SuperWords(s), 12) && Margins(i4, s)
    ensures Half(i4, SUPERBLOCK + 56) == Half(i2, SUPERBLOCK + 56) && Half(i4, SUPERBLOCK + 58) == Half(i3, SUPERBLOCK + 58)
  {
    SuperWordsKept(i1, i2, s, SUPERBLOCK + 56, SUPERBLOCK + 58);
    MarginsKept(i1, i2, s, SUPERBLOCK + 56, SUPERBLOCK + 58);
    SuperWordsKept(i2, i3, s, SUPERBLOCK + 58, SUPERBLOCK + 60);
    MarginsKept(i2, i3, s, SUPERBLOCK + 58, SUPERBLOCK + 60);
    SuperWordsKept(i3, i4, s, SUPERBLOCK + 88, SUPERBLOCK + 90);
    MarginsKept(i3, i4, s, SUPERBLOCK + 88, SUPERBLOCK + 90);
    HalfKept(i2, i3, SUPERBLOCK + 58, SUPERBLOCK + 60, SUPERBLOCK + 56);
    HalfKept(i3, i4, SUPERBLOCK + 88, SUPERBLOCK + 90, SUPERBLOCK + 56);
    HalfKept(i3, i4, SUPERBLOCK + 88, SUPERBLOCK + 90, SUPERBLOCK + 58);
  }

  predicate GroupOk(raw: seq<Byte>, s: Scale) {
    Word(raw, GroupAt(s)) == 3 && Word(raw, GroupAt(s) + 4) == 4 && Word(raw, GroupAt(s) + 8) == 5
  }

  method WriteGroup(image: array<Byte>, s: Scale)
    requires image.Length == IMAGE_SIZE
    modifies image
    ensures GroupOk(image[..], s) && SameOutside(old(image[..]), image[..], GroupAt(s), GroupAt(s) + 12)
  {
    var at := GroupAt(s);
    Write32(image, at, 3);
    ghost var i1 := image[..];
    Write32(image, at + 4, 4);
    ghost var i2 := image[..];
    Write32(image, at + 8, 5);
    WordKept(i1, i2, at + 4, at + 8, at);
    WordKept(i2, image[..], at + 8, at + 12, at);
    WordKept(i2, image[..], at + 8, at + 12, at + 4);
  }

  lemma HeaderFrom(raw: seq<Byte>, s: Scale)
    requires SuperOk(raw, s) && GroupOk(raw, s)
    ensures HeaderOk(raw, s) && Word(raw, 1040) == 0
  {
    var w := SuperWords(s);
    assert WordAt(raw, SUPERBLOCK, w, 0) && WordAt(raw, SUPERBLOCK, w, 1) && WordAt(raw, SUPERBLOCK, w, 2);
    assert WordAt(raw, SUPERBLOCK, w, 3) && WordAt(raw, SUPERBLOCK, w, 4) && WordAt(raw, SUPERBLOCK, w, 5);
    assert WordAt(raw, SUPERBLOCK, w, 6) && WordAt(raw, SUPERBLOCK, w, 7) && WordAt(raw, SUPERBLOCK, w, 8);
    assert WordAt(raw, SUPERBLOCK, w, 9) && WordAt(raw, SUPERBLOCK, w, 10) && WordAt(raw, SUPERBLOCK, w, 11);
  }

  method WriteRootInode(image: array<Byte>, s: Scale)
    requires image.Length == IMAGE_SIZE && Margins(image[..], s)
    modifies image
    ensures Margins(image[..], s)
    ensures RootInodeOk(image[..], s) && SameOutside(old(image[..]), image[..], RootInodeAt(s), RootInodeAt(s) + 44)
  {
    var r := RootInodeAt(s);
    ghost var i0 := image[..];
    Write16(image, r, 0x41ED);
    ghost var i1 := image[..];
    Write32(image, r + 4, BlockSize(s));
    ghost var i2 := image[..];
    Write16(image, r + 26, 2);
    ghost var i3 := image[..];
    Write32(image, r + 28, BlockSize(s) / 512);
    ghost var i4 := image[..];
    Write32(image, r + 40, DIRECTORY_BLOCK);
    RootKept(i1, i2, i3, i4, image[..], r);
    RootMargins(i0, i1, i2, i3, i4, image[..], s);
  }

  lemma RootMargins(i0: seq<Byte>, i1: seq<Byte>, i2: seq<Byte>, i3: seq<Byte>, i4: seq<Byte>, i5: seq<Byte>, s: Scale)
    requires var r := RootInodeAt(s);
      && SameOutside(i0, i1, r, r + 2) && SameOutside(i1, i2, r + 4, r + 8) && SameOutside(i2, i3, r + 26, r + 28)
      && SameOutside(i3, i4, r + 28, r + 32) && SameOutside(i4, i5, r + 40, r + 44)
    requires Margins(i0, s)
    ensures Margins(i5, s)
  {
    var r := RootInodeAt(s);
    MarginsKept(i0, i1, s, r, r + 2);
    MarginsKept(i1, i2, s, r + 4, r + 8);
    MarginsKept(i2, i3, s, r + 26, r + 28);
    MarginsKept(i3, i4, s, r + 28, r + 32);
    MarginsKept(i4, i5, s, r + 40, r + 44);
  }

  lemma RootKept(i1: seq<Byte>, i2: seq<Byte>, i3: seq<Byte>, i4: seq<Byte>, i5: seq<Byte>, r: int)
    requires SameOutside(i1, i2, r + 4, r + 8) && SameOutside(i2, i3, r + 26, r + 28)
    requires SameOutside(i3, i4, r + 28, r + 32) && SameOutside(i4, i5, r + 40, r + 44)
    ensures Half(i5, r) == Half(i1, r) && Word(i5, r + 4) == Word(i2, r + 4)
    ensures Half(i5, r + 26) == Half(i3, r + 26) && Word(i5, r + 28) == Word(i4, r + 28)
  {
    HalfKept(i1, i2, r + 4, r + 8, r);
    HalfKept(i2, i3, r + 26, r + 28, r);
    HalfKept(i3, i4, r + 28, r + 32, r);
    HalfKept(i4, i5, r + 40, r + 44, r);
    WordKept(i2, i3, r + 26, r + 28, r + 4);
    WordKept(i3, i4, r + 28, r + 32, r + 4);
    WordKept(i4, i5, r + 40, r + 44, r + 4);
    HalfKept(i3, i4, r + 28, r + 32, r + 26);
    HalfKept(i4, i5, r + 40, r + 44, r + 26);
    WordKept(i4, i5, r + 40, r + 44, r + 28);
  }

  // ----- Free counts

  function Interval(lo: int, n: nat): (t: set<int>)
    ensures forall b :: b in t <==> lo <= b < lo + n
  {
    if n == 0 then {} else Interval(lo, n - 1) + {lo + n - 1}
  }

  lemma {:induction false} BoundedSet(t: set<int>, lo: int, n: nat)
    requires t <= Interval(lo, n)
    ensures |t| <= n
  {
    if n > 0 {
      BoundedSet(t - {lo + n - 1}, lo, n - 1);
    }
  }

  method WriteFree(image: array<Byte>, s: Scale, occupied: set<int>) returns (ghost mid: seq<Byte>)
    requires image.Length == IMAGE_SIZE && forall b :: b in occupied ==> First(s) <= b < Total(s)
    requires Word(image[..], 1040) == 0
    modifies image
    ensures FreeOk(image[..], s, occupied)
    ensures SameOutside(old(image[..]), mid, SUPERBLOCK + 12, SUPERBLOCK + 16)
    ensures SameOutside(mid, image[..], GroupAt(s) + 12, GroupAt(s) + 18)
  {
    assert occupied <= Interval(First(s), Total(s) - First(s));
    BoundedSet(occupied, First(s), Total(s) - First(s));
    var free, at := Total(s) - First(s) - |occupied|, GroupAt(s);
    ghost var i0 := image[..];
    Write32(image, SUPERBLOCK + 12, free);
    ghost var i1 := image[..];
    mid := i1;
    WordKept(i0, i1, SUPERBLOCK + 12, SUPERBLOCK + 16, 1040);
    Write16(image, at + 12, free);
    ghost var i2 := image[..];
    Write16(image, at + 14, 0);
    ghost var i3 := image[..];
    Write16(image, at + 16, 1);
    FreeKept(i1, i2, i3, image[..], at);
  }

  lemma FreeKept(i1: seq<Byte>, i2: seq<Byte>, i3: seq<Byte>, i4: seq<Byte>, at: int)
    requires SameOutside(i1, i2, at + 12, at + 14) && SameOutside(i2, i3, at + 14, at + 16)
    requires SameOutside(i3, i4, at + 16, at + 18) && at >= 2048
    ensures Word(i4, 1036) == Word(i1, 1036) && Word(i4, 1040) == Word(i1, 1040)
    ensures Half(i4, at + 12) == Half(i2, at + 12) && Half(i4, at + 14) == Half(i3, at + 14)
    ensures SameOutside(i1, i4, at + 12, at + 18)
  {
    WordKept(i1, i2, at + 12, at + 14, 1036);
    WordKept(i2, i3, at + 14, at + 16, 1036);
    WordKept(i3, i4, at + 16, at + 18, 1036);
    WordKept(i1, i2, at + 12, at + 14, 1040);
    WordKept(i2, i3, at + 14, at + 16, 1040);
    WordKept(i3, i4, at + 16, at + 18, 1040);
    HalfKept(i2, i3, at + 14, at + 16, at + 12);
    HalfKept(i3, i4, at + 16, at + 18, at + 12);
    HalfKept(i3, i4, at + 16, at + 18, at + 14);
  }

  // ----- The whole image

  predicate InodeBitmapOk(raw: seq<Byte>, s: Scale) {
    Blk(s, 5) <= |raw| && raw[Blk(s, 4)] == 0xFF && raw[Blk(s, 4) + 1] == 0xFF && Zero(raw, Blk(s, 4) + 2, Blk(s, 5))
  }

  /** Superblock, group descriptor, inode bitmap and root inode. */
  predicate Front(raw: seq<Byte>, s: Scale) {
    && |raw| == IMAGE_SIZE && SuperOk(raw, s) && GroupOk(raw, s) && InodeBitmapOk(raw, s) && RootInodeOk(raw, s)
    && Margins(raw, s)
  }

  /** Where later writes go: files and directory, the block bitmap, the free counts. */
  predicate SparesFront(s: Scale, lo: int, hi: int) {
    InodeAt(s, 0) <= lo || (Blk(s, 3) <= lo && hi <= Blk(s, 4)) || (GroupAt(s) + 12 <= lo && hi <= GroupAt(s) + 18)
    || (SUPERBLOCK + 12 <= lo && hi <= SUPERBLOCK + 16)
  }

  lemma SuperStays(a: seq<Byte>, b: seq<Byte>, s: Scale, lo: int, hi: int)
    requires SuperOk(a, s) && SameOutside(a, b, lo, hi) && lo <= hi
    requires SUPERBLOCK + 100 <= lo || (SUPERBLOCK + 12 <= lo && hi <= SUPERBLOCK + 16)
    ensures SuperOk(b, s)
  {
    SuperWordsKept(a, b, s, lo, hi);
    HalfKept(a, b, lo, hi, SUPERBLOCK + 56);
    HalfKept(a, b, lo, hi, SUPERBLOCK + 58);
    HalfKept(a, b, lo, hi, SUPERBLOCK + 88);
  }

  lemma GroupStays(a: seq<Byte>, b: seq<Byte>, s: Scale, lo: int, hi: int)
    requires GroupOk(a, s) && SameOutside(a, b, lo, hi) && (hi <= GroupAt(s) || GroupAt(s) + 12 <= lo)
    ensures GroupOk(b, s)
  {
    WordKept(a, b, lo, hi, GroupAt(s));
    WordKept(a, b, lo, hi, GroupAt(s) + 4);
    WordKept(a, b, lo, hi, GroupAt(s) + 8);
  }

  lemma RootStays(a: seq<Byte>, b: seq<Byte>, s: Scale, lo: int, hi: int)
    requires RootInodeOk(a, s) && SameOutside(a, b, lo, hi) && (hi <= RootInodeAt(s) || RootInodeAt(s) + 44 <= lo)
    ensures RootInodeOk(b, s)
  {
    var r := RootInodeAt(s);
    HalfKept(a, b, lo, hi, r);
    WordKept(a, b, lo, hi, r + 4);
    HalfKept(a, b, lo, hi, r + 26);
    WordKept(a, b, lo, hi, r + 28);
    WordKept(a, b, lo, hi, r + 40);
  }

  lemma FrontKept(a: seq<Byte>, b: seq<Byte>, s: Scale, lo: int, hi: int)
    requires Front(a, s) && SameOutside(a, b, lo, hi) && lo <= hi && SparesFront(s, lo, hi)
    ensures Front(b, s)
  {
    SuperStays(a, b, s, lo, hi);
    GroupStays(a, b, s, lo, hi);
    RootStays(a, b, s, lo, hi);
    MarginsKept(a, b, s, lo, hi);
    ZeroStays(a, b, lo, hi, Blk(s, 4) + 2, Blk(s, 5));
  }

  method WriteInodeBitmap(image: array<Byte>, s: Scale)
    requires image.Length == IMAGE_SIZE && Zero(image[..], Blk(s, 4), Blk(s, 5))
    modifies image
    ensures InodeBitmapOk(image[..], s) && SameOutside(old(image[..]), image[..], Blk(s, 4), Blk(s, 4) + 2)
  {
    Blit(image, Blk(s, 4), [0xFF, 0xFF]);
    assert image[..][Blk(s, 4)..Blk(s, 4) + 2] == [0xFF, 0xFF];
    assert image[..][Blk(s, 4)..Blk(s, 4) + 2][0] == image[Blk(s, 4)];
    assert image[..][Blk(s, 4)..Blk(s, 4) + 2][1] == image[Blk(s, 4) + 1];
  }

  /** Everything that does not depend on the files. */
  method Prepare(image: array<Byte>, s: Scale)
    requires image.Length == IMAGE_SIZE && Zero(image[..], 0, IMAGE_SIZE)
    modifies image
    ensures Front(image[..], s) && Zero(image[..], Blk(s, 3), Blk(s, 4)) && Zero(image[..], InodeAt(s, 0), IMAGE_SIZE)
  {
    WriteSuper(image, s);
    ghost var i1 := image[..];
    WriteGroup(image, s);
    ghost var i2 := image[..];
    SuperStays(i1, i2, s, GroupAt(s), GroupAt(s) + 12);
    MarginsKept(i1, i2, s, GroupAt(s), GroupAt(s) + 12);
    WriteInodeBitmap(image, s);
    ghost var i3 := image[..];
    SuperStays(i2, i3, s, Blk(s, 4), Blk(s, 4) + 2);
    GroupStays(i2, i3, s, Blk(s, 4), Blk(s, 4) + 2);
    MarginsKept(i2, i3, s, Blk(s, 4), Blk(s, 4) + 2);
    WriteRootInode(image, s);
    SuperStays(i3, image[..], s, RootInodeAt(s), RootInodeAt(s) + 44);
    GroupStays(i3, image[..], s, RootInodeAt(s), RootInodeAt(s) + 44);
    ZeroStays(i3, image[..], RootInodeAt(s), RootInodeAt(s) + 44, Blk(s, 4) + 2, Blk(s, 5));
  }

  // ----- Files and directory through the last writes

  ghost predicate FilesDone(raw: seq<Byte>, s: Scale, files: Files) {
    && |raw| == IMAGE_SIZE && |files| == FILE_COUNT
    && forall m {:trigger FileWritten(raw, s, files, m)} :: 0 <= m < FILE_COUNT ==> FileWritten(raw, s, files, m)
  }

  lemma FileUntouched(a: seq<Byte>, b: seq<Byte>, s: Scale, files: Files, m: nat, lo: int, hi: int)
    requires m < |files| == FILE_COUNT && FileWritten(a, s, files, m) && FileFits(s, files, m) && |a| == IMAGE_SIZE
    requires SameOutside(a, b, lo, hi)
    requires hi <= InodeAt(s, 0) || (Blk(s, DIRECTORY_BLOCK) <= lo && hi <= Blk(s, INDIRECT_BLOCK))
    ensures FileWritten(b, s, files, m)
  {
    var n, cursor := |files[m]|, Cursor(s, files, m);
    Untouched(a, b, lo, hi, InodeAt(s, m), InodeAt(s, m) + 128);
    Untouched(a, b, lo, hi, Blk(s, INDIRECT_BLOCK + m), Blk(s, INDIRECT_BLOCK + m + 1));
    Untouched(a, b, lo, hi, Blk(s, cursor), Blk(s, cursor + Count(s, n)));
    FileStays(a, b, s, files, m);
  }

  lemma FilesUntouched(a: seq<Byte>, b: seq<Byte>, s: Scale, files: Files, lo: int, hi: int)
    requires FilesDone(a, s, files) && Fits(s, files) && SameOutside(a, b, lo, hi)
    requires hi <= InodeAt(s, 0) || (Blk(s, DIRECTORY_BLOCK) <= lo && hi <= Blk(s, INDIRECT_BLOCK))
    ensures FilesDone(b, s, files)
  {
    forall m | 0 <= m < FILE_COUNT ensures FileWritten(b, s, files, m) {
      assert FileFits(s, files, m);
      FileUntouched(a, b, s, files, m, lo, hi);
    }
  }

  /** Files, directory, and nothing else behind the inode table. */
  ghost predicate Body(raw: seq<Byte>, s: Scale, files: Files) {
    FilesDone(raw, s, files) && DirectoryWritten(raw, s) && GapsZero(raw, s, files)
  }

  lemma BodyKept(a: seq<Byte>, b: seq<Byte>, s: Scale, files: Files, lo: int, hi: int)
    requires Body(a, s, files) && Fits(s, files) && SameOutside(a, b, lo, hi) && hi <= InodeAt(s, 0)
    ensures Body(b, s, files)
  {
    FilesUntouched(a, b, s, files, lo, hi);
    DirectoryStays(a, b, s, lo, hi);
    ZeroStays(a, b, lo, hi, InodeAt(s, FILE_COUNT), Blk(s, DIRECTORY_BLOCK));
    ZeroStays(a, b, lo, hi, Blk(s, INDIRECT_BLOCK + FILE_COUNT), Blk(s, DATA_BLOCK));
    ZeroStays(a, b, lo, hi, Blk(s, Cursor(s, files, |files|)), |a|);
  }

  lemma MarksKept(a: seq<Byte>, b: seq<Byte>, s: Scale, done: set<int>, lo: int, hi: int)
    requires |a| == IMAGE_SIZE && Marks(a, s, done) && SameOutside(a, b, lo, hi) && hi <= Blk(s, 3)
    ensures Marks(b, s, done)
  {
    forall i | 0 <= i < BlockSize(s) ensures BitmapByteAt(b, s, done, i) {
      assert BitmapByteAt(a, s, done, i);
    }
  }

  lemma UsedInRange(s: Scale, files: Files)
    requires |files| == FILE_COUNT && Fits(s, files)
    ensures forall b :: b in Used(s, Plan(s, files, FILE_COUNT)) ==> First(s) <= b < Total(s)
  {
    PlanIsSeparate(s, files);
    assert forall k :: InMeta(s, k) ==> First(s) <= k < Total(s);
  }

  /** Files and directory of an image whose fixed parts are there. */
  method WriteBody(image: array<Byte>, s: Scale, files: Files) returns (ok: bool, occupied: set<int>)
    requires Admitted(files) && image.Length == IMAGE_SIZE && Front(image[..], s)
    requires Zero(image[..], Blk(s, 3), Blk(s, 4)) && Zero(image[..], InodeAt(s, 0), IMAGE_SIZE)
    modifies image
    ensures ok <==> Fits(s, files)
    ensures ok ==> Front(image[..], s) && Zero(image[..], Blk(s, 3), Blk(s, 4)) && Body(image[..], s, files)
    ensures ok ==> occupied == Used(s, Plan(s, files, FILE_COUNT))
  {
    ghost var i0 := image[..];
    ok, occupied := WriteFiles(image, s, files);
    if !ok { return; }
    ghost var i1 := image[..];
    AfterFiles(i0, i1, s);
    WriteDirectory(image, s);
    AfterDirectory(i1, image[..], s, files);
  }

  lemma AfterFiles(a: seq<Byte>, b: seq<Byte>, s: Scale)
    requires Front(a, s) && Zero(a, Blk(s, 3), Blk(s, 4)) && Zero(a, InodeAt(s, 0), IMAGE_SIZE) && Aside(a, b, s)
    ensures Front(b, s) && Zero(b, Blk(s, 3), Blk(s, 4)) && Zero(b, InodeAt(s, FILE_COUNT), Blk(s, INDIRECT_BLOCK))
    ensures Zero(b, Blk(s, INDIRECT_BLOCK + FILE_COUNT), Blk(s, DATA_BLOCK))
  {
    FrontKept(a, b, s, InodeAt(s, 0), IMAGE_SIZE);
  }

  lemma AfterDirectory(a: seq<Byte>, b: seq<Byte>, s: Scale, files: Files)
    requires |files| == FILE_COUNT && Front(a, s) && Zero(a, Blk(s, 3), Blk(s, 4)) && Fits(s, files)
    requires FilesSoFar(a, s, files, FILE_COUNT)
    requires Zero(a, InodeAt(s, FILE_COUNT), Blk(s, INDIRECT_BLOCK))
    requires Zero(a, Blk(s, INDIRECT_BLOCK + FILE_COUNT), Blk(s, DATA_BLOCK))
    requires SameOutside(a, b, Blk(s, DIRECTORY_BLOCK), Blk(s, DIRECTORY_BLOCK + 1))
    ensures Front(b, s) && Zero(b, Blk(s, 3), Blk(s, 4)) && FilesDone(b, s, files) && GapsZero(b, s, files)
  {
    var lo, hi := Blk(s, DIRECTORY_BLOCK), Blk(s, DIRECTORY_BLOCK + 1);
    FrontKept(a, b, s, lo, hi);
    FilesUntouched(a, b, s, files, lo, hi);
    ZeroStays(a, b, lo, hi, Blk(s, 3), Blk(s, 4));
    ZeroStays(a, b, lo, hi, InodeAt(s, FILE_COUNT), lo);
    ZeroStays(a, b, lo, hi, Blk(s, INDIRECT_BLOCK + FILE_COUNT), Blk(s, DATA_BLOCK));
    CursorGrows(s, files, 0, FILE_COUNT);
    ZeroStays(a, b, lo, hi, Blk(s, Cursor(s, files, FILE_COUNT)), |a|);
  }

  /** Block bitmap and free counts. */
  method WriteAccounts(image: array<Byte>, s: Scale, files: Files, occupied: set<int>)
    requires image.Length == IMAGE_SIZE && |files| == FILE_COUNT && Fits(s, files) && Front(image[..], s)
    requires Zero(image[..], Blk(s, 3), Blk(s, 4)) && Body(image[..], s, files)
    requires occupied == Used(s, Plan(s, files, FILE_COUNT))
    modifies image
    ensures Front(image[..], s) && Body(image[..], s, files)
    ensures Marks(image[..], s, occupied) && FreeOk(image[..], s, occupied)
  {
    UsedInRange(s, files);
    ghost var i0 := image[..];
    WriteBitmap(image, s, occupied);
    ghost var i1 := image[..];
    FrontKept(i0, i1, s, Blk(s, 3), Blk(s, 4));
    BodyKept(i0, i1, s, files, Blk(s, 3), Blk(s, 4));
    HeaderFrom(i1, s);
    ghost var mid := WriteFree(image, s, occupied);
    FrontKept(i1, mid, s, SUPERBLOCK + 12, SUPERBLOCK + 16);
    BodyKept(i1, mid, s, files, SUPERBLOCK + 12, SUPERBLOCK + 16);
    MarksKept(i1, mid, s, occupied, SUPERBLOCK + 12, SUPERBLOCK + 16);
    FrontKept(mid, image[..], s, GroupAt(s) + 12, GroupAt(s) + 18);
    BodyKept(mid, image[..], s, files, GroupAt(s) + 12, GroupAt(s) + 18);
    MarksKept(mid, image[..], s, occupied, GroupAt(s) + 12, GroupAt(s) + 18);
  }

  lemma AllWritten(raw: seq<Byte>, s: Scale, files: Files)
    requires Front(raw, s) && Body(raw, s, files)
    requires Marks(raw, s, Used(s, Plan(s, files, FILE_COUNT))) && FreeOk(raw, s, Used(s, Plan(s, files, FILE_COUNT)))
    ensures Written(raw, s, files)
  {
    HeaderFrom(raw, s);
    DirectoryParses(raw, s);
  }

  /** Returns an image exactly when all files fit: the one laid out above, which the independent checker accepts. */
  method WriteImage(s: Scale, files: Files) returns (ok: bool, raw: seq<Byte>)
    ensures ok <==> Admitted(files) && Fits(s, files)
    ensures ok ==> Accepted(raw, s, files) && Written(raw, s, files)
  {
    ok, raw := false, [];
    if !Admitted(files) { return; }
    var image := new Byte[IMAGE_SIZE](_ => 0);
    Prepare(image, s);
    var occupied;
    ok, occupied := WriteBody(image, s, files);
    if !ok { return; }
    WriteAccounts(image, s, files, occupied);
    raw := image[..];
    AllWritten(raw, s, files);
    WrittenIsAccepted(raw, s, files);
  }
}
