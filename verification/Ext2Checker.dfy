/** The independent checker of generated EXT2 media. */
module Ext2Checker {
  import opened Bytes
  import opened Ext2Format

  method AllZero(raw: seq<Byte>, lo: int, hi: int) returns (ok: bool)
    ensures ok <==> Zero(raw, lo, hi)
  {
    if lo < 0 || hi > |raw| { return false; }
    var k := lo;
    while k < hi
      invariant lo <= k && (k <= hi || k == lo) && forall j :: lo <= j < k ==> raw[j] == 0
    {
      if raw[k] != 0 { return false; }
      k := k + 1;
    }
    ok := true;
  }

  function Prepended(list: seq<Record>, rest: Option<seq<Record>>): Option<seq<Record>> {
    match rest
    case None => None
    case Some(more) => Some(list + more)
  }

  lemma ParseOne(raw: seq<Byte>, pos: int, end: int, list: seq<Record>)
    requires pos < end && RecordGood(raw, pos, end)
    ensures Prepended(list, Parse(raw, pos, end)) ==
            Prepended(list + [RecordAt(raw, pos, end)], Parse(raw, pos + U16(raw, pos + 4), end))
  {
    match Parse(raw, pos + U16(raw, pos + 4), end)
    case None =>
    case Some(rest) =>
      assert list + ([RecordAt(raw, pos, end)] + rest) == (list + [RecordAt(raw, pos, end)]) + rest;
  }

  lemma PrependNothing(rest: Option<seq<Record>>, list: seq<Record>)
    ensures Prepended([], rest) == rest && Prepended(list, Some([])) == Some(list)
  {
    if rest.Some? {
      assert [] + rest.value == rest.value;
    }
    assert list + [] == list;
  }

  /** Reads the directory block record by record. */
  method ReadDirectory(raw: seq<Byte>, pos0: int, end: int) returns (entries: Option<seq<Record>>)
    ensures entries == Parse(raw, pos0, end)
  {
    var pos, list := pos0, [];
    PrependNothing(Parse(raw, pos0, end), list);
    while pos < end
      invariant Parse(raw, pos0, end) == Prepended(list, Parse(raw, pos, end))
      decreases end - pos
    {
      if !RecordGood(raw, pos, end) { return None; }
      var length := U16(raw, pos + 4);
      ghost var before, after := Parse(raw, pos, end), Parse(raw, pos + length, end);
      assert Prepended(list, before) == Prepended(list + [RecordAt(raw, pos, end)], after) by {
        ParseOne(raw, pos, end, list);
      }
      list := list + [RecordAt(raw, pos, end)];
      pos := pos + length;
    }
    PrependNothing(None, list);
    entries := Some(list);
  }

  /** The blocks taken so far are behind the inode table, none twice, and all known as used. */
  ghost predicate Taken(s: Scale, blocks: seq<int>, used: set<int>) {
    Separate(s, blocks) && used == Used(s, blocks)
  }

  /** Takes one more block; refuses one that is out of range or taken. */
  method Own(s: Scale, used: set<int>, block: int, ghost blocks: seq<int>) returns (ok: bool, used': set<int>)
    requires Taken(s, blocks, used)
    ensures ok <==> Separate(s, blocks + [block])
    ensures ok ==> Taken(s, blocks + [block], used')
  {
    ok, used' := First(s) <= block < Total(s) && block !in used, used;
    assert (blocks + [block])[|blocks|] == block;
    if ok {
      used' := used + {block};
      assert Used(s, blocks + [block]) == Used(s, blocks) + {block};
    } else if First(s) <= block < Total(s) && block !in Meta(s) {
      ghost var k :| 0 <= k < |blocks| && blocks[k] == block;
      assert (blocks + [block])[k] == block;
    }
  }

  lemma SeparatePrefix(s: Scale, a: seq<int>, b: seq<int>)
    requires Separate(s, a + b)
    ensures Separate(s, a)
  {
    assert forall k :: 0 <= k < |a| ==> a[k] == (a + b)[k];
  }

  /** Takes the data blocks of a file and collects their bytes. */
  method ReadBlocks(raw: seq<Byte>, s: Scale, i: int, count: nat, used: set<int>, ghost before: seq<int>)
    returns (ok: bool, used': set<int>, content: seq<Byte>)
    requires |raw| == IMAGE_SIZE && Taken(s, before, used)
    ensures ok <==> Separate(s, before + Pointers(raw, s, i, count))
    ensures ok ==> Taken(s, before + Pointers(raw, s, i, count), used')
    ensures ok ==> content == Content(raw, s, Pointers(raw, s, i, count))
  {
    var k := 0;
    used', content := used, [];
    assert before + [] == before;
    while k < count
      invariant 0 <= k <= count && content == Content(raw, s, Pointers(raw, s, i, k))
      invariant Taken(s, before + Pointers(raw, s, i, k), used')
    {
      ghost var blocks := before + Pointers(raw, s, i, k);
      var block := Pointer(raw, s, i, k);
      NextPointer(raw, s, i, before, k);
      ok, used' := Own(s, used', block, blocks);
      if !ok {
        NotSeparateLater(raw, s, i, before, k + 1, count);
        return;
      }
      ContentAppends(raw, s, Pointers(raw, s, i, k), block);
      content := content + BlockBytes(raw, s, block);
      k := k + 1;
    }
    ok := true;
  }

  lemma ContentAppends(raw: seq<Byte>, s: Scale, blocks: seq<int>, block: int)
    ensures Content(raw, s, blocks + [block]) == Content(raw, s, blocks) + BlockBytes(raw, s, block)
  {
    JoinedPrefix(BlockParts(raw, s, blocks), BlockParts(raw, s, blocks + [block]), |blocks|);
  }

  lemma NextPointer(raw: seq<Byte>, s: Scale, i: int, before: seq<int>, k: nat)
    ensures before + Pointers(raw, s, i, k + 1) == before + Pointers(raw, s, i, k) + [Pointer(raw, s, i, k)]
  {
  }

  lemma {:induction false} NotSeparateLater(raw: seq<Byte>, s: Scale, i: int, before: seq<int>, k: nat, count: nat)
    requires k <= count && !Separate(s, before + Pointers(raw, s, i, k))
    ensures !Separate(s, before + Pointers(raw, s, i, count))
  {
    if k < count {
      NotSeparateLater(raw, s, i, before, k, count - 1);
      var p := before + Pointers(raw, s, i, count - 1);
      NextPointer(raw, s, i, before, count - 1);
      if Separate(s, before + Pointers(raw, s, i, count)) {
        SeparatePrefix(s, p, [Pointer(raw, s, i, count - 1)]);
      }
    }
  }

  // ----- One file

  /** Inode, pointers, ownership and contents of file i. */
  method CheckFile(raw: seq<Byte>, s: Scale, i: int, file: seq<Byte>, used: set<int>, ghost before: seq<int>)
    returns (ok: bool, used': set<int>)
    requires |raw| == IMAGE_SIZE && Taken(s, before, used)
    ensures ok <==> InodeOk(raw, s, i, |file|) && PointersClean(raw, s, i, |file|) && ContentOk(raw, s, i, file)
                    && Separate(s, before + OwnedBy(raw, s, i, |file|))
    ensures ok ==> Taken(s, before + OwnedBy(raw, s, i, |file|), used')
  {
    ok, used' := InodeOk(raw, s, i, |file|), used;
    if !ok { return; }
    var count := Count(s, |file|);
    ghost var blocks := before;
    assert before + OwnedBy(raw, s, i, |file|) ==
           before + (if count > DIRECT then [IndirectOf(raw, s, i)] else []) + Pointers(raw, s, i, count);
    if count > DIRECT {
      ok, used' := Own(s, used, IndirectOf(raw, s, i), before);
      blocks := before + [IndirectOf(raw, s, i)];
      if !ok {
        if Separate(s, before + OwnedBy(raw, s, i, |file|)) {
          SeparatePrefix(s, blocks, Pointers(raw, s, i, count));
        }
        return;
      }
    } else {
      assert before + [] == before;
    }
    ok := PointersClean(raw, s, i, |file|);
    if !ok { return; }
    var content;
    ok, used', content := ReadBlocks(raw, s, i, count, used', blocks);
    ok := ok && |file| <= |content| && content[..|file|] == file && Zero(content, |file|, |content|);
  }

  // ----- The whole image

  /** The bitmap the checker computes, byte by byte. */
  method CheckBitmap(raw: seq<Byte>, s: Scale, used: set<int>) returns (ok: bool)
    requires |raw| == IMAGE_SIZE
    ensures ok <==> BitmapsOk(raw, s, used)
  {
    var i := 0;
    while i < BlockSize(s)
      invariant 0 <= i <= BlockSize(s) && forall j :: 0 <= j < i ==> BitmapByteAt(raw, s, used, j)
    {
      if !BitmapByteAt(raw, s, used, i) { return false; }
      i := i + 1;
    }
    ok := AllZero(raw, Blk(s, 4) + 2, Blk(s, 5));
    ok := ok && raw[Blk(s, 4)] == 0xFF && raw[Blk(s, 4) + 1] == 0xFF;
  }

  method CheckUnused(raw: seq<Byte>, s: Scale, used: set<int>) returns (ok: bool)
    ensures ok <==> UnusedZero(raw, s, used)
  {
    var block := First(s);
    while block < Total(s)
      invariant First(s) <= block <= Total(s)
      invariant forall b :: First(s) <= b < block && b !in used ==> Zero(raw, Blk(s, b), Blk(s, b + 1))
    {
      if block !in used {
        ok := AllZero(raw, Blk(s, block), Blk(s, block + 1));
        if !ok { return; }
      }
      block := block + 1;
    }
    ok := true;
  }

  lemma {:induction false} OwnedGrows(raw: seq<Byte>, s: Scale, files: Files, m: nat, n: nat)
    requires m <= n <= |files| && Separate(s, Owned(raw, s, files, n))
    ensures Separate(s, Owned(raw, s, files, m))
  {
    if m < n {
      SeparatePrefix(s, Owned(raw, s, files, n - 1), OwnedBy(raw, s, n - 1, |files[n - 1]|));
      OwnedGrows(raw, s, files, m, n - 1);
    }
  }

  /** The directory block can always be taken first. */
  method OwnDirectory(s: Scale) returns (used: set<int>)
    ensures Taken(s, [DIRECTORY_BLOCK], used)
  {
    var ok;
    ok, used := Own(s, Meta(s), DIRECTORY_BLOCK, []);
    assert [] + [DIRECTORY_BLOCK] == [DIRECTORY_BLOCK];
    assert ok;
  }

  lemma FileRefused(raw: seq<Byte>, s: Scale, files: Files, i: nat)
    requires i < FILE_COUNT == |files| && !(FileOk(raw, s, files, i) && Separate(s, Owned(raw, s, files, i + 1)))
    ensures !(FilesOk(raw, s, files, FILE_COUNT) && Separate(s, Owned(raw, s, files, FILE_COUNT)))
  {
    if Separate(s, Owned(raw, s, files, FILE_COUNT)) {
      OwnedGrows(raw, s, files, i + 1, FILE_COUNT);
    }
  }

  method CheckNext(raw: seq<Byte>, s: Scale, files: Files, i: nat, used: set<int>) returns (ok: bool, used': set<int>)
    requires |raw| == IMAGE_SIZE && i < |files| && Taken(s, Owned(raw, s, files, i), used)
    ensures ok <==> FileOk(raw, s, files, i) && Separate(s, Owned(raw, s, files, i + 1))
    ensures ok ==> Taken(s, Owned(raw, s, files, i + 1), used')
  {
    ok, used' := CheckFile(raw, s, i, files[i], used, Owned(raw, s, files, i));
  }

  lemma OneMoreFile(raw: seq<Byte>, s: Scale, files: Files, i: nat)
    requires i < |files| && FilesOk(raw, s, files, i) && FileOk(raw, s, files, i)
    ensures FilesOk(raw, s, files, i + 1)
  {
  }

  /** All files, in order. */
  method CheckFiles(raw: seq<Byte>, s: Scale, files: Files) returns (ok: bool, used: set<int>)
    requires |raw| == IMAGE_SIZE && |files| == FILE_COUNT
    ensures ok <==> FilesOk(raw, s, files, FILE_COUNT) && Separate(s, Owned(raw, s, files, FILE_COUNT))
    ensures ok ==> used == Used(s, Owned(raw, s, files, FILE_COUNT))
  {
    used := OwnDirectory(s);
    ok := true;
    var i := 0;
    while i < FILE_COUNT
      invariant 0 <= i <= FILE_COUNT && ok && FilesOk(raw, s, files, i) && Taken(s, Owned(raw, s, files, i), used)
    {
      ok, used := CheckNext(raw, s, files, i, used);
      if !ok {
        FileRefused(raw, s, files, i);
        return;
      }
      OneMoreFile(raw, s, files, i);
      i := i + 1;
    }
  }

  /** Accepts exactly the images of these files in this layout. */
  method Verify(raw: seq<Byte>, s: Scale, files: Files) returns (ok: bool)
    ensures ok <==> Accepted(raw, s, files)
  {
    if !Admitted(files) || |raw| != IMAGE_SIZE || !HeaderOk(raw, s) || !RootInodeOk(raw, s) { return false; }
    var entries := ReadDirectory(raw, Blk(s, DIRECTORY_BLOCK), Blk(s, DIRECTORY_BLOCK + 1));
    if entries != Some(RECORDS) { return false; }
    var used;
    ok, used := CheckFiles(raw, s, files);
    if !ok { return; }
    ok := CheckBitmap(raw, s, used);
    if !ok { return; }
    ok := CheckUnused(raw, s, used);
    ok := ok && FreeOk(raw, s, used);
  }
}
