/** The kernel heap as a state machine over frames, memory, blocks and arenas. */
module HeapSpec {
  import opened Machine
  import opened Numbers
  import opened FrameSpec
  import opened Blocks
  import opened Canonical

  type Word = w: int | 0 <= w <= U32_MAX

  /**
   * Sixteen bytes of memory as four words. The words of a block header are its
   * payload size in bytes, the address of the next header, a magic number and
   * the free flag; those of a payload granule belong to the client.
   */
  datatype Granule = Granule(size: Word, next: Word, magic: Word, free: Word)

  const GRANULE := 16
  const GRANULES := 0x400_0000
  const FRAME_GRANULES := 256
  const BLOCK_MAGIC := 0x4B48_4541
  const MIN_ALLOCATION := 16
  const HEAP_GROW_CHUNK := 0x4_0000

  /** A contiguous range of granules given to the heap. */
  datatype Arena = Arena(lo: int, hi: int)

  ghost predicate InArena(a: Arena, g: int) { a.lo <= g < a.hi }

  ghost predicate InArenas(arenas: seq<Arena>, g: int) {
    exists i :: 0 <= i < |arenas| && InArena(arenas[i], g)
  }

  function ArenaMass(arenas: seq<Arena>, n: nat): int
    requires n <= |arenas|
  {
    if n == 0 then 0 else ArenaMass(arenas, n - 1) + arenas[n - 1].hi - arenas[n - 1].lo
  }

  /** The address word stored in header i: that of the next header, 0 at the end. */
  function NextOf(bs: seq<Block>, i: int): int {
    if 0 <= i + 1 < |bs| then GRANULE * bs[i + 1].at else 0
  }

  /** The header of block i as it stands in memory. */
  ghost predicate HeaderAt(mem: seq<Granule>, bs: seq<Block>, i: int) {
    0 <= i < |bs| ==>
      && 0 < bs[i].at < bs[i].End() <= |mem|
      && var h := mem[bs[i].at];
         && h.size == GRANULE * bs[i].size && h.next == NextOf(bs, i)
         && h.magic == BLOCK_MAGIC && h.free == if bs[i].free then 1 else 0
  }

  ghost predicate Linked(mem: seq<Granule>, bs: seq<Block>) {
    forall i :: HeaderAt(mem, bs, i)
  }

  /** No granule of a live payload differs between the two memories. */
  ghost predicate Kept(mem: seq<Granule>, mem': seq<Granule>, live: set<Block>) {
    && |mem'| == |mem|
    && forall b, g {:trigger b in live, mem'[g]} :: b in live && b.at < g < b.End() && 0 <= g < |mem|
         ==> mem'[g] == mem[g]
  }

  /** No granule outside the arenas differs between the two memories. */
  ghost predicate Confined(arenas: seq<Arena>, mem: seq<Granule>, mem': seq<Granule>) {
    && |mem'| == |mem|
    && forall g {:trigger InArenas(arenas, g), mem'[g]} :: 0 <= g < |mem| && !InArenas(arenas, g) ==> mem'[g] == mem[g]
  }

  /** The memories agree except possibly at two granules. */
  ghost predicate SameBut(mem: seq<Granule>, mem': seq<Granule>, p: int, q: int) {
    && |mem'| == |mem|
    && forall g :: 0 <= g < |mem| && g != p && g != q ==> mem'[g] == mem[g]
  }

  /** The header of the block before position i; the given address if there is none. */
  function HeaderBefore(bs: seq<Block>, i: int, at: int): int { if 0 < i <= |bs| then bs[i - 1].at else at }

  /** Where cutting the block to n granules writes a second header; its own address if it is not cut. */
  function RestAt(b: Block, n: int): int { if b.size - n < 2 then b.at else b.at + 1 + n }

  /** No heap granule lies in a frame that the frame allocator could hand out or take back. */
  ghost predicate Secured(kinds: seq<Kind>, f: int) {
    0 <= f && (f < |kinds| ==> kinds[f] == Reserved || kinds[f] == Unmanaged)
  }

  ghost predicate Guarded(kinds: seq<Kind>, arenas: seq<Arena>) {
    forall g {:trigger InArenas(arenas, g)} :: InArenas(arenas, g) ==> Secured(kinds, g / FRAME_GRANULES)
  }

  predicate Apart(arenas: seq<Arena>, i: int, j: int) {
    0 <= i < j < |arenas| ==> arenas[i].hi <= arenas[j].lo || arenas[j].hi <= arenas[i].lo
  }

  /** The arenas are nonempty and pairwise disjoint. */
  ghost predicate ArenasApart(arenas: seq<Arena>) {
    && (forall i :: 0 <= i < |arenas| ==> arenas[i].lo < arenas[i].hi)
    && (forall i, j :: Apart(arenas, i, j))
  }

  /** The blocks, headers included, are exactly the granules of the arenas. */
  ghost predicate Tiled(bs: seq<Block>, arenas: seq<Arena>) {
    && (forall g :: Covers(bs, g) <==> InArenas(arenas, g))
    && Mass(bs) == ArenaMass(arenas, |arenas|)
  }

  datatype Kernel = Kernel(
    frames: FrameState,
    mem: seq<Granule>,
    blocks: seq<Block>,
    arenas: seq<Arena>,
    peak: int,
    failures: int)
  {
    function Used(): int { GRANULE * Payload(blocks, false) }

    function Failed(): Kernel {
      this.(failures := if failures == U64_MAX then U64_MAX else failures + 1)
    }

    ghost predicate Inv() {
      && frames.Wf()
      && |mem| == GRANULES && Normal(blocks) && Linked(mem, blocks)
      && Tiled(blocks, arenas) && ArenasApart(arenas) && Guarded(frames.kinds, arenas)
      && Used() <= peak && 0 <= failures <= U64_MAX
      && (!frames.ready ==> blocks == [] && arenas == [])
    }
  }

  /** The payload address in bytes of the block with the given header granule. */
  function PayloadAddress(at: int): int { GRANULE * (at + 1) }

  ghost predicate Fits(b: Block, n: int) { b.free && b.size >= n }

  ghost predicate NoFit(bs: seq<Block>, n: int) {
    forall i :: 0 <= i < |bs| ==> !Fits(bs[i], n)
  }

  /** The fitting block of lowest address. */
  ghost predicate FirstFit(bs: seq<Block>, n: int, i: int) {
    0 <= i < |bs| && Fits(bs[i], n) && forall j :: 0 <= j < i ==> !Fits(bs[j], n)
  }

  /**
   * Same frames and arenas, and the given blocks live: this fixes the block list
   * (CanonicalForm). No live payload changes, and nothing outside the arenas.
   */
  ghost predicate Relisted(k: Kernel, k': Kernel, live: set<Block>) {
    && k'.frames == k.frames && k'.arenas == k.arenas && k'.failures == k.failures
    && Live(k'.blocks) == live && Kept(k.mem, k'.mem, Live(k.blocks)) && Confined(k.arenas, k.mem, k'.mem)
  }

  /** An allocation of n granules: a part of the first fitting block becomes live. */
  ghost predicate TakeStep(k: Kernel, n: int, k': Kernel, r: int) {
    exists i :: FirstFit(k.blocks, n, i) && Carved(k, k.blocks[i], n, k') && r == PayloadAddress(k.blocks[i].at)
  }

  ghost predicate Carved(k: Kernel, b: Block, n: int, k': Kernel) {
    Relisted(k, k', Live(k.blocks) + {Portion(b, n)}) && k'.peak == Max(k.peak, k'.Used())
  }

  /** Bytes of the arena requested for n granules, rounded to whole frames. */
  function ArenaBytes(n: int): int { AlignUp(Max(GRANULE * n + GRANULE, HEAP_GROW_CHUNK), FRAME_SIZE) }

  predicate ArenaOverflows(n: int) {
    Max(GRANULE * n + GRANULE, HEAP_GROW_CHUNK) > U32_MAX - (FRAME_SIZE - 1)
  }

  /** One more arena made of n frames from frame r on, and no other change in what is live. */
  ghost predicate Adopted(k: Kernel, r: int, n: int, k': Kernel) {
    && k'.arenas == k.arenas + [Arena(FRAME_GRANULES * r, FRAME_GRANULES * (r + n))]
    && k'.peak == k.peak && k'.failures == k.failures
    && Live(k'.blocks) == Live(k.blocks) && Kept(k.mem, k'.mem, Live(k.blocks)) && Confined(k'.arenas, k.mem, k'.mem)
  }

  /** Growth by one pinned arena; it fails exactly when the size overflows or no run of frames is found. */
  ghost predicate ExtendStep(k: Kernel, n: int, k': Kernel, ok: bool) {
    if ArenaOverflows(n) then
      k' == k && !ok
    else
      var bytes := ArenaBytes(n);
      exists address :: PinStep(k.frames, bytes / FRAME_SIZE, k'.frames, address)
        && ok == (address != 0)
        && if ok then Adopted(k, address / FRAME_SIZE, bytes / FRAME_SIZE, k') else k' == k.(frames := k'.frames)
  }

  function Granules(size: int): int { AlignUp(size, GRANULE) / GRANULE }

  /** One allocation call of the heap. */
  ghost predicate MallocStep(k: Kernel, size: int, k': Kernel, r: int) {
    if !k.frames.ready || size == 0 || size > U32_MAX - (GRANULE - 1) then
      k' == k && r == 0
    else
      var n := Granules(size);
      if !NoFit(k.blocks, n) then
        TakeStep(k, n, k', r)
      else
        exists m: Kernel, ok :: m.Inv() && ExtendStep(k, n, m, ok)
          && if ok then TakeStep(m, n, k', r) else k' == m.Failed() && r == 0
  }

  ghost predicate LiveAddress(bs: seq<Block>, ptr: int, i: int) {
    0 <= i < |bs| && !bs[i].free && PayloadAddress(bs[i].at) == ptr
  }

  ghost predicate NoLiveAddress(bs: seq<Block>, ptr: int) {
    forall i :: !LiveAddress(bs, ptr, i)
  }

  /** One release call: any pointer that is not a live payload address changes nothing. */
  ghost predicate KFreeStep(k: Kernel, ptr: int, k': Kernel) {
    if NoLiveAddress(k.blocks, ptr) then
      k' == k
    else
      exists i :: LiveAddress(k.blocks, ptr, i)
        && Relisted(k, k', Live(k.blocks) - {k.blocks[i]}) && k'.peak == k.peak
  }

  /** What the locked part of a reallocation found: no such block, large enough, grown in place, or to be moved. */
  datatype Verdict = Missing | Stays | Grown | Moves(size: int)

  /** The free block after block i makes it large enough. */
  predicate Growable(bs: seq<Block>, i: int, n: int)
    requires 0 <= i < |bs|
  {
    MergesNext(bs, i) && bs[i].size + 1 + bs[i + 1].size >= n
  }

  /** Block i together with the block after it. */
  function Joined(bs: seq<Block>, i: int): Block
    requires 0 <= i && i + 1 < |bs|
  {
    Block(bs[i].at, bs[i].size + 1 + bs[i + 1].size, bs[i].free)
  }

  ghost predicate ReallocStep(k: Kernel, ptr: int, n: int, k': Kernel, v: Verdict) {
    if NoLiveAddress(k.blocks, ptr) then
      k' == k && v == Missing
    else
      exists i :: LiveAddress(k.blocks, ptr, i)
        && if n <= k.blocks[i].size then
             k' == k && v == Stays
           else if Growable(k.blocks, i, n) then
             && v == Grown
             && Relisted(k, k', Live(k.blocks) - {k.blocks[i]} + {Portion(Joined(k.blocks, i), n)})
             && k'.peak == Max(k.peak, k'.Used())
           else
             k' == k && v == Moves(k.blocks[i].size)
  }

  /** memcpy between two payloads: count granules from src to dst, nothing else. */
  ghost predicate CopyStep(k: Kernel, dst: int, src: int, count: int, k': Kernel) {
    && k' == k.(mem := k'.mem) && |k'.mem| == |k.mem|
    && 0 <= count && 0 <= src && 0 <= dst && src + count <= |k.mem| && dst + count <= |k.mem|
    && (forall g :: dst <= g < dst + count ==> k'.mem[g] == k.mem[src + g - dst])
    && (forall g :: 0 <= g < |k.mem| && !(dst <= g < dst + count) ==> k'.mem[g] == k.mem[g])
  }

  /** A whole reallocation call with no other call in between. */
  ghost predicate KReallocStep(k: Kernel, ptr: int, size: int, k': Kernel, r: int) {
    if ptr == 0 then MallocStep(k, size, k', r)
    else if size == 0 then KFreeStep(k, ptr, k') && r == 0
    else if size > U32_MAX - (GRANULE - 1) then k' == k && r == 0
    else ResizeStep(k, ptr, Granules(size), k', r)
  }

  ghost predicate ResizeStep(k: Kernel, ptr: int, n: int, k': Kernel, r: int) {
    exists m: Kernel, v :: m.Inv() && ReallocStep(k, ptr, n, m, v) && Settled(m, v, ptr, n, k', r)
  }

  /** What follows the locked part of a reallocation. */
  ghost predicate Settled(m: Kernel, v: Verdict, ptr: int, n: int, k': Kernel, r: int) {
    match v
    case Missing => k' == m && r == 0
    case Stays => k' == m && r == ptr
    case Grown => k' == m && r == ptr
    case Moves(kept) => MoveStep(m, ptr, kept, GRANULE * n, k', r)
  }

  /** The move path: allocate, copy the old payload, release the old block. */
  ghost predicate MoveStep(k: Kernel, ptr: int, count: int, size: int, k': Kernel, r: int) {
    exists m1: Kernel :: m1.Inv() && MallocStep(k, size, m1, r)
      && if r == 0 then k' == m1
         else exists m2: Kernel :: m2.Inv() && CopyStep(m1, r / GRANULE, ptr / GRANULE, count, m2) && KFreeStep(m2, ptr, k')
  }
}
