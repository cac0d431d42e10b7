/** Packed 12-bit FAT entries and the cluster chains they form. */
module Fat12 {
  import opened Bytes
  import opened Numbers

  const ENTRY_LIMIT := 0x1000
  const END_OF_CHAIN := 0xFFF

  /** The first of the two bytes an entry lies in. */
  function OffsetOf(cluster: nat): nat { cluster + cluster / 2 }

  predicate InTable(fat: seq<Byte>, cluster: int) { 0 <= cluster && OffsetOf(cluster) + 1 < |fat| }

  /** The 12-bit entry of a cluster, as a FAT reader decodes it. */
  function EntryAt(fat: seq<Byte>, cluster: nat): (value: int)
    requires InTable(fat, cluster)
    ensures 0 <= value < ENTRY_LIMIT
  {
    var pair := U16(fat, OffsetOf(cluster));
    if cluster % 2 == 1 then pair / 0x10 else pair % 0x1000
  }

  /** The bytes of an entry's pair after storing a value; nibble masks and shifts written as arithmetic. */
  function StoredPair(low: Byte, high: Byte, odd: bool, value: nat): (pair: (Byte, Byte))
    requires value < ENTRY_LIMIT
  {
    if odd then ((low as int) % 0x10 + value % 0x10 * 0x10, value / 0x10)
    else (value % 0x100, (high as int) / 0x10 * 0x10 + value / 0x100)
  }

  /** Storing sets this entry and keeps the nibble that belongs to the neighbour. */
  lemma PairReads(low: Byte, high: Byte, odd: bool, value: nat)
    requires value < ENTRY_LIMIT
    ensures var pair := StoredPair(low, high, odd, value); var word := (pair.0 as int) + 0x100 * (pair.1 as int);
      if odd then word / 0x10 == value && (pair.0 as int) % 0x10 == (low as int) % 0x10
      else word % 0x1000 == value && (pair.1 as int) / 0x10 == (high as int) / 0x10
  {
  }

  // ----- The entries as bits

  /** Bit k of a number, the least significant one first. */
  function Bit(value: nat, k: nat): nat { if k == 0 then value % 2 else Bit(value / 2, k - 1) }

  /** Bit k of the table, which is one string of bits. */
  function TableBit(fat: seq<Byte>, k: nat): nat
    requires k / 8 < |fat|
  {
    Bit(fat[k / 8], k % 8)
  }

  lemma {:induction false} BitOfSum(low: nat, high: nat, width: nat, k: nat)
    requires low < Power(width)
    ensures Bit(low + Power(width) * high, k) == if k < width then Bit(low, k) else Bit(high, k - width)
    decreases width
  {
    if width > 0 {
      var p := Power(width - 1);
      HalfOfSum(low, high, p);
      if k > 0 {
        BitOfSum(low / 2, high, width - 1, k - 1);
      }
    }
  }

  function Power(n: nat): (p: nat)
    ensures p > 0
  {
    if n == 0 then 1 else 2 * Power(n - 1)
  }

  lemma HalfOfSum(low: nat, high: nat, p: nat)
    requires low < 2 * p
    ensures (low + 2 * p * high) / 2 == low / 2 + p * high && (low + 2 * p * high) % 2 == low % 2 && low / 2 < p
  {
    assert low + 2 * p * high == 2 * (low / 2 + p * high) + low % 2;
  }

  lemma Powers()
    ensures Power(4) == 0x10 && Power(8) == 0x100
  {
    assert Power(8) == 2 * Power(7) && Power(7) == 2 * Power(6) && Power(6) == 2 * Power(5) && Power(5) == 2 * Power(4);
    assert Power(4) == 2 * Power(3) && Power(3) == 2 * Power(2);
  }

  lemma OddBits(low: nat, high: nat, k: nat)
    requires low < 0x100 && high < 0x100 && k < 12
    ensures Bit((low + 0x100 * high) / 0x10, k) == if k < 4 then Bit(low, k + 4) else Bit(high, k - 4)
  {
    Powers();
    OddEntry(low, high);
    BitOfSum(low / 0x10, high, 4, k);
    BitOfSum(low % 0x10, low / 0x10, 4, k + 4);
  }

  lemma EvenBits(low: nat, high: nat, k: nat)
    requires low < 0x100 && high < 0x100 && k < 12
    ensures Bit((low + 0x100 * high) % 0x1000, k) == if k < 8 then Bit(low, k) else Bit(high, k - 8)
  {
    Powers();
    EvenEntry(low, high);
    BitOfSum(low, high % 0x10, 8, k);
    if k >= 8 {
      BitOfSum(high % 0x10, high / 0x10, 4, k - 8);
    }
  }

  /** Entry c is made of the twelve bits from bit 12 c on. */
  lemma EntryIsBits(fat: seq<Byte>, c: nat, k: nat)
    requires InTable(fat, c) && k < 12
    ensures (12 * c + k) / 8 < |fat| && Bit(EntryAt(fat, c), k) == TableBit(fat, 12 * c + k)
  {
    var at := OffsetOf(c);
    BitPlace(c, k);
    if c % 2 == 1 {
      OddBits(fat[at], fat[at + 1], k);
    } else {
      EvenBits(fat[at], fat[at + 1], k);
    }
  }

  /** In which byte bit k of entry c lies. */
  lemma BitPlace(c: nat, k: nat)
    requires k < 12
    ensures c % 2 == 1 && k < 4 ==> (12 * c + k) / 8 == OffsetOf(c) && (12 * c + k) % 8 == k + 4
    ensures c % 2 == 1 && k >= 4 ==> (12 * c + k) / 8 == OffsetOf(c) + 1 && (12 * c + k) % 8 == k - 4
    ensures c % 2 == 0 && k < 8 ==> (12 * c + k) / 8 == OffsetOf(c) && (12 * c + k) % 8 == k
    ensures c % 2 == 0 && k >= 8 ==> (12 * c + k) / 8 == OffsetOf(c) + 1 && (12 * c + k) % 8 == k - 8
  {
    assert c == 2 * (c / 2) + c % 2;
  }

  lemma OddEntry(low: nat, high: nat)
    ensures (low + 0x100 * high) / 0x10 == low / 0x10 + 0x10 * high
  {
    DivideAbove(low, high);
  }

  lemma EvenEntry(low: nat, high: nat)
    requires low < 0x100 && high < 0x100
    ensures (low + 0x100 * high) % 0x1000 == low + 0x100 * (high % 0x10)
  {
  }

  lemma DivideAbove(low: int, next: int)
    ensures (low + 0x100 * next) / 0x10 == low / 0x10 + 0x10 * next
  {
    var q, r := low / 0x10, low % 0x10;
    assert low + 0x100 * next == 0x10 * (q + 0x10 * next) + r;
  }

  lemma EvenKeepsNext(high: Byte, high': Byte, next: Byte)
    requires (high as int) / 0x10 == (high' as int) / 0x10
    ensures ((high as int) + 0x100 * (next as int)) / 0x10 == ((high' as int) + 0x100 * (next as int)) / 0x10
  {
    DivideAbove(high, next);
    DivideAbove(high', next);
  }

  lemma OddKeepsPrevious(first: Byte, low: Byte, low': Byte)
    requires (low as int) % 0x10 == (low' as int) % 0x10
    ensures ((first as int) + 0x100 * (low as int)) % 0x1000 == ((first as int) + 0x100 * (low' as int)) % 0x1000
  {
  }

  /** Entries whose pairs share a byte are the two halves of one triple. */
  lemma SharedByte(c: nat, d: nat)
    ensures c % 2 == 0 && d != c && d != c + 1 ==> OffsetOf(d) + 1 < OffsetOf(c) || OffsetOf(c) + 1 < OffsetOf(d)
    ensures c % 2 == 1 && d != c && d != c - 1 ==> OffsetOf(d) + 1 < OffsetOf(c) || OffsetOf(c) + 1 < OffsetOf(d)
    ensures c % 2 == 0 ==> OffsetOf(c + 1) == OffsetOf(c) + 1
  {
  }

  /** Stores one entry in place; every other entry keeps its value. */
  method SetEntry(fat: array<Byte>, cluster: nat, value: nat)
    requires InTable(fat[..], cluster) && value < ENTRY_LIMIT
    modifies fat
    ensures EntryAt(fat[..], cluster) == value
    ensures forall d: nat :: d != cluster && InTable(fat[..], d) ==> EntryAt(fat[..], d) == old(EntryAt(fat[..], d))
  {
    var offset := OffsetOf(cluster);
    var pair := StoredPair(fat[offset], fat[offset + 1], cluster % 2 == 1, value);
    PairReads(fat[offset], fat[offset + 1], cluster % 2 == 1, value);
    ghost var before := fat[..];
    fat[offset], fat[offset + 1] := pair.0, pair.1;
    forall d: nat | d != cluster && InTable(fat[..], d) ensures EntryAt(fat[..], d) == EntryAt(before, d) {
      OtherEntry(before, fat[..], cluster, d);
    }
  }

  lemma OtherEntry(before: seq<Byte>, after: seq<Byte>, cluster: nat, d: nat)
    requires InTable(before, cluster) && InTable(before, d) && d != cluster && |before| == |after|
    requires forall k :: 0 <= k < |before| && k != OffsetOf(cluster) && k != OffsetOf(cluster) + 1 ==> before[k] == after[k]
    requires if cluster % 2 == 1 then (before[OffsetOf(cluster)] as int) % 0x10 == (after[OffsetOf(cluster)] as int) % 0x10
             else (before[OffsetOf(cluster) + 1] as int) / 0x10 == (after[OffsetOf(cluster) + 1] as int) / 0x10
    ensures EntryAt(before, d) == EntryAt(after, d)
  {
    SharedByte(cluster, d);
    var offset := OffsetOf(cluster);
    if cluster % 2 == 0 && d == cluster + 1 {
      EvenKeepsNext(before[offset + 1], after[offset + 1], before[offset + 2]);
    } else if cluster % 2 == 1 && d == cluster - 1 {
      SharedByte(d, cluster);
      OddKeepsPrevious(before[offset - 1], before[offset], after[offset]);
    }
  }

  // ----- Chains

  predicate IsEnd(value: int) { value >= 0xFF8 }

  /** Clusters first, first + 1, ... are chained, and the last ends the chain. */
  ghost predicate Linked(fat: seq<Byte>, first: nat, count: nat) {
    forall c: nat :: first <= c < first + count ==>
      InTable(fat, c) && EntryAt(fat, c) == if c + 1 < first + count then c + 1 else END_OF_CHAIN
  }

  /** The clusters a reader visits from c on, at most so many. */
  function Follow(fat: seq<Byte>, c: nat, fuel: nat): seq<nat>
    decreases fuel
  {
    if fuel == 0 || c < 2 || !InTable(fat, c) then []
    else if IsEnd(EntryAt(fat, c)) then [c]
    else [c] + Follow(fat, EntryAt(fat, c), fuel - 1)
  }

  /** A reader that starts at the first cluster of a chain visits exactly the chain. */
  lemma {:induction false} FollowLinked(fat: seq<Byte>, first: nat, count: nat, fuel: nat)
    requires Linked(fat, first, count) && 2 <= first && 1 <= count <= fuel && first + count <= 0xFF0
    ensures Follow(fat, first, fuel) == Run(first, count)
    decreases count
  {
    if count > 1 {
      FollowLinked(fat, first + 1, count - 1, fuel - 1);
      assert Run(first, count) == [first] + Run(first + 1, count - 1);
    }
  }

  /** Entries outside a range of clusters are as before. */
  ghost predicate KeptOutside(before: seq<Byte>, after: seq<Byte>, first: nat, count: nat) {
    |before| == |after| &&
    forall d: nat :: !(first <= d < first + count) && InTable(after, d) ==> EntryAt(after, d) == EntryAt(before, d)
  }

  /** Links one chain of consecutive clusters. */
  method LinkChain(fat: array<Byte>, first: nat, count: nat)
    requires count > 0 && InTable(fat[..], first + count - 1) && first + count < END_OF_CHAIN
    modifies fat
    ensures Linked(fat[..], first, count) && KeptOutside(old(fat[..]), fat[..], first, count)
  {
    var index := 0;
    while index < count
      invariant 0 <= index <= count && KeptOutside(old(fat[..]), fat[..], first, count)
      invariant forall c: nat :: first <= c < first + index ==>
        EntryAt(fat[..], c) == if c + 1 < first + count then c + 1 else END_OF_CHAIN
    {
      SetEntry(fat, first + index, if index + 1 < count then first + index + 1 else END_OF_CHAIN);
      index := index + 1;
    }
  }

  lemma LinkedKept(before: seq<Byte>, after: seq<Byte>, first: nat, count: nat, first': nat, count': nat)
    requires Linked(before, first, count) && KeptOutside(before, after, first', count')
    requires first + count <= first' || first' + count' <= first
    ensures Linked(after, first, count)
  {
    forall c: nat | first <= c < first + count
      ensures InTable(after, c) && EntryAt(after, c) == if c + 1 < first + count then c + 1 else END_OF_CHAIN
    {
      assert InTable(before, c);
    }
  }
}
