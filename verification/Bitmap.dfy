/** Packed bitmaps: one bit a frame, least significant bit first. */
module Bitmap {

  /** 1 shifted left by k, as a table. */
  function Mask(k: nat): bv8
    requires k < 8
  {
    if k == 0 then 1 else if k == 1 then 2 else if k == 2 then 4 else if k == 3 then 8
    else if k == 4 then 16 else if k == 5 then 32 else if k == 6 then 64 else 128
  }

  predicate Bit(a: array<bv8>, f: int)
    reads a
  {
    0 <= f / 8 < a.Length && a[f / 8] & Mask(f % 8) != 0
  }

  /** Or-ing in one mask sets that bit and no other. */
  lemma SetOneBit(b: bv8, j: nat, k: nat)
    requires j < 8 && k < 8
    ensures (b | Mask(j)) & Mask(k) != 0 <==> j == k || b & Mask(k) != 0
  {
  }

  /** And-ing with the complement of one mask clears that bit and no other. */
  lemma ClearOneBit(b: bv8, j: nat, k: nat)
    requires j < 8 && k < 8
    ensures (b & !Mask(j)) & Mask(k) != 0 <==> j != k && b & Mask(k) != 0
  {
  }

  lemma FilledByte(k: nat)
    requires k < 8
    ensures 0xFF & Mask(k) != 0 && 0 & Mask(k) == 0
  {
  }

  method SetBit(a: array<bv8>, f: nat)
    requires f / 8 < a.Length
    modifies a
    ensures forall g :: 0 <= g / 8 < a.Length ==> Bit(a, g) == (g == f || old(Bit(a, g)))
  {
    ghost var before := a[f / 8];
    a[f / 8] := a[f / 8] | Mask(f % 8);
    forall g | 0 <= g / 8 < a.Length ensures Bit(a, g) == (g == f || old(Bit(a, g))) {
      if g / 8 == f / 8 {
        SetOneBit(before, f % 8, g % 8);
      }
    }
  }

  method ClearBit(a: array<bv8>, f: nat)
    requires f / 8 < a.Length
    modifies a
    ensures forall g :: 0 <= g / 8 < a.Length ==> Bit(a, g) == (g != f && old(Bit(a, g)))
  {
    ghost var before := a[f / 8];
    a[f / 8] := a[f / 8] & !Mask(f % 8);
    forall g | 0 <= g / 8 < a.Length ensures Bit(a, g) == (g != f && old(Bit(a, g))) {
      if g / 8 == f / 8 {
        ClearOneBit(before, f % 8, g % 8);
      }
    }
  }

  /** A fresh bitmap of the given size with every bit set or every bit clear. */
  method Filled(bytes: nat, on: bool) returns (a: array<bv8>)
    ensures fresh(a) && a.Length == bytes
    ensures forall g :: 0 <= g / 8 < bytes ==> Bit(a, g) == on
  {
    var value: bv8 := if on then 0xFF else 0;
    a := new bv8[bytes](_ => value);
    forall g | 0 <= g / 8 < bytes ensures Bit(a, g) == on {
      FilledByte(g % 8);
    }
  }
}
