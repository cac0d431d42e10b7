/** Byte strings, the little-endian words packed into them, and what a write leaves unchanged. */
module Bytes {

  type Byte = b: int | 0 <= b < 256

  datatype Option<T> = None | Some(value: T)

  const WORD_LIMIT := 0x1_0000_0000

  function U16(s: seq<Byte>, at: int): (value: int)
    requires 0 <= at && at + 2 <= |s|
    ensures 0 <= value < 0x1_0000
  {
    (s[at] as int) + 0x100 * (s[at + 1] as int)
  }

  function U32(s: seq<Byte>, at: int): (value: int)
    requires 0 <= at && at + 4 <= |s|
    ensures 0 <= value < WORD_LIMIT
  {
    (s[at] as int) + 0x100 * (s[at + 1] as int) + 0x1_0000 * (s[at + 2] as int) + 0x100_0000 * (s[at + 3] as int)
  }

  function Pack16(value: int): (s: seq<Byte>)
    requires 0 <= value < 0x1_0000
    ensures |s| == 2 && U16(s, 0) == value
  {
    [value % 0x100, value / 0x100]
  }

  function Pack32(value: int): (s: seq<Byte>)
    requires 0 <= value < WORD_LIMIT
    ensures |s| == 4 && U32(s, 0) == value
  {
    var high := value / 0x1_0000;
    [value % 0x100, value % 0x1_0000 / 0x100, high % 0x100, high / 0x100]
  }

  /** Words with the same bytes are the same word. */
  lemma SameWord(s: seq<Byte>, at: int, value: int)
    requires 0 <= at && at + 4 <= |s| && 0 <= value < WORD_LIMIT && s[at..at + 4] == Pack32(value)
    ensures U32(s, at) == value
  {
    assert s[at] == s[at..at + 4][0] && s[at + 1] == s[at..at + 4][1];
    assert s[at + 2] == s[at..at + 4][2] && s[at + 3] == s[at..at + 4][3];
  }

  function Zeros(n: nat): (s: seq<Byte>)
    ensures |s| == n && forall i :: 0 <= i < n ==> s[i] == 0
  {
    seq(n, _ => 0)
  }

  // ----- Pieces of an image

  /** The bytes stand at this place of the image. */
  predicate At(image: seq<Byte>, at: int, bytes: seq<Byte>) {
    0 <= at && at + |bytes| <= |image| && image[at..at + |bytes|] == bytes
  }

  predicate SameOutside(before: seq<Byte>, after: seq<Byte>, lo: int, hi: int) {
    |before| == |after| && forall k :: 0 <= k < |after| && !(lo <= k < hi) ==> after[k] == before[k]
  }

  lemma AtKept(before: seq<Byte>, after: seq<Byte>, lo: int, hi: int, at: int, bytes: seq<Byte>)
    requires SameOutside(before, after, lo, hi) && At(before, at, bytes) && (at + |bytes| <= lo || hi <= at)
    ensures At(after, at, bytes)
  {
  }

  lemma SameTwice(a: seq<Byte>, b: seq<Byte>, c: seq<Byte>, lo: int, hi: int, lo': int, hi': int)
    requires SameOutside(a, b, lo, hi) && SameOutside(b, c, lo', hi')
    ensures forall l, h :: l <= lo && l <= lo' && hi <= h && hi' <= h ==> SameOutside(a, c, l, h)
  {
  }

  /** A slice assignment. */
  method Blit(image: array<Byte>, at: int, bytes: seq<Byte>)
    requires 0 <= at && at + |bytes| <= image.Length
    modifies image
    ensures At(image[..], at, bytes) && SameOutside(old(image[..]), image[..], at, at + |bytes|)
  {
    forall k | 0 <= k < |bytes| {
      image[at + k] := bytes[k];
    }
    assert image[..][at..at + |bytes|] == bytes;
  }
}
