/** UTF-8 as defined in section 3 of RFC 3629: what an octet sequence reads as, and the shortest sequence of a scalar. */
module Utf8 {
  import opened Bytes

  /** A Unicode scalar value: any code point but the surrogates. */
  predicate Scalar(v: int) { 0 <= v < 0x11_0000 && !(0xD800 <= v < 0xE000) }

  /** How many octets the first one announces, or 0 if no sequence begins with it. */
  function Announced(lead: Byte): nat {
    if lead < 0x80 then 1
    else if lead < 0xC0 then 0
    else if lead < 0xE0 then 2
    else if lead < 0xF0 then 3
    else if lead < 0xF8 then 4
    else 0
  }

  /** The payload bits of the first octet. */
  function LeadBits(lead: Byte): nat {
    if lead < 0x80 then lead else if lead < 0xE0 then lead % 0x20 else if lead < 0xF0 then lead % 0x10 else lead % 8
  }

  predicate Follows(octet: Byte) { 0x80 <= octet < 0xC0 }

  /** The number made of the payload bits of the first n octets. */
  function Bits(b: seq<Byte>, n: nat): nat
    requires 0 < n <= |b|
  {
    if n == 1 then LeadBits(b[0]) else 0x40 * Bits(b, n - 1) + (b[n - 1] as int) % 0x40
  }

  /** The octets are one sequence of the right shape, whose payload bits are the number. */
  predicate Reads(b: seq<Byte>, v: int) {
    && 0 < |b| == Announced(b[0]) && (forall k :: 0 < k < |b| ==> Follows(b[k]))
    && Bits(b, |b|) == v
  }

  /** The encoding of a scalar. */
  function Encode(v: int): (b: seq<Byte>)
    requires Scalar(v)
  {
    if v < 0x80 then [v]
    else if v < 0x800 then [0xC0 + v / 0x40, 0x80 + v % 0x40]
    else if v < 0x1_0000 then [0xE0 + v / 0x1000, 0x80 + v / 0x40 % 0x40, 0x80 + v % 0x40]
    else [0xF0 + v / 0x4_0000, 0x80 + v / 0x1000 % 0x40, 0x80 + v / 0x40 % 0x40, 0x80 + v % 0x40]
  }

  lemma Digits(v: nat)
    ensures v == 0x40 * (v / 0x40) + v % 0x40
    ensures v / 0x40 == 0x40 * (v / 0x1000) + v / 0x40 % 0x40
    ensures v / 0x1000 == 0x40 * (v / 0x4_0000) + v / 0x1000 % 0x40
  {
  }

  lemma LowBits(d: nat)
    requires d < 0x40
    ensures (0x80 + d) % 0x40 == d && Follows(0x80 + d)
  {
  }

  lemma Reads2(a: nat, d: nat)
    requires a < 0x20 && d < 0x40
    ensures Reads([0xC0 + a, 0x80 + d], 0x40 * a + d)
  {
    LowBits(d);
    var b: seq<Byte> := [0xC0 + a, 0x80 + d];
    assert Bits(b, 2) == 0x40 * Bits(b, 1) + d;
  }

  lemma Reads3(a: nat, c: nat, d: nat)
    requires a < 0x10 && c < 0x40 && d < 0x40
    ensures Reads([0xE0 + a, 0x80 + c, 0x80 + d], 0x40 * (0x40 * a + c) + d)
  {
    LowBits(c);
    LowBits(d);
    var b: seq<Byte> := [0xE0 + a, 0x80 + c, 0x80 + d];
    assert Bits(b, 2) == 0x40 * Bits(b, 1) + c;
    assert Bits(b, 3) == 0x40 * Bits(b, 2) + d;
  }

  lemma Reads4(a: nat, e: nat, c: nat, d: nat)
    requires a < 8 && e < 0x40 && c < 0x40 && d < 0x40
    ensures Reads([0xF0 + a, 0x80 + e, 0x80 + c, 0x80 + d], 0x40 * (0x40 * (0x40 * a + e) + c) + d)
  {
    LowBits(e);
    LowBits(c);
    LowBits(d);
    var b: seq<Byte> := [0xF0 + a, 0x80 + e, 0x80 + c, 0x80 + d];
    assert Bits(b, 2) == 0x40 * Bits(b, 1) + e;
    assert Bits(b, 3) == 0x40 * Bits(b, 2) + c;
    assert Bits(b, 4) == 0x40 * Bits(b, 3) + d;
  }

  /** The encoding reads as the scalar. */
  lemma EncodeReads(v: int)
    requires Scalar(v)
    ensures Reads(Encode(v), v)
  {
    Digits(v);
    if 0x80 <= v < 0x800 {
      Reads2(v / 0x40, v % 0x40);
    } else if 0x800 <= v < 0x1_0000 {
      Reads3(v / 0x1000, v / 0x40 % 0x40, v % 0x40);
    } else if 0x1_0000 <= v {
      Reads4(v / 0x4_0000, v / 0x1000 % 0x40, v / 0x40 % 0x40, v % 0x40);
    }
  }

  /** Six bits more. */
  lemma BitsBelow(b: seq<Byte>, n: nat, limit: nat)
    requires 1 < n <= |b| && Bits(b, n - 1) < limit
    ensures Bits(b, n) < 0x40 * limit
  {
  }

  /** Sequences of n octets read as numbers below a power of two. */
  lemma ReadsBelow(b: seq<Byte>, v: int)
    requires Reads(b, v)
    ensures 1 <= |b| <= 4
    ensures 0 <= v < if |b| == 1 then 0x80 else if |b| == 2 then 0x800 else if |b| == 3 then 0x1_0000 else 0x20_0000
  {
    if |b| == 2 {
      BitsBelow(b, 2, 0x20);
    } else if |b| == 3 {
      BitsBelow(b, 2, 0x10);
      BitsBelow(b, 3, 0x400);
    } else if |b| == 4 {
      BitsBelow(b, 2, 8);
      BitsBelow(b, 3, 0x200);
      BitsBelow(b, 4, 0x8000);
    }
  }

  lemma {:induction false} SameBits(b: seq<Byte>, c: seq<Byte>, n: nat)
    requires 0 < n <= |b| && n <= |c| && Bits(b, n) == Bits(c, n)
    requires forall k :: 0 < k < n ==> Follows(b[k]) && Follows(c[k])
    ensures LeadBits(b[0]) == LeadBits(c[0]) && forall k :: 0 < k < n ==> b[k] == c[k]
  {
    if n > 1 {
      SameBits(b, c, n - 1);
    }
  }

  /** Two sequences of one length that read as the same number are the same. */
  lemma ReadsOnce(b: seq<Byte>, c: seq<Byte>, v: int)
    requires Reads(b, v) && Reads(c, v) && |b| == |c|
    ensures b == c
  {
    SameBits(b, c, |b|);
    SameLead(b[0], c[0]);
  }

  lemma SameLead(l: Byte, m: Byte)
    requires Announced(l) == Announced(m) != 0 && LeadBits(l) == LeadBits(m)
    ensures l == m
  {
  }

  /** And it is the only shortest sequence that does. */
  lemma EncodeShortest(v: int, b: seq<Byte>)
    requires Scalar(v) && Reads(b, v)
    ensures |Encode(v)| <= |b| && (|Encode(v)| == |b| ==> Encode(v) == b)
  {
    ReadsBelow(b, v);
    EncodeReads(v);
    if |Encode(v)| == |b| {
      ReadsOnce(Encode(v), b, v);
    }
  }

  // ----- Texts

  predicate AllScalars(s: seq<int>) { forall v :: v in s ==> Scalar(v) }

  /** A text, scalar by scalar. */
  function EncodeText(s: seq<int>): (b: seq<Byte>)
    requires AllScalars(s)
  {
    if s == [] then [] else EncodeText(s[..|s| - 1]) + Encode(s[|s| - 1])
  }

  lemma EncodeLast(s: seq<int>, v: int)
    requires AllScalars(s) && Scalar(v)
    ensures AllScalars(s + [v]) && EncodeText(s + [v]) == EncodeText(s) + Encode(v)
  {
    assert (s + [v])[..|s|] == s;
  }

  lemma SplitBothEnds<T>(a: T, s: seq<T>)
    requires s != []
    ensures [a] + s == ([a] + s[..|s| - 1]) + [s[|s| - 1]]
  {
  }

  lemma Regroup<T>(a: seq<T>, b: seq<T>, c: seq<T>)
    ensures (a + b) + c == a + (b + c)
  {
  }

  lemma {:induction false} EncodeFirst(v: int, s: seq<int>)
    requires Scalar(v) && AllScalars(s)
    ensures AllScalars([v] + s) && EncodeText([v] + s) == Encode(v) + EncodeText(s)
  {
    if s == [] {
      EncodeLast([], v);
      assert [v] + s == [] + [v];
    } else {
      var front, last := s[..|s| - 1], s[|s| - 1];
      EncodeFirst(v, front);
      EncodeLast([v] + front, last);
      SplitBothEnds(v, s);
      Regroup(Encode(v), EncodeText(front), Encode(last));
    }
  }

  /** No encoding is the beginning of another. */
  lemma PrefixFree(v: int, w: int, x: seq<Byte>, y: seq<Byte>)
    requires Scalar(v) && Scalar(w) && Encode(v) + x == Encode(w) + y
    ensures v == w && x == y
  {
    EncodeReads(v);
    EncodeReads(w);
    var b, c := Encode(v), Encode(w);
    assert (b + x)[0] == (c + y)[0];
    assert b == (b + x)[..|b|] && c == (c + y)[..|c|];
    assert x == (b + x)[|b|..] && y == (c + y)[|c|..];
  }

  /** Different texts have different encodings. */
  lemma {:induction false} TextsDiffer(s: seq<int>, t: seq<int>)
    requires AllScalars(s) && AllScalars(t) && EncodeText(s) == EncodeText(t)
    ensures s == t
  {
    if s != [] {
      assert s == [s[0]] + s[1..];
      EncodeFirst(s[0], s[1..]);
    }
    if t != [] {
      assert t == [t[0]] + t[1..];
      EncodeFirst(t[0], t[1..]);
    }
    if s != [] && t != [] {
      PrefixFree(s[0], t[0], EncodeText(s[1..]), EncodeText(t[1..]));
      TextsDiffer(s[1..], t[1..]);
    }
  }
}
