/** The table that bounds how much a path of given UTF-8 length can grow under a per-scalar measure. */
module PathBound {
  import opened Numbers
  import opened Utf8

  const PATH_BYTES := 255

  /** Bytes of a scalar value in UTF-8 (section 3 of RFC 3629). */
  function Width(v: int): int {
    if v < 0x80 then 1 else if v < 0x800 then 2 else if v < 0x10000 then 3 else 4
  }

  function TotalWidth(s: seq<int>): int {
    if s == [] then 0 else TotalWidth(s[..|s| - 1]) + Width(s[|s| - 1])
  }

  function TotalMeasure(s: seq<int>, measure: int -> int): int {
    if s == [] then 0 else TotalMeasure(s[..|s| - 1], measure) + measure(s[|s| - 1])
  }

  /** A text over the given scalars that fits the capacity. */
  ghost predicate Text(values: seq<int>, capacity: int, s: seq<int>) {
    (forall v :: v in s ==> v in values) && TotalWidth(s) <= capacity
  }

  /** The greatest total measure of any text that fits. */
  ghost predicate Optimum(values: seq<int>, measure: int -> int, capacity: int, m: int) {
    && (forall s :: Text(values, capacity, s) ==> TotalMeasure(s, measure) <= m)
    && (exists s :: Text(values, capacity, s) && TotalMeasure(s, measure) == m)
  }

  /** m is the greatest measure of a scalar of width i + 1 among the first n, but at least 0. */
  ghost predicate BestOfClass(values: seq<int>, measure: int -> int, n: int, i: int, m: int) {
    && 0 <= m
    && (forall k :: 0 <= k < n && k < |values| && Width(values[k]) == i + 1 ==> measure(values[k]) <= m)
    && (m == 0 || exists v :: v in values && Width(v) == i + 1 && measure(v) == m)
  }

  ghost predicate BestSoFar(values: seq<int>, measure: int -> int, n: int, best: seq<int>) {
    |best| == 4 && forall i :: 0 <= i < 4 ==> BestOfClass(values, measure, n, i, best[i])
  }

  /** The table is right below c. */
  ghost predicate TableUpTo(values: seq<int>, measure: int -> int, table: seq<int>, c: int) {
    c <= |table| && forall d :: 0 <= d < c ==> Optimum(values, measure, d, table[d])
  }

  /** The best text for c that ends in a scalar of width w. */
  function Candidate(best: seq<int>, table: seq<int>, c: int, w: int): int
    requires |best| == 4 && 1 <= w <= 4 && w <= c <= |table|
  {
    table[c - w] + best[w - 1]
  }

  /** The width is the length of the encoding. */
  lemma WidthIsLength(v: int)
    requires Scalar(v)
    ensures Width(v) == |Encode(v)|
  {
  }

  lemma {:induction false} TotalWidthIsLength(s: seq<int>)
    requires AllScalars(s)
    ensures TotalWidth(s) == |EncodeText(s)|
  {
    if s != [] {
      WidthIsLength(s[|s| - 1]);
      TotalWidthIsLength(s[..|s| - 1]);
    }
  }

  lemma {:induction false} TotalWidthNonNegative(s: seq<int>)
    ensures 0 <= TotalWidth(s)
  {
    if s != [] {
      TotalWidthNonNegative(s[..|s| - 1]);
    }
  }

  /** Only the empty text fits into nothing. */
  lemma OptimumOfNothing(values: seq<int>, measure: int -> int)
    ensures Optimum(values, measure, 0, 0)
  {
    forall s | Text(values, 0, s) ensures TotalMeasure(s, measure) <= 0 {
      if s != [] {
        TotalWidthNonNegative(s[..|s| - 1]);
      }
    }
    assert Text(values, 0, []);
  }

  /** No text for the capacity beats the best last scalar behind the best rest. */
  lemma LastScalarBound(values: seq<int>, measure: int -> int, best: seq<int>, table: seq<int>, c: int, s: seq<int>)
    returns (w: int)
    requires BestSoFar(values, measure, |values|, best) && 0 < c && TableUpTo(values, measure, table, c)
    requires Text(values, c, s)
    ensures 1 <= w <= 4 && w <= c && TotalMeasure(s, measure) <= Candidate(best, table, c, w)
  {
    if s == [] {
      w := 1;
      assert Text(values, c - 1, []);
      assert TotalMeasure([], measure) <= table[c - 1];
    } else {
      var front, v := s[..|s| - 1], s[|s| - 1];
      w := Width(v);
      TotalWidthNonNegative(front);
      assert Text(values, c - w, front);
      assert v in s;
      var i :| 0 <= i < |values| && values[i] == v;
      assert BestOfClass(values, measure, |values|, w - 1, best[w - 1]);
    }
  }

  /** Every candidate value is reached by some text. */
  lemma CandidateReached(values: seq<int>, measure: int -> int, best: seq<int>, table: seq<int>, c: int, w: int)
    requires BestSoFar(values, measure, |values|, best) && TableUpTo(values, measure, table, c)
    requires 1 <= w <= 4 && w <= c
    ensures exists s :: Text(values, c, s) && TotalMeasure(s, measure) == Candidate(best, table, c, w)
  {
    assert Optimum(values, measure, c - w, table[c - w]) && BestOfClass(values, measure, |values|, w - 1, best[w - 1]);
    var s :| Text(values, c - w, s) && TotalMeasure(s, measure) == table[c - w];
    if best[w - 1] == 0 {
      assert Text(values, c, s);
    } else {
      var v :| v in values && Width(v) == w && measure(v) == best[w - 1];
      var t := s + [v];
      assert t[..|t| - 1] == s;
      assert Text(values, c, t);
    }
  }

  /** The greatest candidate is the optimum. */
  lemma GreatestCandidate(values: seq<int>, measure: int -> int, best: seq<int>, table: seq<int>, c: int, arg: int)
    requires BestSoFar(values, measure, |values|, best) && TableUpTo(values, measure, table, c)
    requires 1 <= arg <= 4 && arg <= c
    requires forall w :: 1 <= w <= 4 && w <= c ==> Candidate(best, table, c, w) <= Candidate(best, table, c, arg)
    ensures Optimum(values, measure, c, Candidate(best, table, c, arg))
  {
    forall s | Text(values, c, s) ensures TotalMeasure(s, measure) <= Candidate(best, table, c, arg) {
      var w := LastScalarBound(values, measure, best, table, c, s);
    }
    CandidateReached(values, measure, best, table, c, arg);
  }

  lemma BestStep(values: seq<int>, measure: int -> int, n: int, best: seq<int>)
    requires 0 <= n < |values| && BestSoFar(values, measure, n, best)
    ensures var index := Width(values[n]) - 1;
            BestSoFar(values, measure, n + 1, best[index := Max(best[index], measure(values[n]))])
  {
    var index := Width(values[n]) - 1;
    var next := best[index := Max(best[index], measure(values[n]))];
    forall i | 0 <= i < 4 ensures BestOfClass(values, measure, n + 1, i, next[i]) {
      assert BestOfClass(values, measure, n, i, best[i]);
      assert values[n] in values;
    }
  }

  // ----- Texts and encoded paths

  /** A path over the given scalars whose encoding has at most that many octets. */
  ghost predicate Path(values: seq<int>, s: seq<int>, octets: int) {
    (forall v :: v in s ==> v in values) && AllScalars(s) && |EncodeText(s)| <= octets
  }

  /** The greatest total measure of such a path. */
  ghost predicate GreatestOfPaths(values: seq<int>, measure: int -> int, octets: int, m: int) {
    && (forall s :: Path(values, s, octets) ==> TotalMeasure(s, measure) <= m)
    && (exists s :: Path(values, s, octets) && TotalMeasure(s, measure) == m)
  }

  lemma PathIsText(values: seq<int>, s: seq<int>, octets: int)
    requires AllScalars(values)
    ensures Path(values, s, octets) <==> Text(values, octets, s)
  {
    if AllScalars(s) {
      TotalWidthIsLength(s);
    }
  }

  /** Over scalars, the optimum is the optimum over the encodings of that length. */
  lemma OptimumOfPaths(values: seq<int>, measure: int -> int, octets: int, m: int)
    requires AllScalars(values) && Optimum(values, measure, octets, m)
    ensures GreatestOfPaths(values, measure, octets, m)
  {
    forall s ensures Path(values, s, octets) <==> Text(values, octets, s) {
      PathIsText(values, s, octets);
    }
    var s :| Text(values, octets, s) && TotalMeasure(s, measure) == m;
    assert Path(values, s, octets);
  }

  // ----- The table

  /** The first loop: the best measure of each width class. */
  method BestByBytes(values: seq<int>, measure: int -> int) returns (best: array<int>)
    ensures fresh(best) && BestSoFar(values, measure, |values|, best[..])
  {
    best := new int[4](_ => 0);
    for i := 0 to |values|
      invariant BestSoFar(values, measure, i, best[..])
    {
      BestStep(values, measure, i, best[..]);
      var index := Width(values[i]) - 1;
      best[index] := Max(best[index], measure(values[i]));
    }
  }

  /** One table entry: the best over all widths of the last scalar. */
  method BestEntry(best: array<int>, table: array<int>, c: int) returns (m: int, ghost arg: int)
    requires best.Length == 4 && 0 < c <= table.Length
    ensures 1 <= arg <= 4 && arg <= c && m == Candidate(best[..], table[..], c, arg)
    ensures forall w :: 1 <= w <= 4 && w <= c ==> Candidate(best[..], table[..], c, w) <= m
  {
    m := table[c - 1] + best[0];
    arg := 1;
    for w := 2 to 5
      invariant 1 <= arg < w && arg <= c && m == Candidate(best[..], table[..], c, arg)
      invariant forall u :: 1 <= u < w && u <= c ==> Candidate(best[..], table[..], c, u) <= m
    {
      if w <= c && table[c - w] + best[w - 1] > m {
        m := table[c - w] + best[w - 1];
        arg := w;
      }
    }
  }

  /**
   * The derived bound is the exact optimum: no path whose encoding has at most
   * 255 octets has a greater total measure, and some path reaches it, whichever
   * width classes occur and whatever sign the measure has.
   */
  method DerivePathBound(values: seq<int>, measure: int -> int) returns (bound: int)
    ensures Optimum(values, measure, PATH_BYTES, bound)
    ensures AllScalars(values) ==> GreatestOfPaths(values, measure, 255, bound)
  {
    var best := BestByBytes(values, measure);
    var table := new int[PATH_BYTES + 1](_ => 0);
    OptimumOfNothing(values, measure);
    for capacity := 1 to PATH_BYTES + 1
      invariant BestSoFar(values, measure, |values|, best[..])
      invariant TableUpTo(values, measure, table[..], capacity)
    {
      var m;
      ghost var arg;
      m, arg := BestEntry(best, table, capacity);
      GreatestCandidate(values, measure, best[..], table[..], capacity, arg);
      table[capacity] := m;
    }
    bound := table[PATH_BYTES];
    if AllScalars(values) {
      OptimumOfPaths(values, measure, PATH_BYTES, bound);
    }
  }
}
