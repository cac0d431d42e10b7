/** The fixpoint iteration that sizes the FAT of a FAT32 partition. */
module Fat32Geometry {

  const SECTOR_SIZE := 512
  const RESERVED_SECTORS := 32
  const FAT_COUNT := 2
  const ROUNDS := 32
  const MAX_SECTORS := 0x1_0000_0000_0000_0000

  datatype Geometry = Fits(fat: int, clusters: int) | TooSmall | NoConvergence

  function SectorsFor(size: int): int { (size + SECTOR_SIZE - 1) / SECTOR_SIZE }

  function Clusters(total: int, fat: int): int { total - RESERVED_SECTORS - FAT_COUNT * fat }

  function Required(total: int, fat: int): int { SectorsFor((Clusters(total, fat) + 2) * 4) }

  /** The least FAT size whose 128 entries a sector cover every cluster and the two reserved entries. */
  predicate IsGeometry(total: int, fat: int, clusters: int) {
    clusters == Clusters(total, fat) && 0 < clusters && 128 * (fat - 1) < clusters + 2 <= 128 * fat
  }

  /** Sizes for which no FAT size is its own requirement. */
  predicate Oscillates(total: int) { (total - 30) % 130 == 1 || (total - 30) % 130 == 2 }

  /** Signed distance of 130 times the FAT size from the sectors to be mapped. */
  function Distance(total: int, fat: int): int { 130 * fat - (total - 30) }

  /** One round divides the distance by about 64. */
  lemma RoundContracts(total: int, fat: int)
    ensures var slack := 128 * Required(total, fat) - (Clusters(total, fat) + 2);
            && 0 <= slack <= 127
            && 64 * Distance(total, Required(total, fat)) == 65 * slack - Distance(total, fat)
  {
  }

  /** A size is its own requirement exactly when its distance is in [0, 127]. */
  lemma FixedExactly(total: int, fat: int)
    ensures Required(total, fat) == fat <==> 0 <= Distance(total, fat) <= 127
  {
    RoundContracts(total, fat);
  }

  /** The data area never vanishes once it exists. */
  lemma DataStaysPositive(total: int, fat: int)
    requires 35 <= total && 1 <= fat && 0 < Clusters(total, fat)
    ensures 1 <= Required(total, fat) && 0 < Clusters(total, Required(total, fat))
  {
    RoundContracts(total, fat);
  }

  /** A bound on the distance after k rounds, for partitions of at most 2^64 sectors. */
  function Spread(k: nat): int {
    if k == 0 then MAX_SECTORS else Spread(k - 1) / 64 + 130
  }

  lemma SpreadAt(k: nat)
    requires 12 <= k
    ensures Spread(k) <= 132
  {
    if k == 12 {
      assert Spread(2) <= 0x10_0000_0000_0000 + 133;
      assert Spread(4) <= 0x100_0000_0000 + 133;
      assert Spread(6) <= 0x1000_0000 + 133;
      assert Spread(8) <= 0x1_0000 + 133;
      assert Spread(10) <= 0x10 + 133;
    } else {
      SpreadAt(k - 1);
    }
  }

  lemma SpreadStep(total: int, fat: int, k: nat)
    requires -Spread(k) <= Distance(total, fat) <= Spread(k)
    ensures var next := Distance(total, Required(total, fat)); -Spread(k + 1) <= next <= Spread(k + 1)
    ensures 12 <= k ==> -2 <= Distance(total, Required(total, fat)) <= 131
    ensures -2 <= Distance(total, fat) <= 131 ==> -2 <= Distance(total, Required(total, fat)) <= 129
  {
    RoundContracts(total, fat);
    if 12 <= k {
      SpreadAt(k);
    }
  }

  /** In the narrow band only the two oscillating residues are not fixed. */
  lemma NarrowBand(total: int, fat: int)
    requires -2 <= Distance(total, fat) <= 129
    ensures Required(total, fat) == fat <==> !Oscillates(total)
  {
    FixedExactly(total, fat);
  }

  lemma FixedNeverOscillates(total: int, fat: int)
    requires Required(total, fat) == fat
    ensures !Oscillates(total)
  {
    FixedExactly(total, fat);
  }

  lemma GeometryUnique(total: int, f: int, g: int, c: int, d: int)
    requires IsGeometry(total, f, c) && IsGeometry(total, g, d)
    ensures f == g && c == d
  {
  }

  /** What is known about the FAT size after k rounds without a fixed point. */
  ghost predicate Tracked(total: int, fat: int, k: nat) {
    && 1 <= fat && 0 < Clusters(total, fat)
    && -Spread(k) <= Distance(total, fat) <= Spread(k)
    && (13 <= k ==> -2 <= Distance(total, fat) <= 131)
    && (14 <= k ==> -2 <= Distance(total, fat) <= 129)
    && (15 <= k ==> Oscillates(total))
  }

  lemma TrackedStep(total: int, fat: int, k: nat)
    requires 35 <= total <= MAX_SECTORS && Tracked(total, fat, k) && Required(total, fat) != fat
    ensures Tracked(total, Required(total, fat), k + 1)
  {
    DataStaysPositive(total, fat);
    SpreadStep(total, fat, k);
    if 14 <= k {
      NarrowBand(total, fat);
    }
  }

  /** For the two bad residues two neighbouring sizes require each other. */
  lemma PairAlternates(total: int)
    requires Oscillates(total)
    ensures var f := (total - 30) / 130; Required(total, f) == f + 1 && Required(total, f + 1) == f
  {
    var f := (total - 30) / 130;
    assert -2 <= Distance(total, f) <= -1;
    RoundContracts(total, f);
    RoundContracts(total, f + 1);
  }

  /** In the narrow band a bad residue leaves only the two sizes of that pair. */
  lemma BandIsPair(total: int, fat: int)
    requires Oscillates(total) && -2 <= Distance(total, fat) <= 129
    ensures fat == (total - 30) / 130 || fat == (total - 30) / 130 + 1
  {
  }

  /** The size after k rounds, if no round stopped the iteration. */
  function Iterate(total: int, k: nat): int {
    if k == 0 then 1 else Required(total, Iterate(total, k - 1))
  }

  lemma {:induction false} IterateTracked(total: int, k: nat)
    requires 35 <= total <= MAX_SECTORS
    ensures Tracked(total, Iterate(total, k), k) || Required(total, Iterate(total, k)) == Iterate(total, k)
  {
    if k == 0 {
      TrackedAtStart(total);
    } else {
      IterateTracked(total, k - 1);
      if Required(total, Iterate(total, k - 1)) != Iterate(total, k - 1) {
        TrackedStep(total, Iterate(total, k - 1), k - 1);
      }
    }
  }

  /** After 14 rounds the size is a fixed point exactly for the other residues. */
  lemma SettlesUnlessBad(total: int, k: nat)
    requires 35 <= total <= MAX_SECTORS && 14 <= k
    ensures Required(total, Iterate(total, k)) == Iterate(total, k) <==> !Oscillates(total)
  {
    IterateTracked(total, k);
    if Required(total, Iterate(total, k)) == Iterate(total, k) {
      FixedNeverOscillates(total, Iterate(total, k));
    } else {
      NarrowBand(total, Iterate(total, k));
    }
  }

  /**
   * For the two bad residues the iteration from 1 enters the pair within 14
   * rounds and alternates between its two sizes for ever.
   */
  lemma TwoCycle(total: int, k: nat)
    requires 35 <= total <= MAX_SECTORS && Oscillates(total) && 14 <= k
    ensures var f := (total - 30) / 130;
      || (Iterate(total, k) == f && Iterate(total, k + 1) == f + 1)
      || (Iterate(total, k) == f + 1 && Iterate(total, k + 1) == f)
  {
    IterateTracked(total, k);
    SettlesUnlessBad(total, k);
    BandIsPair(total, Iterate(total, k));
    PairAlternates(total);
  }

  lemma FixedIsGeometry(total: int, fat: int)
    requires Required(total, fat) == fat && 0 < Clusters(total, fat)
    ensures IsGeometry(total, fat, Clusters(total, fat)) && !Oscillates(total)
  {
    FixedNeverOscillates(total, fat);
    FixedExactly(total, fat);
  }

  lemma TrackedAtStart(total: int)
    requires 35 <= total <= MAX_SECTORS
    ensures Tracked(total, 1, 0)
  {
  }

  /** The iteration. It converges within 32 rounds iff the size is not one of two residues modulo 130. */
  method ComputeGeometry(total: int) returns (r: Geometry)
    ensures total < 35 ==> r == TooSmall
    ensures 35 <= total <= MAX_SECTORS ==> if Oscillates(total) then r == NoConvergence else r.Fits?
    ensures r.Fits? ==> IsGeometry(total, r.fat, r.clusters)
  {
    var fat := 1;
    if 35 <= total <= MAX_SECTORS {
      TrackedAtStart(total);
    }
    for k := 0 to ROUNDS
      invariant k == 0 ==> fat == 1
      invariant total < 35 ==> k == 0
      invariant 35 <= total <= MAX_SECTORS ==> Tracked(total, fat, k)
    {
      var dataSectors := total - RESERVED_SECTORS - FAT_COUNT * fat;
      if dataSectors <= 0 {
        return TooSmall;
      }
      var clusters := dataSectors;
      var required := SectorsFor((clusters + 2) * 4);
      assert required == Required(total, fat);
      if required == fat {
        FixedIsGeometry(total, fat);
        return Fits(fat, clusters);
      }
      if 35 <= total <= MAX_SECTORS {
        TrackedStep(total, fat, k);
      }
      fat := required;
    }
    return NoConvergence;
  }
}
