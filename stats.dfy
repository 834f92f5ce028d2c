/**
 * The statistics panel (`updateStats`): how many entries are captured, the
 * completion percentage rounded to the nearest integer, how many remain, and
 * the colour band the percentage falls in.
 */
module Stats {

  import opened Pagination

  /** The four colours of the percentage, from complete down. */
  datatype Band = Complete | High | Half | Low

  datatype Summary = Summary(count: nat, percentage: int, remaining: int, band: Band)

  /**
   * `Math.round(count / 1025 * 100)` in integers: half-up rounding of
   * 100 * count / 1025. Ties never occur (see NoTie), so the floating-point
   * rounding of the source and this one agree.
   */
  function Percentage(count: nat): (p: nat)
    ensures 2050 * p <= 200 * count + 1025 < 2050 * (p + 1)
  {
    (200 * count + 1025) / 2050
  }

  /** 100 * count / 1025 is never exactly halfway between two integers. */
  lemma NoTie(count: nat, k: int)
    ensures 200 * count + 1025 != 2050 * k
  {
    // 8 * count would have to equal 82 * k - 41, an odd number
  }

  /** Percentage is the integer nearest to 100 * count / 1025, and the only one within a half. */
  lemma PercentageIsNearest(count: nat, q: int)
    requires 2050 * q - 1025 <= 200 * count <= 2050 * q + 1025
    ensures q == Percentage(count)
  {
    var p := Percentage(count);
    NoTie(count, q + 1);
    NoTie(count, p);
  }

  /** The percentage of a count within the catalog lies in [0, 100]. */
  lemma PercentageBounds(count: nat)
    requires count <= TotalPokemon
    ensures 0 <= Percentage(count) <= 100
  {
  }

  /** More captures never show a smaller percentage. */
  lemma PercentageMonotone(a: nat, b: nat)
    requires a <= b
    ensures Percentage(a) <= Percentage(b)
  {
  }

  /** The colour thresholds, tested from the top: >= 100, >= 75, >= 50, else. */
  function BandOf(percentage: int): (b: Band)
    ensures b == Complete <==> percentage >= 100
    ensures b == High <==> 75 <= percentage < 100
    ensures b == Half <==> 50 <= percentage < 75
    ensures b == Low <==> percentage < 50
  {
    if percentage >= 100 then Complete
    else if percentage >= 75 then High
    else if percentage >= 50 then Half
    else Low
  }

  /**
   * The same bands in terms of the capture count. Because of the rounding
   * the "complete" colour appears from 1020 captures on, while 5 remain.
   */
  lemma BandByCount(count: nat)
    ensures BandOf(Percentage(count)) == Complete <==> count >= 1020
    ensures BandOf(Percentage(count)) == High <==> 764 <= count < 1020
    ensures BandOf(Percentage(count)) == Half <==> 508 <= count < 764
    ensures BandOf(Percentage(count)) == Low <==> count < 508
  {
    var p := Percentage(count);
    assert p >= 100 <==> count >= 1020;
    assert p >= 75 <==> count >= 764;
    assert p >= 50 <==> count >= 508;
  }

  /** What `updateStats` writes into the panel for a capture set. */
  function StatsOf(captured: set<int>): (s: Summary)
    ensures s.count == |captured|
    ensures s.count + s.remaining == TotalPokemon
    ensures 2050 * s.percentage <= 200 * s.count + 1025 < 2050 * (s.percentage + 1)
    ensures s.band == BandOf(s.percentage)
  {
    var count := |captured|;
    var percentage := Percentage(count);
    Summary(count, percentage, TotalPokemon - count, BandOf(percentage))
  }

  /** The integers in [lo, hi). */
  ghost function Interval(lo: int, hi: int): (r: set<int>)
    ensures forall n :: n in r <==> lo <= n < hi
    decreases hi - lo
  {
    if lo >= hi then {} else Interval(lo, hi - 1) + {hi - 1}
  }

  lemma {:induction false} IntervalSize(lo: int, hi: int)
    requires lo <= hi
    ensures |Interval(lo, hi)| == hi - lo
    decreases hi - lo
  {
    if lo < hi {
      IntervalSize(lo, hi - 1);
      assert hi - 1 !in Interval(lo, hi - 1);
      assert Interval(lo, hi) == Interval(lo, hi - 1) + {hi - 1};
    }
  }

  /** The catalog's entry numbers 1..1025. */
  ghost function CatalogNumbers(): set<int>
  {
    Interval(1, TotalPokemon + 1)
  }

  /** A subset is no larger than its superset, and as large only when equal. */
  lemma SubsetSize(a: set<int>, b: set<int>)
    requires a <= b
    ensures |a| <= |b|
    ensures |a| == |b| ==> a == b
  {
    var rest := b - a;
    assert b == a + rest && a !! rest;
    if |a| == |b| {
      assert rest == {};
    }
  }

  /**
   * When every captured number is a catalog entry, the count is at most 1025:
   * nothing is negative in the panel and the percentage is at most 100.
   */
  lemma StatsWithinCatalog(captured: set<int>)
    requires captured <= CatalogNumbers()
    ensures 0 <= StatsOf(captured).remaining <= TotalPokemon
    ensures 0 <= StatsOf(captured).percentage <= 100
    ensures StatsOf(captured).remaining == 0 <==> captured == CatalogNumbers()
  {
    IntervalSize(1, TotalPokemon + 1);
    SubsetSize(captured, CatalogNumbers());
    PercentageBounds(|captured|);
  }
}
