/**
 * The value-level part of the statistical matcher (`StatisticalMatcher.java`):
 * per-keystroke timings, the per-position regular ranges computed from the
 * enrollment basis, the outlier count and score of a candidate sequence, and
 * the outlier scan and filter applied to the basis.
 *
 * The box-and-whisker calculator is a parameter `seq<int> -> RegularRange`:
 * the model takes its regular range as given and does not re-derive quartiles.
 */
module OutlierStatistics {
  import opened Failures

  /** The two measurements taken of one keystroke. */
  datatype Timing = Timing(dwell: int, flight: int)

  datatype Channel = Dwell | Flight

  function Measure(t: Timing, c: Channel): int {
    match c
    case Dwell => t.dwell
    case Flight => t.flight
  }

  /** The smallest and largest non-outlier values of one position's sample. */
  datatype RegularRange = RegularRange(minRegular: int, maxRegular: int)

  predicate Outside(v: int, r: RegularRange) {
    v < r.minRegular || v > r.maxRegular
  }

  /** Per-position regular ranges; the range for 1-based position p is at index p - 1. */
  datatype StatsTable = StatsTable(dwell: seq<RegularRange>, flight: seq<RegularRange>)

  /** The table has both ranges for every position 1..n. */
  predicate Covers(stats: StatsTable, n: nat) {
    n <= |stats.dwell| && n <= |stats.flight|
  }

  /** Outliers contributed by one keystroke: one per channel outside its range. */
  function PositionOutliers(t: Timing, dwell: RegularRange, flight: RegularRange): (n: nat)
    ensures n <= 2
    ensures n == 0 <==> !Outside(t.dwell, dwell) && !Outside(t.flight, flight)
    ensures n == 2 <==> Outside(t.dwell, dwell) && Outside(t.flight, flight)
  {
    (if Outside(t.dwell, dwell) then 1 else 0) + (if Outside(t.flight, flight) then 1 else 0)
  }

  /**
   * The outlier count of a sequence of timings against a table, positions
   * taken in order from 1. A position the table lacks is an error.
   */
  function OutlierCount(ts: seq<Timing>, stats: StatsTable): (r: Result<nat>)
    ensures r.Ok? <==> Covers(stats, |ts|)
    ensures r.Err? ==> r.error == MissingStatistics
    ensures r.Ok? ==> r.value <= 2 * |ts|
    decreases |ts|
  {
    if ts == [] then Ok(0)
    else
      var n := |ts|;
      var prefix := OutlierCount(ts[..n - 1], stats);
      if prefix.Err? then prefix
      else if !Covers(stats, n) then Err(MissingStatistics)
      else Ok(prefix.value + PositionOutliers(ts[n - 1], stats.dwell[n - 1], stats.flight[n - 1]))
  }

  /** Counting one more position adds that position's outliers. */
  lemma OutlierCountStep(ts: seq<Timing>, i: nat, stats: StatsTable, count: nat)
    requires i < |ts| && Covers(stats, i + 1)
    requires OutlierCount(ts[..i], stats) == Ok(count)
    ensures OutlierCount(ts[..i + 1], stats) ==
              Ok(count + PositionOutliers(ts[i], stats.dwell[i], stats.flight[i]))
  {
    assert ts[..i + 1][..i] == ts[..i];
  }

  /** The 0-based positions whose measurement on channel `c` lies outside its range. */
  function OutlierPositions(ts: seq<Timing>, ranges: seq<RegularRange>, c: Channel): (ps: set<nat>)
    requires |ts| <= |ranges|
    ensures forall p :: p in ps ==> p < |ts|
  {
    set p: nat | p < |ts| && Outside(Measure(ts[p], c), ranges[p])
  }

  /**
   * The count is the number of dwell outliers plus the number of flight
   * outliers, each counted as a set of positions.
   */
  lemma {:induction false} OutlierCountIsPositionCount(ts: seq<Timing>, stats: StatsTable)
    requires Covers(stats, |ts|)
    ensures OutlierCount(ts, stats).value ==
              |OutlierPositions(ts, stats.dwell, Dwell)| + |OutlierPositions(ts, stats.flight, Flight)|
    decreases |ts|
  {
    if ts != [] {
      var n := |ts|;
      var prefix := ts[..n - 1];
      OutlierCountIsPositionCount(prefix, stats);
      OutlierPositionsExtend(ts, stats.dwell, Dwell);
      OutlierPositionsExtend(ts, stats.flight, Flight);
    }
  }

  /** Extending the timings by one position adds that position or nothing. */
  lemma OutlierPositionsExtend(ts: seq<Timing>, ranges: seq<RegularRange>, c: Channel)
    requires 0 < |ts| <= |ranges|
    ensures var n := |ts|;
            var before := OutlierPositions(ts[..n - 1], ranges, c);
            OutlierPositions(ts, ranges, c) ==
              if Outside(Measure(ts[n - 1], c), ranges[n - 1]) then before + {n - 1} else before
  {
    var n := |ts|;
    var prefix := ts[..n - 1];
    assert forall p :: 0 <= p < n - 1 ==> prefix[p] == ts[p];
  }

  /** No outliers exactly when every position's dwell and flight lie within their ranges. */
  lemma {:induction false} NoOutliersIffAllRegular(ts: seq<Timing>, stats: StatsTable)
    requires Covers(stats, |ts|)
    ensures OutlierCount(ts, stats) == Ok(0) <==>
              forall p :: 0 <= p < |ts| ==>
                !Outside(ts[p].dwell, stats.dwell[p]) && !Outside(ts[p].flight, stats.flight[p])
    decreases |ts|
  {
    if ts != [] {
      var n := |ts|;
      var prefix := ts[..n - 1];
      NoOutliersIffAllRegular(prefix, stats);
      assert forall p :: 0 <= p < n - 1 ==> prefix[p] == ts[p];
    }
  }

  /**
   * The score of a candidate: one minus the share of outliers among the two
   * measurements taken at each sample point.
   */
  function StatisticalDistance(outliers: nat, samplePoints: nat): (d: real)
    requires samplePoints > 0
    ensures d <= 1.0
    ensures d == 1.0 <==> outliers == 0
  {
    1.0 - (outliers as real) / ((2 * samplePoints) as real)
  }

  /** With at most two outliers per sample point the score lies in [0, 1]. */
  lemma DistanceInUnitInterval(outliers: nat, samplePoints: nat)
    requires samplePoints > 0 && outliers <= 2 * samplePoints
    ensures 0.0 <= StatisticalDistance(outliers, samplePoints) <= 1.0
  {
    var q := (outliers as real) / ((2 * samplePoints) as real);
    assert q * ((2 * samplePoints) as real) == outliers as real;
  }

  /** Each further outlier strictly lowers the score. */
  lemma MoreOutliersLowerDistance(fewer: nat, more: nat, samplePoints: nat)
    requires samplePoints > 0 && fewer < more
    ensures StatisticalDistance(more, samplePoints) < StatisticalDistance(fewer, samplePoints)
  {
    var total := (2 * samplePoints) as real;
    var qf := (fewer as real) / total;
    var qm := (more as real) / total;
    assert qf * total == fewer as real;
    assert qm * total == more as real;
  }

  /** Outlier values reported for each 0-based position, one map per channel. */
  type OutlierSets = map<int, set<int>>

  /**
   * Scans positions from `i` in order and stops at the first one whose flight
   * or dwell is a reported outlier. At each position the flight set is
   * consulted first and the dwell set only when the flight is not an outlier;
   * a set that is consulted but absent is an error.
   */
  function ContainsOutlierFrom(ts: seq<Timing>, i: nat, flightOutliers: OutlierSets,
                               dwellOutliers: OutlierSets): (r: Result<bool>)
    requires i <= |ts|
    ensures r.Err? ==> r.error == MissingOutlierSet
    decreases |ts| - i
  {
    if i == |ts| then Ok(false)
    else if i !in flightOutliers then Err(MissingOutlierSet)
    else if ts[i].flight in flightOutliers[i] then Ok(true)
    else if i !in dwellOutliers then Err(MissingOutlierSet)
    else if ts[i].dwell in dwellOutliers[i] then Ok(true)
    else ContainsOutlierFrom(ts, i + 1, flightOutliers, dwellOutliers)
  }

  function ContainsOutlier(ts: seq<Timing>, flightOutliers: OutlierSets, dwellOutliers: OutlierSets): (r: Result<bool>)
    ensures r.Err? ==> r.error == MissingOutlierSet
  {
    ContainsOutlierFrom(ts, 0, flightOutliers, dwellOutliers)
  }

  /** Every position of the sequence has an outlier set on both channels. */
  predicate OutlierSetsCover(n: nat, flightOutliers: OutlierSets, dwellOutliers: OutlierSets) {
    forall p :: 0 <= p < n ==> p in flightOutliers && p in dwellOutliers
  }

  /**
   * When both maps cover every position, the scan reports whether some
   * position's flight or dwell is among that position's outliers.
   */
  lemma {:induction false} ContainsOutlierFromIsExists(ts: seq<Timing>, i: nat, fo: OutlierSets, dw: OutlierSets)
    requires i <= |ts| && OutlierSetsCover(|ts|, fo, dw)
    ensures ContainsOutlierFrom(ts, i, fo, dw) ==
              Ok(exists p :: i <= p < |ts| && (ts[p].flight in fo[p] || ts[p].dwell in dw[p]))
    decreases |ts| - i
  {
    if i < |ts| {
      ContainsOutlierFromIsExists(ts, i + 1, fo, dw);
    }
  }

  lemma ContainsOutlierIsExists(ts: seq<Timing>, fo: OutlierSets, dw: OutlierSets)
    requires OutlierSetsCover(|ts|, fo, dw)
    ensures ContainsOutlier(ts, fo, dw) ==
              Ok(exists p :: 0 <= p < |ts| && (ts[p].flight in fo[p] || ts[p].dwell in dw[p]))
  {
    ContainsOutlierFromIsExists(ts, 0, fo, dw);
  }

  /** The number of flagged entries. */
  function CountFlagged(flags: seq<bool>): (n: nat)
    ensures n <= |flags|
  {
    if flags == [] then 0
    else CountFlagged(flags[..|flags| - 1]) + (if flags[|flags| - 1] then 1 else 0)
  }

  /** The entries of `xs` whose flag is not set, in their original order. */
  function Unflagged<T>(xs: seq<T>, flags: seq<bool>): seq<T>
    requires |flags| == |xs|
  {
    if xs == [] then []
    else
      var n := |xs|;
      Unflagged(xs[..n - 1], flags[..n - 1]) + (if flags[n - 1] then [] else [xs[n - 1]])
  }

  /** The kept entries number exactly the entries minus the flagged ones. */
  lemma {:induction false} UnflaggedLength<T>(xs: seq<T>, flags: seq<bool>)
    requires |flags| == |xs|
    ensures |Unflagged(xs, flags)| == |xs| - CountFlagged(flags)
    decreases |xs|
  {
    if xs != [] {
      UnflaggedLength(xs[..|xs| - 1], flags[..|xs| - 1]);
    }
  }

  /** Appending one entry keeps it exactly when its flag is not set. */
  lemma UnflaggedSnoc<T>(xs: seq<T>, flags: seq<bool>, x: T, f: bool)
    requires |flags| == |xs|
    ensures Unflagged(xs + [x], flags + [f]) == Unflagged(xs, flags) + (if f then [] else [x])
  {
    assert (xs + [x])[..|xs|] == xs;
    assert (flags + [f])[..|xs|] == flags;
  }

  /** The inductive step of `UnflaggedAppend`: one more entry at the end of the right part. */
  lemma UnflaggedAppendStep<T>(a: seq<T>, fa: seq<bool>, b: seq<T>, fb: seq<bool>, x: T, f: bool)
    requires |fa| == |a| && |fb| == |b|
    requires Unflagged(a + b, fa + fb) == Unflagged(a, fa) + Unflagged(b, fb)
    ensures Unflagged(a + (b + [x]), fa + (fb + [f])) == Unflagged(a, fa) + Unflagged(b + [x], fb + [f])
  {
    ConcatAssoc(a, b, [x]);
    ConcatAssoc(fa, fb, [f]);
    UnflaggedSnoc(a + b, fa + fb, x, f);
    UnflaggedSnoc(b, fb, x, f);
    ConcatAssoc(Unflagged(a, fa), Unflagged(b, fb), if f then [] else [x]);
  }

  lemma ConcatAssoc<T>(p: seq<T>, q: seq<T>, r: seq<T>)
    ensures (p + q) + r == p + (q + r)
  {
  }

  /** Filtering distributes over concatenation, so relative order is kept. */
  lemma {:induction false} UnflaggedAppend<T>(a: seq<T>, fa: seq<bool>, b: seq<T>, fb: seq<bool>)
    requires |fa| == |a| && |fb| == |b|
    ensures Unflagged(a + b, fa + fb) == Unflagged(a, fa) + Unflagged(b, fb)
    decreases |b|
  {
    if b == [] {
      assert a + b == a && fa + fb == fa;
    } else {
      var m := |b|;
      var front, flagsFront := b[..m - 1], fb[..m - 1];
      assert b == front + [b[m - 1]] && fb == flagsFront + [fb[m - 1]];
      UnflaggedAppend(a, fa, front, flagsFront);
      UnflaggedAppendStep(a, fa, front, flagsFront, b[m - 1], fb[m - 1]);
    }
  }

  /** An entry is kept exactly when some occurrence of it is unflagged. */
  lemma {:induction false} UnflaggedMembers<T>(xs: seq<T>, flags: seq<bool>, x: T)
    requires |flags| == |xs|
    ensures x in Unflagged(xs, flags) <==> exists i :: 0 <= i < |xs| && xs[i] == x && !flags[i]
    decreases |xs|
  {
    if xs != [] {
      var n := |xs|;
      UnflaggedMembers(xs[..n - 1], flags[..n - 1], x);
      if exists i :: 0 <= i < n && xs[i] == x && !flags[i] {
        var i :| 0 <= i < n && xs[i] == x && !flags[i];
        if i < n - 1 {
          assert xs[..n - 1][i] == x && flags[..n - 1][i] == flags[i];
        }
      }
    }
  }

  /** With nothing flagged all entries are kept; with everything flagged none are. */
  lemma {:induction false} UnflaggedExtremes<T>(xs: seq<T>, flags: seq<bool>)
    requires |flags| == |xs|
    ensures (forall i :: 0 <= i < |flags| ==> !flags[i]) ==> Unflagged(xs, flags) == xs
    ensures (forall i :: 0 <= i < |flags| ==> flags[i]) ==> Unflagged(xs, flags) == []
    decreases |xs|
  {
    if xs != [] {
      var n := |xs|;
      UnflaggedExtremes(xs[..n - 1], flags[..n - 1]);
      assert xs[..n - 1] + [xs[n - 1]] == xs;
    }
  }

  /** The columns of measurements at 0-based position `i`, one per basis entry. */
  function Column(basis: seq<seq<Timing>>, i: nat, c: Channel): (sample: seq<int>)
    requires forall j :: 0 <= j < |basis| ==> i < |basis[j]|
    ensures |sample| == |basis|
    ensures forall j :: 0 <= j < |basis| ==> sample[j] == Measure(basis[j][i], c)
  {
    if basis == [] then []
    else Column(basis[..|basis| - 1], i, c) + [Measure(basis[|basis| - 1][i], c)]
  }

  /** Every basis entry has at least `samplePoints` keystrokes. */
  predicate LongEnough(basis: seq<seq<Timing>>, samplePoints: nat) {
    forall j :: 0 <= j < |basis| ==> samplePoints <= |basis[j]|
  }

  /**
   * The per-position regular ranges of one channel: position by position, the
   * calculator applied to that position's column. A basis entry too short to
   * have a position is an error.
   */
  function Analysis(basis: seq<seq<Timing>>, samplePoints: nat, c: Channel,
                    calculator: seq<int> -> RegularRange): (r: Result<seq<RegularRange>>)
    ensures r.Ok? <==> LongEnough(basis, samplePoints)
    ensures r.Err? ==> r.error == MissingPosition
    ensures r.Ok? ==> |r.value| == samplePoints
    decreases samplePoints
  {
    if samplePoints == 0 then Ok([])
    else
      var before := Analysis(basis, samplePoints - 1, c, calculator);
      if before.Err? then before
      else if !LongEnough(basis, samplePoints) then Err(MissingPosition)
      else Ok(before.value + [calculator(Column(basis, samplePoints - 1, c))])
  }

  /** Position `i` of an analysis is the calculator's range for column `i`. */
  lemma {:induction false} AnalysisAt(basis: seq<seq<Timing>>, samplePoints: nat, c: Channel,
                                      calculator: seq<int> -> RegularRange, i: nat)
    requires LongEnough(basis, samplePoints) && i < samplePoints
    ensures Analysis(basis, samplePoints, c, calculator).value[i] == calculator(Column(basis, i, c))
    decreases samplePoints
  {
    if i < samplePoints - 1 {
      AnalysisAt(basis, samplePoints - 1, c, calculator, i);
    }
  }

  /**
   * The statistics recomputed from a basis: both channels analysed, or none
   * at all for an empty basis.
   */
  function Recalculated(basis: seq<seq<Timing>>, samplePoints: nat,
                        calculator: seq<int> -> RegularRange): (r: Result<StatsTable>)
    ensures basis == [] ==> r == Ok(StatsTable([], []))
    ensures r.Ok? <==> LongEnough(basis, samplePoints)
    ensures r.Err? ==> r.error == MissingPosition
    ensures basis != [] && r.Ok? ==> |r.value.dwell| == samplePoints && |r.value.flight| == samplePoints
  {
    if basis == [] then Ok(StatsTable([], []))
    else
      var dwell := Analysis(basis, samplePoints, Dwell, calculator);
      var flight := Analysis(basis, samplePoints, Flight, calculator);
      match (dwell, flight)
      case (Ok(d), Ok(f)) => Ok(StatsTable(d, f))
      case _ => Err(MissingPosition)
  }

  /**
   * Statistics from an empty basis cover no position, so a candidate with at
   * least one keystroke cannot be scored against them.
   */
  lemma EmptyBasisScoresNothing(ts: seq<Timing>, samplePoints: nat, calculator: seq<int> -> RegularRange)
    requires ts != []
    ensures OutlierCount(ts, Recalculated([], samplePoints, calculator).value) == Err(MissingStatistics)
  {
  }
}
