/**
 * The enrollment basis and timing matcher (`StatisticalMatcher.java`). It
 * holds the passphrase gate, the captured sequences of the basis, the
 * per-position dwell and flight ranges computed from them, a flag saying the
 * ranges are stale, and the number of basis sequences filtered out so far.
 *
 * Each basis entry is a snapshot of a captured sequence: its text and the
 * dwell and flight time of each of its records, taken when it is added. A
 * candidate being scored is read from its records directly.
 */
module StatisticalMatchers {
  import opened Failures
  import opened Keystrokes
  import opened Sequences
  import opened PhraseMatchers
  import opened OutlierStatistics

  /** The measurements of one record (the dwell and flight visitors). */
  function TimingOf(k: Keystroke): Timing
    reads k, k.prior
  {
    Timing(k.DwellTime(), k.FlightTime())
  }

  /** The records of a chain together with their priors. */
  ghost function RecordsFrame(ks: seq<Keystroke>): set<object>
    reads set k | k in ks
  {
    (set k | k in ks :: k as object) + (set k | k in ks && k.prior != null :: k.prior as object)
  }

  /** The measurements of a chain of records, position by position. */
  ghost function TimingsOf(ks: seq<Keystroke>): (ts: seq<Timing>)
    reads RecordsFrame(ks)
    ensures |ts| == |ks|
    ensures forall i :: 0 <= i < |ks| ==> ts[i] == TimingOf(ks[i])
    decreases |ks|
  {
    if ks == [] then [] else TimingsOf(ks[..|ks| - 1]) + [TimingOf(ks[|ks| - 1])]
  }

  /** One basis entry: a captured sequence's text and its records' measurements. */
  datatype Sample = Sample(capturedValue: string, timings: seq<Timing>)

  /** The measurements of every basis entry, in basis order. */
  function BasisTimings(basis: seq<Sample>): (bt: seq<seq<Timing>>)
    ensures |bt| == |basis|
    ensures forall j :: 0 <= j < |basis| ==> bt[j] == basis[j].timings
  {
    seq(|basis|, j requires 0 <= j < |basis| => basis[j].timings)
  }

  /** Takes the snapshot of a sequence, measuring its records in order. */
  method Snapshot(s: KeystrokeSequence) returns (sample: Sample)
    ensures sample == Sample(old(s.capturedValue), old(TimingsOf(s.keystrokes)))
  {
    var ks := s.keystrokes;
    ghost var ts := TimingsOf(ks);
    var timings: seq<Timing> := [];
    for i := 0 to |ks|
      invariant timings == ts[..i]
    {
      var k := ks[i];
      var t := Timing(k.DwellTime(), k.FlightTime());
      assert ts[i] == t;
      timings := timings + [t];
    }
    assert ts[..|ks|] == ts;
    sample := Sample(s.capturedValue, timings);
  }

  /** The score of a candidate's timings, given the statistics it is judged against. */
  function Score(ts: seq<Timing>, stats: Result<StatsTable>, samplePoints: nat): (r: Result<real>)
    requires samplePoints > 0
    ensures stats.Ok? && r.Ok? ==> (r.value == EXACT_MATCH <==> OutlierCount(ts, stats.value) == Ok(0))
    ensures stats.Err? ==> r == Err(stats.error)
    ensures stats.Ok? ==> (r.Ok? <==> Covers(stats.value, |ts|))
  {
    match stats
    case Err(e) => Err(e)
    case Ok(table) =>
      match OutlierCount(ts, table)
      case Err(e) => Err(e)
      case Ok(n) => Ok(StatisticalDistance(n, samplePoints))
  }

  /** Whether each basis entry contains an outlier; the first failing scan is the error. */
  function OutlierFlags(basis: seq<seq<Timing>>, fo: OutlierSets, dw: OutlierSets): (r: Result<seq<bool>>)
    ensures r.Ok? <==> forall j :: 0 <= j < |basis| ==> ContainsOutlier(basis[j], fo, dw).Ok?
    ensures r.Err? ==> r.error == MissingOutlierSet
    ensures r.Ok? ==> |r.value| == |basis|
    ensures r.Ok? ==> forall j :: 0 <= j < |basis| ==> ContainsOutlier(basis[j], fo, dw) == Ok(r.value[j])
  {
    if basis == [] then Ok([])
    else
      var n := |basis|;
      match OutlierFlags(basis[..n - 1], fo, dw)
      case Err(e) => Err(e)
      case Ok(flags) =>
        match ContainsOutlier(basis[n - 1], fo, dw)
        case Err(e) => Err(e)
        case Ok(b) => Ok(flags + [b])
  }

  /**
   * Scans one sequence's records in order for a reported outlier, stopping at
   * the first one found (the inner loop of `filterOutliers`).
   */
  method SequenceContainsOutlier(s: Sample, fo: OutlierSets, dw: OutlierSets) returns (r: Result<bool>)
    ensures r == ContainsOutlier(s.timings, fo, dw)
  {
    var ts := s.timings;
    var found := false;
    var i := 0;
    while i < |ts| && !found
      invariant 0 <= i <= |ts|
      invariant found ==> ContainsOutlier(ts, fo, dw) == Ok(true)
      invariant !found ==> ContainsOutlier(ts, fo, dw) == ContainsOutlierFrom(ts, i, fo, dw)
      decreases |ts| - i
    {
      if i !in fo {
        return Err(MissingOutlierSet);
      }
      if ts[i].flight in fo[i] {
        found := true;
      } else {
        if i !in dw {
          return Err(MissingOutlierSet);
        }
        if ts[i].dwell in dw[i] {
          found := true;
        }
      }
      i := i + 1;
    }
    r := Ok(found);
  }

  /**
   * The measurements at 0-based position `i` across the basis, in basis order
   * (the inner loop of `analyzeData`); a sequence without that position is an error.
   */
  method ColumnSample(basis: seq<Sample>, i: nat, c: Channel) returns (r: Result<seq<int>>)
    ensures var bt := BasisTimings(basis);
            && (r.Ok? <==> forall j :: 0 <= j < |bt| ==> i < |bt[j]|)
            && (r.Ok? ==> r.value == Column(bt, i, c))
            && (r.Err? ==> r.error == MissingPosition)
  {
    var bt := BasisTimings(basis);
    var sample: seq<int> := [];
    for j := 0 to |basis|
      invariant forall m :: 0 <= m < j ==> i < |bt[m]|
      invariant sample == Column(bt[..j], i, c)
    {
      if i >= |basis[j].timings| {
        return Err(MissingPosition);
      }
      assert bt[..j + 1][..j] == bt[..j];
      sample := sample + [Measure(basis[j].timings[i], c)];
    }
    assert bt[..|basis|] == bt;
    r := Ok(sample);
  }

  /**
   * Counts the outliers of a chain of records against a table, position by
   * position from 1 (the loop of `getNumberOfOutliers`).
   */
  method CountOutliers(ks: seq<Keystroke>, table: StatsTable) returns (r: Result<nat>)
    ensures r == OutlierCount(old(TimingsOf(ks)), table)
  {
    ghost var ts := TimingsOf(ks);
    var count: nat := 0;
    for i := 0 to |ks|
      invariant OutlierCount(ts[..i], table) == Ok(count)
    {
      if !Covers(table, i + 1) {
        assert !Covers(table, |ts|);
        return Err(MissingStatistics);
      }
      var k := ks[i];
      var dwell, flight := k.DwellTime(), k.FlightTime();
      var dwellRange, flightRange := table.dwell[i], table.flight[i];
      assert ts[i] == Timing(dwell, flight);
      OutlierCountStep(ts, i, table, count);
      if dwell < dwellRange.minRegular || dwell > dwellRange.maxRegular {
        count := count + 1;
      }
      if flight < flightRange.minRegular || flight > flightRange.maxRegular {
        count := count + 1;
      }
    }
    assert ts[..|ks|] == ts;
    r := Ok(count);
  }

  /** Position `i` of every basis entry is present: the next position can be analysed. */
  lemma AnalysisStep(bt: seq<seq<Timing>>, i: nat, c: Channel, calculator: seq<int> -> RegularRange,
                     result: seq<RegularRange>)
    requires Analysis(bt, i, c, calculator) == Ok(result)
    requires forall j :: 0 <= j < |bt| ==> i < |bt[j]|
    ensures Analysis(bt, i + 1, c, calculator) == Ok(result + [calculator(Column(bt, i, c))])
  {
    assert LongEnough(bt, i + 1);
  }

  /**
   * The ranges of one channel (`analyzeData`): for each position, the
   * calculator applied to that position's measurements across the basis.
   */
  method AnalyzeBasis(basis: seq<Sample>, samplePoints: nat, c: Channel,
                      calculator: seq<int> -> RegularRange) returns (r: Result<seq<RegularRange>>)
    ensures r == Analysis(BasisTimings(basis), samplePoints, c, calculator)
  {
    var bt := BasisTimings(basis);
    var result: seq<RegularRange> := [];
    for i := 0 to samplePoints
      invariant Analysis(bt, i, c, calculator) == Ok(result)
    {
      var sample := ColumnSample(basis, i, c);
      if sample.Err? {
        assert !LongEnough(bt, samplePoints);
        return Err(MissingPosition);
      }
      AnalysisStep(bt, i, c, calculator, result);
      result := result + [calculator(sample.value)];
    }
    r := Ok(result);
  }

  /** Flags that agree with every entry's scan are the flags of the basis. */
  lemma OutlierFlagsFromScans(basis: seq<Sample>, fo: OutlierSets, dw: OutlierSets, flags: seq<bool>)
    requires |flags| == |basis|
    requires forall j :: 0 <= j < |basis| ==> ContainsOutlier(basis[j].timings, fo, dw) == Ok(flags[j])
    ensures OutlierFlags(BasisTimings(basis), fo, dw) == Ok(flags)
  {
    var bt := BasisTimings(basis);
    assert forall j :: 0 <= j < |bt| ==> ContainsOutlier(bt[j], fo, dw).Ok?;
    var r := OutlierFlags(bt, fo, dw);
    assert forall j :: 0 <= j < |bt| ==> r.value[j] == flags[j];
    assert r.value == flags;
  }

  /** One entry whose scan fails makes the flags of the whole basis fail. */
  lemma OutlierFlagsFailAt(basis: seq<Sample>, j: nat, fo: OutlierSets, dw: OutlierSets)
    requires j < |basis| && ContainsOutlier(basis[j].timings, fo, dw).Err?
    ensures OutlierFlags(BasisTimings(basis), fo, dw).Err?
  {
    assert BasisTimings(basis)[j] == basis[j].timings;
  }

  /**
   * The first `j` basis entries have been scanned: `flags` holds their scan
   * results and `kept` the unflagged ones among them.
   */
  ghost predicate ScannedPrefix(basis: seq<Sample>, j: nat, fo: OutlierSets, dw: OutlierSets,
                                flags: seq<bool>, kept: seq<Sample>)
  {
    && j <= |basis| && |flags| == j
    && (forall m :: 0 <= m < j ==> ContainsOutlier(basis[m].timings, fo, dw) == Ok(flags[m]))
    && kept == Unflagged(basis[..j], flags)
  }

  /** Scanning one more entry extends the flags by its result and keeps it when unflagged. */
  lemma ScannedPrefixStep(basis: seq<Sample>, j: nat, fo: OutlierSets, dw: OutlierSets,
                          flags: seq<bool>, kept: seq<Sample>, b: bool)
    requires ScannedPrefix(basis, j, fo, dw, flags, kept) && j < |basis|
    requires ContainsOutlier(basis[j].timings, fo, dw) == Ok(b)
    ensures ScannedPrefix(basis, j + 1, fo, dw, flags + [b], kept + (if b then [] else [basis[j]]))
  {
    assert basis[..j + 1] == basis[..j] + [basis[j]];
    UnflaggedSnoc(basis[..j], flags, basis[j], b);
  }

  /** A scan of the whole basis yields the flags of the basis and the unflagged entries. */
  lemma ScannedWhole(basis: seq<Sample>, fo: OutlierSets, dw: OutlierSets, flags: seq<bool>, kept: seq<Sample>)
    requires ScannedPrefix(basis, |basis|, fo, dw, flags, kept)
    ensures OutlierFlags(BasisTimings(basis), fo, dw) == Ok(flags)
    ensures kept == Unflagged(basis, flags)
  {
    OutlierFlagsFromScans(basis, fo, dw, flags);
    assert basis[..|basis|] == basis;
  }

  /**
   * The basis entries without a reported outlier, in basis order (the outer
   * loop of `filterOutliers`).
   */
  method KeepOutlierFree(basis: seq<Sample>, fo: OutlierSets, dw: OutlierSets)
    returns (r: Result<seq<Sample>>)
    ensures var flags := OutlierFlags(BasisTimings(basis), fo, dw);
            && (flags.Err? ==> r == Err(MissingOutlierSet))
            && (flags.Ok? ==> r == Ok(Unflagged(basis, flags.value)))
  {
    var filtered: seq<Sample> := [];
    ghost var flags: seq<bool> := [];
    assert basis[..0] == [];
    for j := 0 to |basis|
      invariant ScannedPrefix(basis, j, fo, dw, flags, filtered)
    {
      var contains := SequenceContainsOutlier(basis[j], fo, dw);
      if contains.Err? {
        OutlierFlagsFailAt(basis, j, fo, dw);
        return Err(contains.error);
      }
      ScannedPrefixStep(basis, j, fo, dw, flags, filtered, contains.value);
      flags := flags + [contains.value];
      if !contains.value {
        filtered := filtered + [basis[j]];
      }
    }
    ScannedWhole(basis, fo, dw, flags, filtered);
    r := Ok(filtered);
  }

  /** Some position's flight or dwell is among the outliers reported for that position. */
  predicate HasReportedOutlier(ts: seq<Timing>, fo: OutlierSets, dw: OutlierSets) {
    exists p :: 0 <= p < |ts| && ((p in fo && ts[p].flight in fo[p]) || (p in dw && ts[p].dwell in dw[p]))
  }

  /**
   * When every basis entry has outlier sets for all its positions, filtering
   * succeeds and keeps an entry exactly when it has no reported outlier.
   */
  lemma FilterKeepsExactlyTheOutlierFree(basis: seq<Sample>, fo: OutlierSets, dw: OutlierSets, s: Sample)
    requires forall j :: 0 <= j < |basis| ==> OutlierSetsCover(|basis[j].timings|, fo, dw)
    ensures OutlierFlags(BasisTimings(basis), fo, dw).Ok?
    ensures s in Unflagged(basis, OutlierFlags(BasisTimings(basis), fo, dw).value) <==>
              s in basis && !HasReportedOutlier(s.timings, fo, dw)
  {
    var bt := BasisTimings(basis);
    forall j | 0 <= j < |bt|
      ensures ContainsOutlier(bt[j], fo, dw) == Ok(HasReportedOutlier(bt[j], fo, dw))
    {
      ContainsOutlierIsExists(bt[j], fo, dw);
    }
    var flags := OutlierFlags(bt, fo, dw).value;
    UnflaggedMembers(basis, flags, s);
  }

  class StatisticalMatcher {
    var username: string
    var internalTemplate: ExactPhraseMatcher
    var samplePoints: nat
    var templateBasis: seq<Sample>
    var dwellStats: seq<RegularRange>
    var flightStats: seq<RegularRange>
    var statsDirty: bool
    var numberOfFilteredTemplates: nat
    const boxAndWhisker: seq<int> -> RegularRange

    /**
     * The gate's phrase is not empty and fixes the number of sample points;
     * fresh statistics have one range per sample point, or none.
     */
    ghost predicate Valid()
      reads this
    {
      && internalTemplate.phrase != ""
      && samplePoints == |internalTemplate.phrase|
      && (!statsDirty ==> |dwellStats| == |flightStats| <= samplePoints)
    }

    /** Enrollment from scratch (`initialize`), once the gate accepted the phrase. */
    constructor Enroll(username: string, password: string, boxAndWhisker: seq<int> -> RegularRange)
      requires password != ""
      ensures Valid()
      ensures this.username == username && GetTextToMatch() == password && samplePoints == |password|
      ensures templateBasis == [] && statsDirty && numberOfFilteredTemplates == 0
      ensures dwellStats == [] && flightStats == []
      ensures this.boxAndWhisker == boxAndWhisker
    {
      this.username := username;
      internalTemplate := ExactPhraseMatcher(password);
      samplePoints := |password|;
      templateBasis := [];
      dwellStats := [];
      flightStats := [];
      statsDirty := true;
      numberOfFilteredTemplates := 0;
      this.boxAndWhisker := boxAndWhisker;
    }

    /** The constructor taking a username and a password; the gate rejects a null or empty one. */
    static method Create(username: string, password: Option<string>, boxAndWhisker: seq<int> -> RegularRange)
      returns (r: Result<StatisticalMatcher>)
      ensures NewExactPhraseMatcher(password).Err? ==> r == Err(NewExactPhraseMatcher(password).error)
      ensures password.Some? && password.value != "" ==> r.Ok? && fresh(r.value)
      ensures r.Ok? ==> r.value.Valid() && r.value.GetTextToMatch() == password.value
      ensures r.Ok? ==> r.value.templateBasis == [] && r.value.statsDirty && r.value.numberOfFilteredTemplates == 0
    {
      var gate := NewExactPhraseMatcher(password);
      if gate.Err? {
        return Err(gate.error);
      }
      var m := new StatisticalMatcher.Enroll(username, password.value, boxAndWhisker);
      r := Ok(m);
    }

    /**
     * The constructor taking only a username, given the basis it restores. An
     * empty basis is an error; otherwise the passphrase is the text of the
     * first stored sequence.
     */
    static method Restore(username: string, stored: seq<Sample>, boxAndWhisker: seq<int> -> RegularRange)
      returns (r: Result<StatisticalMatcher>)
      ensures stored == [] ==> r == Err(EmptyBasis)
      ensures stored != [] && stored[0].capturedValue == "" ==> r == Err(EmptyPhrase)
      ensures r.Ok? <==> stored != [] && stored[0].capturedValue != ""
      ensures r.Ok? ==> fresh(r.value) && r.value.Valid()
      ensures r.Ok? ==> r.value.templateBasis == stored && r.value.statsDirty
      ensures r.Ok? ==> r.value.GetTextToMatch() == stored[0].capturedValue
      ensures r.Ok? ==> r.value.samplePoints == |stored[0].capturedValue|
    {
      if stored == [] {
        return Err(EmptyBasis);
      }
      var password := stored[0].capturedValue;
      if password == "" {
        return Err(EmptyPhrase);
      }
      var m := new StatisticalMatcher.Enroll(username, password, boxAndWhisker);
      m.templateBasis := stored;
      r := Ok(m);
    }

    /** Adds a snapshot of a captured sequence to the basis; the statistics become stale. */
    method AddSequence(sequence: KeystrokeSequence)
      requires Valid()
      modifies this`templateBasis, this`statsDirty
      ensures Valid() && statsDirty
      ensures templateBasis == old(templateBasis) + [Sample(old(sequence.capturedValue), old(TimingsOf(sequence.keystrokes)))]
      ensures GetNumberOfTemplatesCaptured() == old(GetNumberOfTemplatesCaptured()) + 1
    {
      var sample := Snapshot(sequence);
      templateBasis := templateBasis + [sample];
      statsDirty := true;
    }

    /** How many samples the basis holds now: enrolments less those filtered out. */
    function GetNumberOfTemplatesCaptured(): (n: nat)
      reads this
      ensures n == |templateBasis|
    {
      |templateBasis|
    }

    /** How many samples outlier filtering has dropped since enrolment. */
    function GetNumberOfFilteredTemplates(): (n: nat)
      reads this
      ensures n == numberOfFilteredTemplates
    {
      numberOfFilteredTemplates
    }

    /** The passphrase; its length is the number of sample points. */
    function GetTextToMatch(): (p: string)
      reads this
      ensures p == internalTemplate.GetTextToMatch()
      ensures Valid() ==> p != "" && |p| == samplePoints
    {
      internalTemplate.GetTextToMatch()
    }

    /**
     * The ranges of one channel: for each position, the calculator applied to
     * that position's measurements across the basis.
     */
    method AnalyzeData(c: Channel) returns (r: Result<seq<RegularRange>>)
      ensures r == Analysis(BasisTimings(templateBasis), samplePoints, c, boxAndWhisker)
    {
      r := AnalyzeBasis(templateBasis, samplePoints, c, boxAndWhisker);
    }

    /**
     * Recomputes both channels' ranges from the basis (none for an empty
     * basis) and marks them fresh; a basis sequence too short for some
     * position leaves them cleared and the flag as it was.
     */
    method RecalculateStats() returns (r: Outcome)
      requires Valid()
      modifies this`dwellStats, this`flightStats, this`statsDirty
      ensures Valid()
      ensures var rc := old(Recalculated(BasisTimings(templateBasis), samplePoints, boxAndWhisker));
              && (rc.Ok? ==> r == Pass && !statsDirty && dwellStats == rc.value.dwell && flightStats == rc.value.flight)
              && (rc.Err? ==> r == Raise(rc.error) && statsDirty == old(statsDirty) && dwellStats == [] && flightStats == [])
    {
      if templateBasis == [] {
        dwellStats, flightStats := [], [];
        statsDirty := false;
        return Pass;
      }
      var dwell := AnalyzeData(Dwell);
      if dwell.Err? {
        dwellStats, flightStats := [], [];
        return Raise(dwell.error);
      }
      var flight := AnalyzeData(Flight);
      assert flight.Ok?;
      dwellStats, flightStats := dwell.value, flight.value;
      statsDirty := false;
      r := Pass;
    }

    /** The statistics a reader sees: the stored ones when fresh, recomputed ones when stale. */
    ghost function CurrentStats(): Result<StatsTable>
      reads this
    {
      if statsDirty then Recalculated(BasisTimings(templateBasis), samplePoints, boxAndWhisker)
      else Ok(StatsTable(dwellStats, flightStats))
    }

    /** The stored statistics after a read that refreshed them from `stats`. */
    twostate predicate RefreshedTo(stats: Result<StatsTable>)
      reads this
    {
      && templateBasis == old(templateBasis)
      && (stats.Ok? ==> !statsDirty && dwellStats == stats.value.dwell && flightStats == stats.value.flight)
      && (stats.Err? ==> statsDirty && dwellStats == [] && flightStats == [])
    }

    /** The dwell ranges, recomputed first when stale. */
    method GetDwellTimeStatistics() returns (r: Result<seq<RegularRange>>)
      requires Valid()
      modifies this`dwellStats, this`flightStats, this`statsDirty
      ensures Valid() && RefreshedTo(old(CurrentStats()))
      ensures r == match old(CurrentStats()) { case Ok(t) => Ok(t.dwell) case Err(e) => Err(e) }
    {
      if statsDirty {
        var done := RecalculateStats();
        if done.Raise? {
          return Err(done.error);
        }
      }
      r := Ok(dwellStats);
    }

    /** The flight ranges, recomputed first when stale. */
    method GetFlightTimeStatistics() returns (r: Result<seq<RegularRange>>)
      requires Valid()
      modifies this`dwellStats, this`flightStats, this`statsDirty
      ensures Valid() && RefreshedTo(old(CurrentStats()))
      ensures r == match old(CurrentStats()) { case Ok(t) => Ok(t.flight) case Err(e) => Err(e) }
    {
      if statsDirty {
        var done := RecalculateStats();
        if done.Raise? {
          return Err(done.error);
        }
      }
      r := Ok(flightStats);
    }

    /** The table of both channels' ranges keyed by 1-based position, read through the getters. */
    method GenerateStats() returns (r: Result<StatsTable>)
      requires Valid()
      modifies this`dwellStats, this`flightStats, this`statsDirty
      ensures Valid() && RefreshedTo(old(CurrentStats()))
      ensures r == old(CurrentStats())
      ensures r.Ok? ==> |r.value.dwell| == |r.value.flight| <= samplePoints
    {
      var dwell := GetDwellTimeStatistics();
      if dwell.Err? {
        return Err(dwell.error);
      }
      var flight := GetFlightTimeStatistics();
      assert flight.Ok?;
      r := Ok(StatsTable(dwell.value, flight.value));
    }

    /**
     * Counts, position by position from 1, one outlier per keystroke whose
     * dwell lies outside that position's dwell range and one per keystroke
     * whose flight lies outside its flight range.
     */
    method NumberOfOutliers(sequence: KeystrokeSequence) returns (r: Result<nat>)
      requires Valid()
      modifies this`dwellStats, this`flightStats, this`statsDirty
      ensures Valid() && RefreshedTo(old(CurrentStats()))
      ensures r == match old(CurrentStats()) {
                     case Err(e) => Err(e)
                     case Ok(t) => OutlierCount(old(TimingsOf(sequence.keystrokes)), t) }
    {
      var ks := sequence.keystrokes;
      ghost var ts := TimingsOf(ks);
      var stats := GenerateStats();
      if stats.Err? {
        return Err(stats.error);
      }
      assert TimingsOf(ks) == ts;
      r := CountOutliers(ks, stats.value);
    }

    /** The timing score of a candidate, from its outlier count. */
    method GetStatisticalDistance(sequence: KeystrokeSequence) returns (r: Result<real>)
      requires Valid()
      modifies this`dwellStats, this`flightStats, this`statsDirty
      ensures Valid() && RefreshedTo(old(CurrentStats()))
      ensures r == Score(old(TimingsOf(sequence.keystrokes)), old(CurrentStats()), samplePoints)
      ensures r.Ok? ==> 0.0 <= r.value <= 1.0
    {
      var outliers := NumberOfOutliers(sequence);
      if outliers.Err? {
        return Err(outliers.error);
      }
      DistanceInUnitInterval(outliers.value, samplePoints);
      r := Ok(StatisticalDistance(outliers.value, samplePoints));
    }

    /**
     * The distance of a candidate: NO_MATCH, with nothing recomputed, when its
     * text is not the passphrase; otherwise its timing score.
     */
    method GetDistance(sequence: KeystrokeSequence) returns (r: Result<real>)
      requires Valid()
      modifies this`dwellStats, this`flightStats, this`statsDirty
      ensures Valid()
      ensures sequence.capturedValue != GetTextToMatch() ==> r == Ok(NO_MATCH) && unchanged(this)
      ensures sequence.capturedValue == GetTextToMatch() ==>
                && RefreshedTo(old(CurrentStats()))
                && r == Score(old(TimingsOf(sequence.keystrokes)), old(CurrentStats()), samplePoints)
      ensures r.Ok? ==> 0.0 <= r.value <= 1.0
    {
      if internalTemplate.GetDistance(sequence) == NO_MATCH {
        return Ok(NO_MATCH);
      }
      r := GetStatisticalDistance(sequence);
    }

    /**
     * Drops from the basis, keeping the order of the rest, every sequence with
     * a position whose flight or dwell is among that position's reported
     * outliers; the filtered count grows by the number dropped and the
     * statistics become stale. A missing outlier set leaves everything as it was.
     */
    method FilterOutliers(flightOutliers: OutlierSets, dwellOutliers: OutlierSets) returns (r: Outcome)
      requires Valid()
      modifies this`templateBasis, this`numberOfFilteredTemplates, this`statsDirty
      ensures Valid()
      ensures var flags := old(OutlierFlags(BasisTimings(templateBasis), flightOutliers, dwellOutliers));
              && (flags.Err? ==> r == Raise(MissingOutlierSet) && unchanged(this))
              && (flags.Ok? ==>
                    && r == Pass && statsDirty
                    && templateBasis == Unflagged(old(templateBasis), flags.value)
                    && numberOfFilteredTemplates == old(numberOfFilteredTemplates) + CountFlagged(flags.value))
    {
      var basis := templateBasis;
      var kept := KeepOutlierFree(basis, flightOutliers, dwellOutliers);
      if kept.Err? {
        return Raise(kept.error);
      }
      var filtered := kept.value;
      UnflaggedLength(basis, OutlierFlags(BasisTimings(basis), flightOutliers, dwellOutliers).value);
      numberOfFilteredTemplates := numberOfFilteredTemplates + (|basis| - |filtered|);
      templateBasis := filtered;
      statsDirty := true;
      r := Pass;
    }
  }
}
