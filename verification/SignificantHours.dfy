/**
 * get_table_interval in terms of its own inputs: which hours the reported intervals cover, and what
 * their means are means of.
 */
module SignificantHours {
  import opened Permutations
  import opened IonosIntervals
  import opened CircularRuns
  import opened IonosTotals

  /** The correlation of hour h is not zero, and its p-value does not exceed the threshold. */
  predicate Significant(corr: seq<real>, pValues: seq<real>, threshold: real, h: int)
    requires |corr| == |pValues|
  {
    0 <= h < |corr| && pValues[h] <= threshold && corr[h] != 0.0
  }

  /** Hours h - 1 and h are significant, one positive and the other negative. */
  predicate TurnsAt(corr: seq<real>, pValues: seq<real>, threshold: real, h: int)
    requires |corr| == |pValues|
  {
    && Significant(corr, pValues, threshold, h - 1) && Significant(corr, pValues, threshold, h)
    && (corr[h - 1] < 0.0 < corr[h] || corr[h] < 0.0 < corr[h - 1])
  }

  /** Some hour is not significant, and the correlation never turns from one hour to the next. */
  ghost predicate Regular(corr: seq<real>, pValues: seq<real>, threshold: real)
    requires |corr| == |pValues|
  {
    && (exists h :: 0 <= h < |corr| && !Significant(corr, pValues, threshold, h))
    && (forall h :: 1 <= h < |corr| ==> !TurnsAt(corr, pValues, threshold, h))
  }

  /** Some interval holds hour h of a day of n hours. */
  ghost predicate Covered(ivs: seq<Interval>, h: int, n: nat) {
    exists k :: 0 <= k < |ivs| && Covers(ivs[k], h, n)
  }

  /** The mean of an interval is that of the correlations over its hours, as far as midnight. */
  ghost predicate MeanUpToMidnight(corr: seq<real>, iv: Interval) {
    var end := if iv.start + iv.length <= |corr| then iv.start + iv.length else |corr|;
    0 <= iv.start < end && iv.mean == RangeSum(corr, iv.start, end) / (end - iv.start) as real
  }

  // ----- after the discarding -----

  ghost predicate CoversSignificant(c: seq<real>)
    requires |c| > 0
  {
    forall h :: 0 <= h < |c| ==> (Covered(Intervals(c), h, |c|) <==> c[h] != 0.0)
  }

  lemma RunHolds(c: seq<real>, iv: Interval, h: int)
    requires IsRun(c, iv) && Contains(iv, h)
    ensures 0 <= h < |c| && c[h] != 0.0
  {
  }

  lemma CoveredByRuns(c: seq<real>, runs: seq<Interval>, l: nat, h: int)
    requires ScanResult(c, runs, l) && 0 <= h < |c|
    ensures Covered(Join(runs, l), h, |c|) <==> c[h] != 0.0
  {
    hide IsRun, HasZero, RunsBefore;
    var n, last, ivs := |c|, |runs| - 1, Join(runs, l);
    RunFacts(c, runs);
    JoinsExactlyWhenWraps(c, runs, l);
    if c[h] != 0.0 {
      var k := RunOf(c, runs, h);
      if !Wraps(c) {
        assert Covers(ivs[k], h, n);
      } else if k == 0 || k == last {
        FirstRun(c, runs);
        assert Covers(ivs[last - 1], h, n);
      } else {
        assert ivs[k - 1] == runs[k] && Covers(ivs[k - 1], h, n);
      }
    }
    if Covered(ivs, h, n) {
      var k :| 0 <= k < |ivs| && Covers(ivs[k], h, n);
      if !Wraps(c) {
        RunHolds(c, runs[k], h);
      } else if k < last - 1 {
        RunHolds(c, runs[k + 1], h);
      } else {
        FirstRun(c, runs);
        RunHolds(c, if Contains(runs[last], h) then runs[last] else runs[0], h);
      }
    }
  }

  lemma RunOf(c: seq<real>, runs: seq<Interval>, h: int) returns (k: nat)
    requires RunsBefore(c, runs, |c|) && 0 <= h < |c| && c[h] != 0.0
    ensures k < |runs| && Contains(runs[k], h)
  {
    k :| 0 <= k < |runs| && Contains(runs[k], h);
  }

  // ----- no more hours are covered than the lengths add up to -----

  ghost function HoursFrom(a: int, b: int): (r: set<int>)
    ensures forall h :: h in r <==> a <= h < b
    ensures |r| == if a <= b then b - a else 0
    decreases b - a
  {
    if a >= b then {} else HoursFrom(a, b - 1) + {b - 1}
  }

  ghost function HoursOf(iv: Interval, n: nat): set<int> {
    set h | 0 <= h < n && Covers(iv, h, n)
  }

  lemma HoursOfSize(iv: Interval, n: nat)
    requires 0 <= iv.start <= n && iv.length >= 0
    ensures |HoursOf(iv, n)| <= iv.length
  {
    var end := iv.start + iv.length;
    var day, next := HoursFrom(iv.start, if end < n then end else n), HoursFrom(0, if end < n then 0 else end - n);
    SubsetSize(HoursOf(iv, n), day + next);
  }

  ghost function AllHours(ivs: seq<Interval>, n: nat): set<int> {
    set h | 0 <= h < n && Covered(ivs, h, n)
  }

  lemma {:induction false} AllHoursSize(ivs: seq<Interval>, n: nat)
    requires forall k :: 0 <= k < |ivs| ==> 0 <= ivs[k].start <= n && ivs[k].length >= 0
    ensures |AllHours(ivs, n)| <= TotalLength(ivs)
  {
    if ivs == [] {
      assert AllHours(ivs, n) == {};
    } else {
      var init, last := ivs[..|ivs| - 1], ivs[|ivs| - 1];
      AllHoursSize(init, n);
      HoursOfSize(last, n);
      forall h | h in AllHours(ivs, n) ensures h in AllHours(init, n) + HoursOf(last, n) {
        var k :| 0 <= k < |ivs| && Covers(ivs[k], h, n);
        assert k < |init| ==> Covers(init[k], h, n);
      }
      SubsetSize(AllHours(ivs, n), AllHours(init, n) + HoursOf(last, n));
    }
  }

  ghost function SignificantSet(c: seq<real>, t: nat): set<int>
    requires t <= |c|
  {
    set h | 0 <= h < t && c[h] != 0.0
  }

  lemma {:induction false} SignificantSize(c: seq<real>, t: nat)
    requires t <= |c|
    ensures |SignificantSet(c, t)| == SigCount(c, t)
  {
    if t == 0 {
      assert SignificantSet(c, 0) == {};
    } else {
      SignificantSize(c, t - 1);
      if c[t - 1] != 0.0 {
        assert SignificantSet(c, t) == SignificantSet(c, t - 1) + {t - 1};
      } else {
        assert SignificantSet(c, t) == SignificantSet(c, t - 1);
      }
    }
  }

  lemma {:induction false} DoneShape(c: seq<real>, t: nat)
    requires |c| > 0 && t <= |c|
    ensures var s := ScanTo(c, t);
            s.start <= t && forall k :: 0 <= k < |s.done| ==> 0 <= s.done[k].start <= t && s.done[k].length >= 0
  {
    if t > 0 {
      DoneShape(c, t - 1);
    }
  }

  lemma IntervalShape(c: seq<real>, k: nat)
    requires |c| > 0 && k < |Intervals(c)|
    ensures 0 <= Intervals(c)[k].start <= |c| && Intervals(c)[k].length >= 0
  {
    hide ScanTo;
    DoneShape(c, |c|);
    var runs := LinearRuns(c);
    assert forall j :: 0 <= j < |runs| ==> 0 <= runs[j].start <= |c| && runs[j].length >= 0;
  }

  /** For every day: the intervals cover the significant hours exactly when they are the maximal runs. */
  lemma CoverageExactlyWhen(c: seq<real>)
    requires |c| > 0
    ensures CoversSignificant(c) <==> HasZero(c) && NoFlips(c)
  {
    hide Intervals, Covered, NoFlips, SigCount, FlipCount, TotalLength;
    var n, ivs := |c|, Intervals(c);
    TotalLengthExactlyWhen(c);
    if HasZero(c) && NoFlips(c) {
      forall h | 0 <= h < n ensures Covered(ivs, h, n) <==> c[h] != 0.0 {
        CoveredAt(c, h);
      }
    } else if CoversSignificant(c) {
      forall k | 0 <= k < |ivs| ensures 0 <= ivs[k].start <= n && ivs[k].length >= 0 {
        IntervalShape(c, k);
      }
      AllHoursSize(ivs, n);
      SignificantSize(c, n);
      SubsetSize(SignificantSet(c, n), AllHours(ivs, n));
      NoFlipsExactlyWhenNoCount(c, n);
      if !HasZero(c) {
        FullDayTotals(c);
      }
      assert false;
    }
  }

  lemma CoveredAt(c: seq<real>, h: int)
    requires |c| > 0 && HasZero(c) && NoFlips(c) && 0 <= h < |c|
    ensures Covered(Intervals(c), h, |c|) <==> c[h] != 0.0
  {
    hide ScanResult, LinearRuns, ScanTo, HasZero, NoFlips, Covered, Join;
    ScanGivesResult(c);
    CoveredByRuns(c, LinearRuns(c), ScanTo(c, |c|).len, h);
  }

  lemma RunMean(c: seq<real>, iv: Interval, joined: Interval)
    requires IsRun(c, iv) && joined.start == iv.start && joined.mean == iv.mean
    requires joined.length == iv.length || (iv.start + iv.length == |c| && joined.length >= iv.length)
    ensures MeanUpToMidnight(c, joined)
  {
    hide RangeSum;
  }

  lemma MeanAt(c: seq<real>, runs: seq<Interval>, l: nat, k: nat)
    requires ScanResult(c, runs, l) && k < |Join(runs, l)|
    ensures MeanUpToMidnight(c, Join(runs, l)[k])
  {
    hide HasZero, RunsBefore, IsRun, MeanUpToMidnight;
    RunFacts(c, runs);
    JoinsExactlyWhenWraps(c, runs, l);
    if Wraps(c) {
      RunMean(c, runs[k + 1], Join(runs, l)[k]);
    } else {
      RunMean(c, runs[k], runs[k]);
    }
  }

  // ----- before the discarding -----

  lemma DiscardAt(corr: seq<real>, pValues: seq<real>, threshold: real, h: int)
    requires |corr| == |pValues| && 0 <= h < |corr|
    ensures var c := Discard(corr, pValues, threshold);
            && (Significant(corr, pValues, threshold, h) <==> c[h] != 0.0)
            && (c[h] != 0.0 ==> c[h] == corr[h])
  {
  }

  lemma RegularIs(corr: seq<real>, pValues: seq<real>, threshold: real)
    requires |corr| == |pValues|
    ensures var c := Discard(corr, pValues, threshold); Regular(corr, pValues, threshold) <==> HasZero(c) && NoFlips(c)
  {
    hide Discard, Significant;
    var c := Discard(corr, pValues, threshold);
    forall h | 0 <= h < |corr|
      ensures Significant(corr, pValues, threshold, h) <==> c[h] != 0.0
      ensures c[h] != 0.0 ==> c[h] == corr[h]
    {
      DiscardAt(corr, pValues, threshold, h);
    }
    forall h | 1 <= h < |corr| ensures TurnsAt(corr, pValues, threshold, h) <==> Flip(c, h) {
      assert Significant(corr, pValues, threshold, h - 1) <==> c[h - 1] != 0.0;
    }
  }

  lemma {:induction false} RangeSumExt(c: seq<real>, c': seq<real>, a: nat, b: nat)
    requires b <= |c| == |c'| && forall h :: a <= h < b ==> c[h] == c'[h]
    ensures RangeSum(c, a, b) == RangeSum(c', a, b)
  {
    if a < b {
      RangeSumExt(c, c', a, b - 1);
    }
  }

  /**
   * For every day, the reported intervals cover exactly the significant hours exactly when some hour
   * is not significant and the correlation never turns; and then each mean is that of its hours.
   */
  lemma ReportExactlyWhen(corr: seq<real>, pValues: seq<real>, threshold: real)
    requires |corr| == |pValues| > 0
    ensures var n, ivs := |corr|, Intervals(Discard(corr, pValues, threshold));
            && ((forall h :: 0 <= h < n ==> (Covered(ivs, h, n) <==> Significant(corr, pValues, threshold, h)))
                <==> Regular(corr, pValues, threshold))
            && (Regular(corr, pValues, threshold) ==>
                  forall k :: 0 <= k < |ivs| ==> MeanUpToMidnight(corr, ivs[k]))
  {
    hide Discard, Intervals, Covered, Significant, Regular, MeanUpToMidnight;
    var c := Discard(corr, pValues, threshold);
    var n, ivs := |c|, Intervals(c);
    RegularIs(corr, pValues, threshold);
    CoverageExactlyWhen(c);
    forall h | 0 <= h < n ensures Significant(corr, pValues, threshold, h) <==> c[h] != 0.0 {
      DiscardAt(corr, pValues, threshold, h);
    }
    if Regular(corr, pValues, threshold) {
      forall k | 0 <= k < |ivs| ensures MeanUpToMidnight(corr, ivs[k]) {
        MeanOfCorrelations(corr, pValues, threshold, k);
      }
    }
  }

  lemma MeanOfCorrelations(corr: seq<real>, pValues: seq<real>, threshold: real, k: nat)
    requires |corr| == |pValues| > 0 && Regular(corr, pValues, threshold)
    requires k < |Intervals(Discard(corr, pValues, threshold))|
    ensures MeanUpToMidnight(corr, Intervals(Discard(corr, pValues, threshold))[k])
  {
    hide Discard, ScanResult, LinearRuns, ScanTo, Regular, HasZero, NoFlips, RangeSum, Join;
    var c := Discard(corr, pValues, threshold);
    RegularIs(corr, pValues, threshold);
    ScanGivesResult(c);
    MeanAt(c, LinearRuns(c), ScanTo(c, |c|).len, k);
    var iv := Intervals(c)[k];
    var end := if iv.start + iv.length <= |corr| then iv.start + iv.length else |corr|;
    forall h | iv.start <= h < end ensures c[h] == corr[h] {
      assert Covers(iv, h, |c|);
      CoveredAt(c, h);
      DiscardAt(corr, pValues, threshold, h);
    }
    RangeSumExt(c, corr, iv.start, end);
  }

  lemma IntervalsIs(c: seq<real>)
    requires |c| > 0
    ensures Intervals(c) == Join(Closed(ScanTo(c, |c|)), ScanTo(c, |c|).len)
  {
  }

  method GetIntervals(corr: seq<real>, pValues: seq<real>, threshold: real) returns (intervalArray: seq<Interval>)
    requires |corr| == |pValues| > 0
    ensures intervalArray == Intervals(Discard(corr, pValues, threshold))
    ensures (forall h :: 0 <= h < |corr| ==>
               (Covered(intervalArray, h, |corr|) <==> Significant(corr, pValues, threshold, h)))
            <==> Regular(corr, pValues, threshold)
    ensures Regular(corr, pValues, threshold) ==>
              forall k :: 0 <= k < |intervalArray| ==> MeanUpToMidnight(corr, intervalArray[k])
  {
    hide Discard, Intervals, Covered, Significant, Regular, MeanUpToMidnight;
    intervalArray := [];
    var c := Discard(corr, pValues, threshold);
    var startInterval, lengthInterval, acumCorr := 0, 0, 0.0;
    var signPrevious := Sign(c[0]);
    for indexHour := 0 to |c|
      invariant Scan(startInterval, lengthInterval, acumCorr, signPrevious, intervalArray) == ScanTo(c, indexHour)
    {
      var signCurrent := Sign(c[indexHour]);
      if c[indexHour] != 0.0 {
        if lengthInterval == 0 || signCurrent == signPrevious {
          lengthInterval := lengthInterval + 1;
          acumCorr := c[indexHour] + acumCorr;
        }
      } else {
        if lengthInterval != 0 {
          intervalArray := intervalArray + [Interval(startInterval, lengthInterval, acumCorr / lengthInterval as real)];
        }
        startInterval := indexHour + 1;
        lengthInterval := 0;
        acumCorr := 0.0;
      }
      signPrevious := signCurrent;
    }
    if lengthInterval > 0 {
      intervalArray := intervalArray + [Interval(startInterval, lengthInterval, acumCorr / lengthInterval as real)];
    }
    if |intervalArray| >= 1 {
      if lengthInterval != 0 && intervalArray[0].start == 0 {
        var last := |intervalArray| - 1;
        if Sign(intervalArray[last].mean) == Sign(intervalArray[0].mean) {
          var joined := intervalArray[last].(length := intervalArray[0].length + lengthInterval);
          intervalArray := intervalArray[last := joined];
          intervalArray := intervalArray[1..];
        }
      }
    }
    assert intervalArray == Intervals(c) by {
      IntervalsIs(c);
    }
    ReportExactlyWhen(corr, pValues, threshold);
  }
}
