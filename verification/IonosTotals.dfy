/** The "total_hour" figure of print_table, and when it is the mean absolute correlation. */
module IonosTotals {
  import opened Sums
  import opened IonosIntervals
  import opened CircularRuns

  /** abs(mean * length) */
  function Value(iv: Interval): real {
    Abs(iv.mean * iv.length as real)
  }

  function TotalValue(ivs: seq<Interval>): real {
    if ivs == [] then 0.0 else TotalValue(ivs[..|ivs| - 1]) + Value(ivs[|ivs| - 1])
  }

  /** The sum of the absolute correlations of the first t hours. */
  function AbsSum(c: seq<real>, t: nat): real
    requires t <= |c|
  {
    if t == 0 then 0.0 else AbsSum(c, t - 1) + Abs(c[t - 1])
  }

  method AccumulateTotals(ivs: seq<Interval>) returns (acumHours: int, acumValue: real)
    ensures acumHours == TotalLength(ivs) && acumValue == TotalValue(ivs)
  {
    acumHours, acumValue := 0, 0.0;
    for k := 0 to |ivs|
      invariant acumHours == TotalLength(ivs[..k]) && acumValue == TotalValue(ivs[..k])
    {
      acumHours := acumHours + ivs[k].length;
      acumValue := acumValue + Abs(ivs[k].mean * ivs[k].length as real);
      assert ivs[..k + 1][..k] == ivs[..k] && ivs[..k + 1][k] == ivs[k];
    }
    assert ivs[..|ivs|] == ivs;
  }

  lemma {:induction false} TotalValueFront(ivs: seq<Interval>)
    requires ivs != []
    ensures TotalValue(ivs) == Value(ivs[0]) + TotalValue(ivs[1..])
  {
    hide Value;
    if |ivs| > 1 {
      TotalValueFront(ivs[..|ivs| - 1]);
      assert ivs[..|ivs| - 1][1..] == ivs[1..][..|ivs| - 2];
    }
  }

  lemma ClosedValue(s: Scan)
    requires s.len == 0 ==> s.acc == 0.0
    ensures TotalValue(Closed(s)) == TotalValue(s.done) + Abs(s.acc)
  {
  }

  lemma {:induction false} ScanValues(c: seq<real>, t: nat)
    requires |c| > 0 && t <= |c| && NoFlips(c)
    ensures TotalValue(ScanTo(c, t).done) + Abs(ScanTo(c, t).acc) == AbsSum(c, t)
  {
    hide RunsBefore, NoFlips, TotalValue;
    if t == 0 {
      ValueOfNone();
    } else {
      ScanValues(c, t - 1);
      ScanRuns(c, t - 1);
      var s, v := ScanTo(c, t - 1), c[t - 1];
      if v == 0.0 {
        ClosedValue(s);
      } else {
        SameSignStep(c, t - 1, s);
      }
    }
  }

  lemma ValueOfNone()
    ensures TotalValue([]) == 0.0
  {
  }

  lemma SameSignStep(c: seq<real>, t: nat, s: Scan)
    requires t < |c| && NoFlips(c) && OpenRun(c, t, s) && OpenRunSums(c, t, s) && c[t] != 0.0
    ensures Step(s, t, c[t]).done == s.done
    ensures Abs(Step(s, t, c[t]).acc) == Abs(s.acc) + Abs(c[t])
  {
    hide RunsBefore;
    if s.start < t {
      assert !Flip(c, t);
      RangeSumSign(c, s.start, t);
    }
  }

  lemma LinearValue(c: seq<real>)
    requires |c| > 0 && NoFlips(c)
    ensures TotalValue(LinearRuns(c)) == AbsSum(c, |c|)
  {
    hide RunsBefore, NoFlips, TotalValue, AbsSum;
    ScanRuns(c, |c|);
    ScanValues(c, |c|);
    ClosedValue(ScanTo(c, |c|));
  }

  lemma JoinedTotal(runs: seq<Interval>, l: nat)
    requires |runs| >= 2 && JoinsAcross(runs, l)
    ensures var first, last := runs[0], runs[|runs| - 1];
            TotalValue(Join(runs, l)) ==
            TotalValue(runs) - Value(last) + Value(last.(length := first.length + l)) - Value(first)
  {
    hide Value;
    var last := |runs| - 1;
    var joined := runs[last := runs[last].(length := runs[0].length + l)];
    TotalValueFront(joined);
    assert joined[..last] == runs[..last];
  }

  /** Joining weighs the first run by the mean of the last one. */
  lemma JoinValue(runs: seq<Interval>, l: nat)
    requires |runs| >= 2 && JoinsAcross(runs, l) && l == runs[|runs| - 1].length && runs[0].length >= 1
    ensures TotalValue(Join(runs, l)) == TotalValue(runs) <==> runs[0].mean == runs[|runs| - 1].mean
  {
    hide TotalValue, Join, Value;
    JoinedTotal(runs, l);
    JoinedWeight(runs[0], runs[|runs| - 1], runs[0].length + l);
  }

  lemma JoinedWeight(first: Interval, last: Interval, total: int)
    requires Sign(first.mean) == Sign(last.mean) && first.length >= 1 && last.length >= 0
    requires total == first.length + last.length
    ensures Value(last.(length := total)) == Value(first) + Value(last) <==> first.mean == last.mean
  {
  }

  /** The number of significant hours before the first insignificant one. */
  function FirstZero(c: seq<real>): (z: nat)
    ensures z <= |c| && (z < |c| ==> c[z] == 0.0) && forall h :: 0 <= h < z ==> c[h] != 0.0
  {
    if c == [] || c[0] == 0.0 then 0 else 1 + FirstZero(c[1..])
  }

  /** The hour from which on all hours are significant. */
  function AfterLastZero(c: seq<real>): (z: nat)
    ensures z <= |c| && (z > 0 ==> c[z - 1] == 0.0) && forall h :: z <= h < |c| ==> c[h] != 0.0
  {
    if c == [] || c[|c| - 1] == 0.0 then |c| else AfterLastZero(c[..|c| - 1])
  }

  function RangeMean(c: seq<real>, a: nat, b: nat): real
    requires a < b <= |c|
  {
    RangeSum(c, a, b) / (b - a) as real
  }

  /** The significant hours that open the day and those that close it have the same mean. */
  predicate EqualMeansAcross(c: seq<real>) {
    && 0 < FirstZero(c) && AfterLastZero(c) < |c|
    && RangeMean(c, 0, FirstZero(c)) == RangeMean(c, AfterLastZero(c), |c|)
  }

  lemma EndRuns(c: seq<real>, runs: seq<Interval>, l: nat)
    requires ScanResult(c, runs, l) && Wraps(c)
    ensures |runs| >= 2
    ensures runs[0].mean == runs[|runs| - 1].mean <==> EqualMeansAcross(c)
  {
    hide RangeSum, RunsBefore, HasZero, IsRun, FirstZero, AfterLastZero;
    JoinsExactlyWhenWraps(c, runs, l);
    FirstRun(c, runs);
    RunFacts(c, runs);
    EndRun(c, runs[0]);
    EndRun(c, runs[|runs| - 1]);
    assert FirstZero(c) == runs[0].length && AfterLastZero(c) == runs[|runs| - 1].start;
  }

  /** A run at either end of the day, when there is an insignificant hour beyond it. */
  lemma EndRun(c: seq<real>, iv: Interval)
    requires IsRun(c, iv)
    ensures iv.mean == RangeSum(c, iv.start, iv.start + iv.length) / iv.length as real
    ensures iv.start == 0 && iv.length < |c| ==> FirstZero(c) == iv.length
    ensures iv.start > 0 && iv.start + iv.length == |c| ==> AfterLastZero(c) == iv.start
  {
    hide RangeSum, FirstZero, AfterLastZero;
    assert iv.start == 0 && iv.length < |c| ==> c[iv.length] == 0.0;
    assert iv.start > 0 ==> c[iv.start - 1] == 0.0;
  }

  /** The total of the values is the sum of the absolute correlations exactly when equal parts are joined or none. */
  lemma ValueExactlyWhen(c: seq<real>)
    requires |c| > 0 && HasZero(c) && NoFlips(c)
    ensures TotalValue(Intervals(c)) == AbsSum(c, |c|) <==> !Wraps(c) || EqualMeansAcross(c)
  {
    hide TotalValue, AbsSum, LinearRuns, ScanTo, Join, JoinsAcross, HasZero, NoFlips, ScanResult, RunsBefore,
         EqualMeansAcross;
    var runs, l := LinearRuns(c), ScanTo(c, |c|).len;
    ScanGivesResult(c);
    ScanResultFacts(c, runs, l);
    JoinsExactlyWhenWraps(c, runs, l);
    LinearValue(c);
    NotJoined(runs, l);
    if Wraps(c) {
      EndRuns(c, runs, l);
      JoinValue(runs, l);
    }
  }

  /**
   * For every day: both totals are right, the hours and the sum of the absolute correlations,
   * exactly when some hour is not significant, no hour follows directly on the opposite sign, and
   * no run goes across midnight unless its two parts have the same mean.
   */
  lemma TotalsExactlyWhen(c: seq<real>)
    requires |c| > 0
    ensures TotalLength(Intervals(c)) == SigCount(c, |c|) && TotalValue(Intervals(c)) == AbsSum(c, |c|)
            <==> HasZero(c) && NoFlips(c) && (!Wraps(c) || EqualMeansAcross(c))
  {
    hide TotalLength, TotalValue, AbsSum, SigCount, FlipCount, Intervals, HasZero, NoFlips, Wraps, EqualMeansAcross;
    TotalLengthExactlyWhen(c);
    NoFlipsExactlyWhenNoCount(c, |c|);
    if HasZero(c) && NoFlips(c) {
      ValueExactlyWhen(c);
    } else if !HasZero(c) {
      FullDayTotals(c);
    }
  }

  /** On a day of significant hours nothing is reported, although every hour counts. */
  lemma FullDayTotals(c: seq<real>)
    requires |c| > 0 && !HasZero(c)
    ensures TotalLength(Intervals(c)) == 0 < SigCount(c, |c|)
  {
    hide Intervals;
    TotalLengthExactlyWhen(c);
    if SigCount(c, |c|) == 0 {
      NoSignificant(c, |c|);
    }
  }

  /**
   * On days without a direct change of sign, the figure printed before rounding is 100 times the
   * exact mean of the absolute correlation over the significant hours, exactly when no run goes
   * across midnight or its two parts have the same mean.
   */
  lemma FigureExactlyWhen(c: seq<real>)
    requires |c| > 0 && HasZero(c) && NoFlips(c) && exists h :: 0 <= h < |c| && c[h] != 0.0
    ensures TotalLength(Intervals(c)) == SigCount(c, |c|) >= 1
    ensures TotalValue(Intervals(c)) / TotalLength(Intervals(c)) as real * 100.0
              == 100.0 * (AbsSum(c, |c|) / SigCount(c, |c|) as real)
            <==> !Wraps(c) || EqualMeansAcross(c)
  {
    hide TotalValue, TotalLength, AbsSum, SigCount, FlipCount, Intervals, HasZero, NoFlips, Wraps, EqualMeansAcross;
    TotalLengthExactlyWhen(c);
    NoFlipsExactlyWhenNoCount(c, |c|);
    ValueExactlyWhen(c);
    if SigCount(c, |c|) == 0 {
      NoSignificant(c, |c|);
    }
    SameQuotient(TotalValue(Intervals(c)), AbsSum(c, |c|), SigCount(c, |c|));
  }

  lemma ScanResultFacts(c: seq<real>, runs: seq<Interval>, l: nat)
    requires ScanResult(c, runs, l)
    ensures forall k :: 0 <= k < |runs| ==> runs[k].length >= 1
    ensures l != 0 ==> runs != [] && runs[|runs| - 1].length == l
    ensures Wraps(c) ==> l != 0
  {
    hide HasZero;
    RunFacts(c, runs);
  }

  lemma {:induction false} FlipCountZero(c: seq<real>, t: nat)
    requires t <= |c|
    ensures FlipCount(c, t) == 0 <==> forall i :: 0 <= i < t ==> !Flip(c, i)
  {
    hide Flip;
    if t > 0 {
      FlipCountZero(c, t - 1);
    }
  }

  lemma NoFlipsExactlyWhenNoCount(c: seq<real>, t: nat)
    requires t == |c|
    ensures FlipCount(c, t) == 0 <==> NoFlips(c)
  {
    FlipCountZero(c, t);
  }

  lemma {:induction false} NoSignificant(c: seq<real>, t: nat)
    requires t <= |c| && SigCount(c, t) == 0
    ensures forall h :: 0 <= h < t ==> c[h] == 0.0
  {
    if t > 0 {
      NoSignificant(c, t - 1);
    }
  }

  lemma SameQuotient(a: real, b: real, n: int)
    requires n >= 1
    ensures a / n as real * 100.0 == 100.0 * (b / n as real) <==> a == b
  {
  }

  /** A run across midnight with unequal parts: the mean is 0.75, and 1 is reported. */
  lemma WrapExample()
    ensures var c := [0.5, 0.0, 1.0];
            && Intervals(c) == [Interval(2, 2, 1.0)]
            && TotalValue(Intervals(c)) == 2.0 && AbsSum(c, 3) == 1.5
  {
  }

  /** After a change of sign the hours cancel: three hours of strength 1 are reported as two of strength 0. */
  lemma FlipTotalsExample()
    ensures var c := [1.0, -1.0, -1.0, 0.0];
            && HasZero(c) && !Wraps(c) && Intervals(c) == [Interval(0, 2, 0.0)]
            && TotalValue(Intervals(c)) == 0.0 && AbsSum(c, 4) == 3.0
  {
    var c := [1.0, -1.0, -1.0, 0.0];
    assert c[3] == 0.0;
    assert ScanTo(c, 1) == Scan(0, 1, 1.0, 1, []);
    assert ScanTo(c, 2) == Scan(0, 1, 1.0, -1, []);
    assert ScanTo(c, 3) == Scan(0, 2, 0.0, -1, []);
    assert ScanTo(c, 4) == Scan(4, 0, 0.0, 0, [Interval(0, 2, 0.0)]);
    assert AbsSum(c, 2) == 2.0;
  }
}
