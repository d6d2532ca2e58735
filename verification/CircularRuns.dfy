/** The reported intervals are the maximal runs of one sign on the circle of hours. */
module CircularRuns {
  import opened IonosIntervals

  /** No hour follows directly on one of the opposite sign. */
  ghost predicate NoFlips(c: seq<real>) {
    forall i :: 1 <= i < |c| ==> !Flip(c, i)
  }

  function RangeSum(c: seq<real>, a: nat, b: nat): real
    requires b <= |c|
  {
    if a >= b then 0.0 else RangeSum(c, a, b - 1) + c[b - 1]
  }

  /** Hours start to end - 1 are significant with one sign. */
  ghost predicate OneSign(c: seq<real>, start: int, end: int) {
    0 <= start < end <= |c| && forall h :: start <= h < end ==> Sign(c[h]) == Sign(c[start]) != 0
  }

  /** A stretch of significant hours between two zeros or ends of the day, with its mean. */
  ghost predicate IsRun(c: seq<real>, iv: Interval) {
    var end := iv.start + iv.length;
    && OneSign(c, iv.start, end)
    && (iv.start == 0 || c[iv.start - 1] == 0.0) && (end == |c| || c[end] == 0.0)
    && iv.mean == RangeSum(c, iv.start, end) / iv.length as real
  }

  predicate Contains(iv: Interval, h: int) {
    iv.start <= h < iv.start + iv.length
  }

  /** The runs of the first t hours, in order, none left out. */
  ghost predicate RunsBefore(c: seq<real>, runs: seq<Interval>, t: nat)
    requires t <= |c|
  {
    && (forall k :: 0 <= k < |runs| ==> IsRun(c, runs[k]) && runs[k].start + runs[k].length <= t)
    && (forall k, l :: 0 <= k < l < |runs| ==> runs[k].start + runs[k].length < runs[l].start)
    && (forall h :: 0 <= h < t && c[h] != 0.0 ==> exists k :: 0 <= k < |runs| && Contains(runs[k], h))
  }

  ghost predicate OpenRunSums(c: seq<real>, t: nat, s: Scan)
    requires t <= |c|
  {
    && s.len == t - s.start && s.acc == RangeSum(c, s.start, t)
    && (s.start < t ==> OneSign(c, s.start, t))
    && RunsBefore(c, s.done, s.start)
    && (forall k :: 0 <= k < |s.done| ==> s.done[k].start + s.done[k].length < s.start)
  }

  lemma OpenBecomesRun(c: seq<real>, t: nat, s: Scan)
    requires t <= |c| && OpenRun(c, t, s) && OpenRunSums(c, t, s) && s.len != 0
    requires t == |c| || c[t] == 0.0
    ensures IsRun(c, Interval(s.start, s.len, s.acc / s.len as real))
  {
  }

  lemma AppendRun(c: seq<real>, runs: seq<Interval>, iv: Interval, t: nat, t': nat)
    requires t <= t' <= |c| && RunsBefore(c, runs, t) && IsRun(c, iv) && iv.start == t && t + iv.length <= t'
    requires forall h :: t + iv.length <= h < t' ==> c[h] == 0.0
    requires forall k :: 0 <= k < |runs| ==> runs[k].start + runs[k].length < t
    ensures RunsBefore(c, runs + [iv], t')
  {
    hide IsRun;
    var all := runs + [iv];
    forall h | 0 <= h < t' && c[h] != 0.0 ensures exists k :: 0 <= k < |all| && Contains(all[k], h) {
      if h < t {
        var k :| 0 <= k < |runs| && Contains(runs[k], h);
        assert Contains(all[k], h);
      } else {
        assert Contains(all[|runs|], h);
      }
    }
  }

  lemma CloseRun(c: seq<real>, t: nat, s: Scan, t': nat)
    requires t <= t' <= |c| && OpenRun(c, t, s) && OpenRunSums(c, t, s)
    requires t == |c| || c[t] == 0.0
    requires forall h :: t <= h < t' ==> c[h] == 0.0
    ensures RunsBefore(c, Closed(s), t')
    ensures t < t' ==> forall k :: 0 <= k < |Closed(s)| ==> Closed(s)[k].start + Closed(s)[k].length < t'
  {
    hide IsRun, OneSign, RangeSum;
    if s.len != 0 {
      OpenBecomesRun(c, t, s);
      AppendRun(c, s.done, Interval(s.start, s.len, s.acc / s.len as real), s.start, t');
    }
  }

  lemma StepInRun(c: seq<real>, t: nat, s: Scan)
    requires t < |c| && NoFlips(c) && OpenRun(c, t, s) && OpenRunSums(c, t, s) && c[t] != 0.0
    ensures OpenRunSums(c, t + 1, Step(s, t, c[t]))
  {
    hide RunsBefore;
    assert s.start < t ==> !Flip(c, t);
  }

  lemma StepAtZero(c: seq<real>, t: nat, s: Scan)
    requires t < |c| && OpenRun(c, t, s) && OpenRunSums(c, t, s) && c[t] == 0.0
    ensures OpenRunSums(c, t + 1, Step(s, t, c[t]))
  {
    hide RunsBefore, OpenRun;
    CloseRun(c, t, s, t + 1);
  }

  lemma ScanStarts(c: seq<real>)
    requires |c| > 0
    ensures OpenRunSums(c, 0, ScanTo(c, 0))
  {
  }

  lemma {:induction false} ScanRuns(c: seq<real>, t: nat)
    requires |c| > 0 && t <= |c| && NoFlips(c)
    ensures OpenRun(c, t, ScanTo(c, t)) && OpenRunSums(c, t, ScanTo(c, t))
  {
    hide OpenRun, OpenRunSums, Step, NoFlips;
    ScanCounts(c, t);
    if t == 0 {
      ScanStarts(c);
    } else {
      ScanRuns(c, t - 1);
      if c[t - 1] == 0.0 {
        StepAtZero(c, t - 1, ScanTo(c, t - 1));
      } else {
        StepInRun(c, t - 1, ScanTo(c, t - 1));
      }
    }
  }

  /** Before the check across midnight the list holds exactly the runs of the day. */
  lemma LinearRunsAreRuns(c: seq<real>)
    requires |c| > 0 && NoFlips(c)
    ensures RunsBefore(c, LinearRuns(c), |c|)
    ensures var runs, len := LinearRuns(c), ScanTo(c, |c|).len;
            && (len != 0 <==> c[|c| - 1] != 0.0)
            && (len != 0 ==> runs != [] && runs[|runs| - 1].length == len && runs[|runs| - 1].start == |c| - len)
  {
    hide RunsBefore, ScanTo, NoFlips, IsRun, OneSign, RangeSum;
    var n := |c|;
    var s := ScanTo(c, n);
    ScanRuns(c, n);
    CloseRun(c, n, s, n);
    assert s.len == 0 ==> s.start == n && c[n - 1] == 0.0;
  }

  // ----- the sign of a mean -----

  lemma {:induction false} RangeSumSign(c: seq<real>, a: nat, b: nat)
    requires OneSign(c, a, b)
    ensures Sign(RangeSum(c, a, b)) == Sign(c[a])
  {
    if a + 1 < b {
      RangeSumSign(c, a, b - 1);
    }
  }

  lemma QuotientSign(x: real, l: int)
    requires l >= 1
    ensures Sign(x / l as real) == Sign(x)
  {
  }

  lemma MeanSign(c: seq<real>, iv: Interval)
    requires IsRun(c, iv)
    ensures Sign(iv.mean) == Sign(c[iv.start])
  {
    RangeSumSign(c, iv.start, iv.start + iv.length);
    QuotientSign(RangeSum(c, iv.start, iv.start + iv.length), iv.length);
  }

  // ----- joining across midnight -----

  /** The last and the first hour are significant with the same sign. */
  predicate Wraps(c: seq<real>)
    requires |c| > 0
  {
    Sign(c[0]) == Sign(c[|c| - 1]) != 0
  }

  lemma FirstRun(c: seq<real>, runs: seq<Interval>)
    requires |c| > 0 && RunsBefore(c, runs, |c|)
    ensures c[0] != 0.0 <==> runs != [] && runs[0].start == 0
  {
  }

  /** What the scan hands over to the check across midnight. */
  ghost predicate ScanResult(c: seq<real>, runs: seq<Interval>, len: nat) {
    && |c| > 0 && RunsBefore(c, runs, |c|) && HasZero(c)
    && (len != 0 <==> c[|c| - 1] != 0.0)
    && (len != 0 ==> runs != [] && runs[|runs| - 1].length == len && runs[|runs| - 1].start == |c| - len)
  }

  lemma JoinsExactlyWhenWraps(c: seq<real>, runs: seq<Interval>, len: nat)
    requires ScanResult(c, runs, len)
    ensures JoinsAcross(runs, len) <==> Wraps(c)
    ensures Wraps(c) ==> |runs| >= 2 && runs[|runs| - 1].start > 0
  {
    FirstRun(c, runs);
    if len != 0 && runs[0].start == 0 {
      var last := |runs| - 1;
      assert IsRun(c, runs[0]) && IsRun(c, runs[last]);
      MeanSign(c, runs[0]);
      MeanSign(c, runs[last]);
      assert Sign(c[|c| - 1]) == Sign(c[runs[last].start]);
      var z :| 0 <= z < |c| && c[z] == 0.0;
      assert runs[last].start <= z ==> Sign(c[z]) == Sign(c[runs[last].start]);
    }
  }

  /** Some interval of the list starts at hour s and has this length. */
  ghost predicate Listed(ivs: seq<Interval>, s: int, len: int) {
    exists k :: 0 <= k < |ivs| && ivs[k].start == s && ivs[k].length == len
  }

  /** The list after joining, described without positions. */
  ghost predicate ListedJoined(runs: seq<Interval>, s: int, len: int)
    requires |runs| >= 2
  {
    var last := |runs| - 1;
    || (exists k :: 0 < k < last && runs[k].start == s && runs[k].length == len)
    || (s == runs[last].start && len == runs[0].length + runs[last].length)
  }

  lemma JoinLists(runs: seq<Interval>, l: nat, s: int, len: int)
    requires |runs| >= 2 && JoinsAcross(runs, l) && l == runs[|runs| - 1].length
    ensures Listed(Join(runs, l), s, len) <==> ListedJoined(runs, s, len)
  {
    var joined, last := Join(runs, l), |runs| - 1;
    assert forall k :: 0 <= k < last - 1 ==> joined[k] == runs[k + 1];
    assert joined[last - 1].start == runs[last].start && joined[last - 1].length == runs[0].length + l;
    if Listed(joined, s, len) {
      var k :| 0 <= k < |joined| && joined[k].start == s && joined[k].length == len;
      if k < last - 1 {
        assert runs[k + 1].start == s && runs[k + 1].length == len;
      }
    }
    if ListedJoined(runs, s, len) {
      if k :| 0 < k < last && runs[k].start == s && runs[k].length == len {
        assert joined[k - 1] == runs[k];
      }
    }
  }

  // ----- maximal runs on the circle -----

  /** The sign k hours after hour s, counting on past midnight. */
  function HourSign(c: seq<real>, s: int, k: int): int
    requires 0 <= s < |c| && 0 <= k <= |c|
  {
    if s + k < |c| then Sign(c[s + k]) else Sign(c[s + k - |c|])
  }

  /** From hour s on, len hours have one sign, and neither the hour before nor the hour after has it. */
  ghost predicate BoundedRun(c: seq<real>, s: int, len: int) {
    && 0 <= s < |c| && 1 <= len <= |c| && Sign(c[s]) != 0
    && (forall k :: 0 <= k < len ==> HourSign(c, s, k) == Sign(c[s]))
    && HourSign(c, s, len) != Sign(c[s])
    && HourSign(c, s, |c| - 1) != Sign(c[s])
  }

  /** Every hour of the day has one sign. */
  ghost predicate WholeCircle(c: seq<real>, s: int, len: int) {
    s == 0 && len == |c| && OneSign(c, 0, |c|)
  }

  /** A maximal run of one sign on the circle: bounded on both sides, or all of it, counted from midnight. */
  ghost predicate MaximalRun(c: seq<real>, s: int, len: int) {
    BoundedRun(c, s, len) || WholeCircle(c, s, len)
  }

  lemma BoundedIsMaximal(c: seq<real>, s: int, len: int)
    requires BoundedRun(c, s, len)
    ensures MaximalRun(c, s, len)
  {
  }

  lemma NotWholeCircle(c: seq<real>)
    ensures HasZero(c) ==> forall s, len :: !WholeCircle(c, s, len)
  {
  }

  /** A run of the day is bounded on the circle unless it touches midnight and goes on beyond. */
  lemma RunMaximal(c: seq<real>, iv: Interval)
    requires |c| > 0 && HasZero(c) && IsRun(c, iv)
    ensures !(Wraps(c) && (iv.start == 0 || iv.start + iv.length == |c|)) <==> BoundedRun(c, iv.start, iv.length)
  {
  }

  /** When the day wraps, the last run and the first one together are maximal. */
  lemma JoinedMaximal(c: seq<real>, first: Interval, last: Interval)
    requires |c| > 0 && Wraps(c) && HasZero(c) && IsRun(c, first) && IsRun(c, last)
    requires first.start == 0 && last.start > 0 && last.start + last.length == |c|
    requires first.length < last.start
    ensures BoundedRun(c, last.start, first.length + last.length)
  {
  }

  /** Two bounded runs that start at the same hour are the same. */
  lemma MaximalUnique(c: seq<real>, s: int, len: int, len': int)
    requires BoundedRun(c, s, len) && BoundedRun(c, s, len')
    ensures len == len'
  {
  }

  /** A maximal run starts where a run of the day starts. */
  lemma MaximalStartsRun(c: seq<real>, runs: seq<Interval>, s: int, len: int) returns (k: nat)
    requires |c| > 0 && RunsBefore(c, runs, |c|) && BoundedRun(c, s, len)
    ensures k < |runs| && runs[k].start == s
  {
    k :| 0 <= k < |runs| && Contains(runs[k], s);
    assert IsRun(c, runs[k]);
    if s > 0 {
      assert HourSign(c, s, |c| - 1) == Sign(c[s - 1]) != Sign(c[s]);
    }
  }

  lemma ListedAreMaximal(c: seq<real>, runs: seq<Interval>, l: nat, s: int, len: int)
    requires ScanResult(c, runs, l) && Listed(Join(runs, l), s, len)
    ensures BoundedRun(c, s, len)
  {
    hide BoundedRun, Join, HasZero, RunsBefore, IsRun;
    JoinsExactlyWhenWraps(c, runs, l);
    RunFacts(c, runs);
    var n, last := |c|, |runs| - 1;
    if Wraps(c) {
      JoinLists(runs, l, s, len);
      if k :| 0 < k < last && runs[k].start == s && runs[k].length == len {
        RunMaximal(c, runs[k]);
      } else {
        FirstRun(c, runs);
        JoinedMaximal(c, runs[0], runs[last]);
      }
    } else {
      NotJoined(runs, l);
      var k :| 0 <= k < |runs| && runs[k].start == s && runs[k].length == len;
      RunMaximal(c, runs[k]);
    }
  }

  lemma NotJoined(runs: seq<Interval>, l: nat)
    ensures !JoinsAcross(runs, l) ==> Join(runs, l) == runs
  {
  }

  /** The parts of RunsBefore that the arguments below use. */
  lemma RunFacts(c: seq<real>, runs: seq<Interval>)
    requires RunsBefore(c, runs, |c|)
    ensures forall k :: 0 <= k < |runs| ==> IsRun(c, runs[k])
    ensures forall k :: 0 <= k < |runs| ==>
              runs[k].start >= 0 && runs[k].length >= 1 && runs[k].start + runs[k].length <= |c|
    ensures forall k, j :: 0 <= k < j < |runs| ==> runs[k].start + runs[k].length < runs[j].start
  {
  }

  lemma MaximalAreListed(c: seq<real>, runs: seq<Interval>, l: nat, s: int, len: int)
    requires ScanResult(c, runs, l) && BoundedRun(c, s, len)
    ensures Listed(Join(runs, l), s, len)
  {
    hide BoundedRun, Join, HasZero, RunsBefore, IsRun;
    JoinsExactlyWhenWraps(c, runs, l);
    RunFacts(c, runs);
    var n, last := |c|, |runs| - 1;
    var k := MaximalStartsRun(c, runs, s, len);
    RunMaximal(c, runs[k]);
    if !Wraps(c) {
      NotJoined(runs, l);
      MaximalUnique(c, s, len, runs[k].length);
      assert Join(runs, l)[k].start == s && Join(runs, l)[k].length == len;
    } else {
      FirstRun(c, runs);
      JoinLists(runs, l, s, len);
      if k == last {
        JoinedMaximal(c, runs[0], runs[last]);
        MaximalUnique(c, s, len, runs[0].length + runs[last].length);
      } else {
        FirstNotMaximal(c, s, len);
        MaximalUnique(c, s, len, runs[k].length);
      }
    }
  }

  /** When the day wraps, no maximal run starts at midnight. */
  lemma FirstNotMaximal(c: seq<real>, s: int, len: int)
    requires |c| > 0 && Wraps(c) && BoundedRun(c, s, len)
    ensures s > 0
  {
  }

  lemma ScanGivesResult(c: seq<real>)
    requires |c| > 0 && HasZero(c) && NoFlips(c)
    ensures ScanResult(c, LinearRuns(c), ScanTo(c, |c|).len)
  {
    hide RunsBefore, LinearRuns, ScanTo, HasZero, NoFlips;
    LinearRunsAreRuns(c);
  }

  /**
   * With an insignificant hour and no direct change of sign, the reported intervals are exactly
   * the maximal runs of one sign on the circle of hours, the one across midnight included.
   */
  lemma IntervalsAreMaximalRuns(c: seq<real>, s: int, len: int)
    requires |c| > 0 && HasZero(c) && NoFlips(c)
    ensures Listed(Intervals(c), s, len) <==> MaximalRun(c, s, len)
  {
    hide Listed, BoundedRun, LinearRuns, ScanTo, Join, ScanResult, HasZero, NoFlips;
    ScanGivesResult(c);
    var runs, l := LinearRuns(c), ScanTo(c, |c|).len;
    if Listed(Intervals(c), s, len) {
      ListedAreMaximal(c, runs, l, s, len);
    }
    NotWholeCircle(c);
    if BoundedRun(c, s, len) {
      MaximalAreListed(c, runs, l, s, len);
    }
  }

  /** On the circle the interval covers hour h. */
  predicate Covers(iv: Interval, h: int, n: nat) {
    Contains(iv, h) || Contains(iv, h + n)
  }

  /** No two reported intervals share an hour; in particular each is reported once. */
  lemma IntervalsDisjoint(c: seq<real>, j: nat, k: nat, h: nat)
    requires |c| > 0 && HasZero(c) && NoFlips(c)
    requires j < k < |Intervals(c)| && h < |c|
    ensures !(Covers(Intervals(c)[j], h, |c|) && Covers(Intervals(c)[k], h, |c|))
  {
    hide LinearRuns, ScanTo, HasZero, NoFlips, RunsBefore, IsRun;
    ScanGivesResult(c);
    var runs, l := LinearRuns(c), ScanTo(c, |c|).len;
    RunFacts(c, runs);
    JoinsExactlyWhenWraps(c, runs, l);
    if Wraps(c) {
      FirstRun(c, runs);
      var last := |runs| - 1;
      assert runs[0].start + runs[0].length < runs[j + 1].start;
      assert runs[j + 1].start + runs[j + 1].length < runs[k + 1].start;
    } else {
      assert runs[j].start + runs[j].length < runs[k].start;
    }
  }

  // ----- a direct change of sign hides a run -----

  ghost predicate AfterZero(c: seq<real>, s: int) {
    s == 0 || (0 < s <= |c| && c[s - 1] == 0.0)
  }

  lemma {:induction false} DoneAfterZero(c: seq<real>, t: nat)
    requires |c| > 0 && t <= |c|
    ensures forall k :: 0 <= k < |ScanTo(c, t).done| ==> AfterZero(c, ScanTo(c, t).done[k].start)
  {
    if t > 0 {
      DoneAfterZero(c, t - 1);
      ScanCounts(c, t - 1);
    }
  }

  /** Whatever the signs, an interval only ever starts at midnight or after an insignificant hour. */
  lemma IntervalsStartAfterZero(c: seq<real>, k: nat)
    requires |c| > 0 && k < |Intervals(c)|
    ensures AfterZero(c, Intervals(c)[k].start)
  {
    hide ScanTo;
    DoneAfterZero(c, |c|);
    ScanCounts(c, |c|);
    assert forall j :: 0 <= j < |LinearRuns(c)| ==> AfterZero(c, LinearRuns(c)[j].start);
  }

  /** From hour s on, how far the sign of that hour reaches. */
  lemma {:induction false} Reach(c: seq<real>, s: nat, z: nat, k: nat) returns (len: nat)
    requires s < |c| && 1 <= k <= z <= |c| && HourSign(c, s, z) != Sign(c[s])
    requires forall i :: 0 <= i < k ==> HourSign(c, s, i) == Sign(c[s])
    ensures k <= len <= z && HourSign(c, s, len) != Sign(c[s])
    ensures forall i :: 0 <= i < len ==> HourSign(c, s, i) == Sign(c[s])
    decreases z - k
  {
    if HourSign(c, s, k) != Sign(c[s]) {
      len := k;
    } else {
      len := Reach(c, s, z, k + 1);
    }
  }

  lemma FlipStartsBoundedRun(c: seq<real>, i: nat) returns (len: nat)
    requires Flip(c, i)
    ensures BoundedRun(c, i, len)
  {
    var n := |c|;
    assert HourSign(c, i, n - 1) == Sign(c[i - 1]);
    assert HourSign(c, i, 0) == Sign(c[i]);
    len := Reach(c, i, n - 1, 1);
  }

  lemma NoFlipsOneSign(c: seq<real>, h: nat)
    requires h < |c| && !HasZero(c) && NoFlips(c)
    ensures Sign(c[h]) == Sign(c[0]) != 0
  {
    if h > 0 {
      NoFlipsOneSign(c, h - 1);
      assert !Flip(c, h);
    }
  }

  /** A day with no insignificant hour has a maximal run that is not reported. */
  lemma FullDayHidesRun(c: seq<real>) returns (s: int, len: int)
    requires |c| > 0 && !HasZero(c)
    ensures MaximalRun(c, s, len) && !Listed(Intervals(c), s, len)
  {
    hide BoundedRun, Intervals, Flip;
    TotalLengthExactlyWhen(c);
    if NoFlips(c) {
      forall h | 0 <= h < |c| ensures Sign(c[h]) == Sign(c[0]) != 0 {
        NoFlipsOneSign(c, h);
      }
      s, len := 0, |c|;
    } else {
      var i :| 1 <= i < |c| && Flip(c, i);
      s := i;
      len := FlipStartsBoundedRun(c, i);
    }
  }

  /**
   * For every day: the intervals are the maximal runs exactly when some hour is not significant
   * and no hour follows directly on the opposite sign.
   */
  lemma MaximalRunsExactlyWhen(c: seq<real>)
    requires |c| > 0
    ensures (forall s, len :: Listed(Intervals(c), s, len) <==> MaximalRun(c, s, len)) <==> HasZero(c) && NoFlips(c)
  {
    hide MaximalRun, Intervals, HasZero;
    if !HasZero(c) {
      var s, len := FullDayHidesRun(c);
    } else if NoFlips(c) {
      forall s, len ensures Listed(Intervals(c), s, len) <==> MaximalRun(c, s, len) {
        IntervalsAreMaximalRuns(c, s, len);
      }
    } else {
      var i :| 1 <= i < |c| && Flip(c, i);
      var len := FlipStartsBoundedRun(c, i);
      BoundedIsMaximal(c, i, len);
      forall k | 0 <= k < |Intervals(c)| ensures Intervals(c)[k].start != i {
        IntervalsStartAfterZero(c, k);
      }
      assert !Listed(Intervals(c), i, len);
    }
  }

  /** The smallest case: the second hour is a maximal run of its own, and it is not reported. */
  lemma FlipExample()
    ensures var c := [1.0, -1.0, 0.0]; MaximalRun(c, 1, 1) && !Listed(Intervals(c), 1, 1)
  {
    var c := [1.0, -1.0, 0.0];
    assert HourSign(c, 1, 0) == -1 && HourSign(c, 1, 1) == 0 && HourSign(c, 1, 2) == 1;
    forall k | 0 <= k < |Intervals(c)| ensures Intervals(c)[k].start != 1 {
      IntervalsStartAfterZero(c, k);
    }
  }
}
