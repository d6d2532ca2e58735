/**
 * get_table_interval for one variable and one mode: the hours whose correlation is significant
 * are grouped into runs, and the last run is joined to the first one across midnight.
 * Hours are numbered from zero.
 */
module IonosIntervals {

  datatype Interval = Interval(start: int, length: int, mean: real)

  function Sign(x: real): int {
    if x > 0.0 then 1 else if x < 0.0 then -1 else 0
  }

  /** Correlations with a p-value above the threshold are set to zero. */
  function Discard(corr: seq<real>, pValues: seq<real>, threshold: real): (c: seq<real>)
    requires |corr| == |pValues|
    ensures |c| == |corr|
  {
    seq(|corr|, h requires 0 <= h < |corr| => if pValues[h] > threshold then 0.0 else corr[h])
  }

  /** The variables of the scan before hour t. */
  datatype Scan = Scan(start: nat, len: nat, acc: real, prev: int, done: seq<Interval>)

  function Closed(s: Scan): seq<Interval> {
    if s.len == 0 then s.done else s.done + [Interval(s.start, s.len, s.acc / s.len as real)]
  }

  function Step(s: Scan, t: nat, v: real): Scan {
    if v != 0.0 then
      if s.len == 0 || Sign(v) == s.prev then s.(len := s.len + 1, acc := v + s.acc, prev := Sign(v))
      else s.(prev := Sign(v))
    else Scan(t + 1, 0, 0.0, Sign(v), Closed(s))
  }

  function ScanTo(c: seq<real>, t: nat): Scan
    requires t <= |c| && |c| > 0
  {
    if t == 0 then Scan(0, 0, 0.0, Sign(c[0]), []) else Step(ScanTo(c, t - 1), t - 1, c[t - 1])
  }

  /** The first interval is taken off the front and its length added to the last one. */
  function Join(ivs: seq<Interval>, len: nat): seq<Interval> {
    if JoinsAcross(ivs, len) then
      var last := |ivs| - 1;
      ivs[last := ivs[last].(length := ivs[0].length + len)][1..]
    else ivs
  }

  predicate JoinsAcross(ivs: seq<Interval>, len: nat) {
    |ivs| >= 1 && len != 0 && ivs[0].start == 0 && Sign(ivs[|ivs| - 1].mean) == Sign(ivs[0].mean)
  }

  /** The intervals before and after the check across midnight. */
  function LinearRuns(c: seq<real>): seq<Interval>
    requires |c| > 0
  {
    Closed(ScanTo(c, |c|))
  }

  function Intervals(c: seq<real>): seq<Interval>
    requires |c| > 0
  {
    Join(LinearRuns(c), ScanTo(c, |c|).len)
  }

  // ----- what every scan keeps -----

  ghost predicate HasZero(c: seq<real>) {
    exists h :: 0 <= h < |c| && c[h] == 0.0
  }

  /** Hours i - 1 and i are both significant, with opposite signs. */
  predicate Flip(c: seq<real>, i: int) {
    1 <= i < |c| && Sign(c[i - 1]) == -Sign(c[i]) != 0
  }

  function SigCount(c: seq<real>, t: nat): nat
    requires t <= |c|
  {
    if t == 0 then 0 else SigCount(c, t - 1) + if c[t - 1] != 0.0 then 1 else 0
  }

  function FlipCount(c: seq<real>, t: nat): nat
    requires t <= |c|
  {
    if t == 0 then 0 else FlipCount(c, t - 1) + if Flip(c, t - 1) then 1 else 0
  }

  function TotalLength(ivs: seq<Interval>): int {
    if ivs == [] then 0 else TotalLength(ivs[..|ivs| - 1]) + ivs[|ivs| - 1].length
  }

  /** Where the open run stands: it holds the significant hours since the last zero. */
  ghost predicate OpenRun(c: seq<real>, t: nat, s: Scan)
    requires t <= |c|
  {
    && s.start <= t && (s.start == 0 || c[s.start - 1] == 0.0)
    && (forall h :: s.start <= h < t ==> c[h] != 0.0)
    && (s.len == 0 <==> s.start == t)
    && (s.start < t ==> s.prev == Sign(c[t - 1]))
    && (forall k :: 0 <= k < |s.done| ==> s.done[k].start < s.start)
  }

  lemma ClosedTotal(s: Scan)
    ensures TotalLength(Closed(s)) == TotalLength(s.done) + s.len
  {
  }

  lemma StepKeepsOpenRun(c: seq<real>, t: nat, s: Scan)
    requires t < |c| && OpenRun(c, t, s)
    ensures OpenRun(c, t + 1, Step(s, t, c[t]))
  {
  }

  lemma StepCounts(c: seq<real>, t: nat, s: Scan)
    requires t < |c| && OpenRun(c, t, s)
    ensures var s' := Step(s, t, c[t]);
            TotalLength(s'.done) + s'.len ==
            TotalLength(s.done) + s.len + (if c[t] != 0.0 then 1 else 0) - (if Flip(c, t) then 1 else 0)
  {
  }

  lemma {:induction false} ScanCounts(c: seq<real>, t: nat)
    requires |c| > 0 && t <= |c|
    ensures OpenRun(c, t, ScanTo(c, t))
    ensures TotalLength(ScanTo(c, t).done) + ScanTo(c, t).len == SigCount(c, t) - FlipCount(c, t)
  {
    hide Step, Flip;
    if t > 0 {
      ScanCounts(c, t - 1);
      StepKeepsOpenRun(c, t - 1, ScanTo(c, t - 1));
      StepCounts(c, t - 1, ScanTo(c, t - 1));
    }
  }

  lemma {:induction false} TotalLengthFront(ivs: seq<Interval>)
    requires ivs != []
    ensures TotalLength(ivs) == ivs[0].length + TotalLength(ivs[1..])
  {
    if |ivs| > 1 {
      TotalLengthFront(ivs[..|ivs| - 1]);
      assert ivs[..|ivs| - 1][1..] == ivs[1..][..|ivs| - 2];
    }
  }

  /** Joining moves the first length to the last place, unless first and last are the same. */
  lemma JoinTotal(ivs: seq<Interval>, len: nat)
    requires len != 0 && ivs != [] ==> ivs[|ivs| - 1].length == len
    ensures |ivs| != 1 || !JoinsAcross(ivs, len) ==> TotalLength(Join(ivs, len)) == TotalLength(ivs)
  {
    if JoinsAcross(ivs, len) && |ivs| > 1 {
      var last := |ivs| - 1;
      var joined := ivs[last := ivs[last].(length := ivs[0].length + len)];
      TotalLengthFront(joined);
      assert joined[..last] == ivs[..last];
    }
  }

  lemma NoZeroOneRun(c: seq<real>, t: nat)
    requires |c| > 0 && t <= |c| && !HasZero(c)
    ensures ScanTo(c, t).start == 0 && ScanTo(c, t).done == []
  {
  }

  /**
   * The interval lengths add up to the significant hours less the direct changes of sign, and
   * they do so exactly when some hour is not significant: otherwise the only run is joined to
   * itself and dropped.
   */
  lemma TotalLengthExactlyWhen(c: seq<real>)
    requires |c| > 0
    ensures TotalLength(Intervals(c)) == SigCount(c, |c|) - FlipCount(c, |c|) <==> HasZero(c)
    ensures !HasZero(c) ==> Intervals(c) == []
  {
    var n := |c|;
    var s := ScanTo(c, n);
    ScanCounts(c, n);
    ClosedTotal(s);
    JoinTotal(Closed(s), s.len);
    if HasZero(c) {
      assert s.start > 0;
    } else {
      NoZeroOneRun(c, n);
      assert Intervals(c) == [];
    }
  }
}
