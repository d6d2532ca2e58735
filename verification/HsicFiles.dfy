/**
 * The bootstrap form of the HSIC test with its threshold file.  The name of the file carries the
 * number of samples and the columns of X; its content depends on the samples themselves.
 */
module HsicFiles {
  import opened Sums
  import opened Permutations
  import opened RbfDot
  import opened Hsic
  import opened HsicTest
  import Bootstrap

  ghost predicate Testable(x: Sample, y: Sample) {
    |x.rows| == |y.rows| > 0 && x.deg != 0.0 && y.deg != 0.0
  }

  /** hsicArr after the loop: X against Y in each of the drawn orders */
  ghost function ShuffledStats(exp: real -> real, x: Sample, y: Sample, perms: seq<seq<int>>): (r: seq<real>)
    requires Testable(x, y) && Bootstrap.IsRun(perms, |x.rows|)
    ensures |r| == |perms|
  {
    seq(|perms|, t requires 0 <= t < |perms| => StatOf(exp, x, Reordered(y, perms[t])))
  }

  /** Some draw of orders fills hsicArr with `stats`. */
  ghost predicate Reaches(exp: real -> real, x: Sample, y: Sample, stats: seq<real>)
    requires Testable(x, y)
  {
    exists perms :: Bootstrap.IsRun(perms, |x.rows|) && ShuffledStats(exp, x, y, perms) == stats
  }

  // ----- the entries are free of each other -----

  /** The statistic of X against Y in some order. */
  ghost predicate StatOfSomeOrder(exp: real -> real, x: Sample, y: Sample, v: real)
    requires Testable(x, y)
  {
    exists p :: IsPerm(p, |x.rows|) && v == StatOf(exp, x, Reordered(y, p))
  }

  lemma {:induction false} OrdersFor(exp: real -> real, x: Sample, y: Sample, stats: seq<real>)
      returns (perms: seq<seq<int>>)
    requires Testable(x, y) && forall t :: 0 <= t < |stats| ==> StatOfSomeOrder(exp, x, y, stats[t])
    ensures Bootstrap.IsRun(perms, |x.rows|) && |perms| == |stats|
    ensures forall t :: 0 <= t < |stats| ==> stats[t] == StatOf(exp, x, Reordered(y, perms[t]))
  {
    hide StatOf, Injective;
    perms := [];
    if stats != [] {
      var n := |stats| - 1;
      var init := OrdersFor(exp, x, y, stats[..n]);
      assert StatOfSomeOrder(exp, x, y, stats[n]);
      var p :| IsPerm(p, |x.rows|) && stats[n] == StatOf(exp, x, Reordered(y, p));
      perms := init + [p];
    }
  }

  /** Shuffling leaves an array exactly when each entry, on its own, is the statistic of some order of Y. */
  lemma ReachesExactlyWhen(exp: real -> real, x: Sample, y: Sample, stats: seq<real>)
    requires Testable(x, y)
    ensures Reaches(exp, x, y, stats) <==> forall t :: 0 <= t < |stats| ==> StatOfSomeOrder(exp, x, y, stats[t])
  {
    hide StatOf, Injective;
    if forall t :: 0 <= t < |stats| ==> StatOfSomeOrder(exp, x, y, stats[t]) {
      var perms := OrdersFor(exp, x, y, stats);
      assert ShuffledStats(exp, x, y, perms) == stats;
    }
    if Reaches(exp, x, y, stats) {
      var perms :| Bootstrap.IsRun(perms, |x.rows|) && ShuffledStats(exp, x, y, perms) == stats;
      forall t | 0 <= t < |stats| ensures StatOfSomeOrder(exp, x, y, stats[t]) {
        assert stats[t] == StatOf(exp, x, Reordered(y, perms[t]));
      }
    }
  }

  // ----- the order of the rows does not matter -----

  /** The order of the reordered Y that faces the reordered X as `ind` does without reordering. */
  ghost function Carried(p: seq<int>, q: seq<int>, ind: seq<int>, m: nat): (r: seq<int>)
    requires IsPerm(p, m) && IsPerm(q, m) && IsPerm(ind, m)
    ensures IsPerm(r, m) && Pick(q, r) == Pick(ind, p)
  {
    InverseLaws(q, m);
    PickPerm(ind, p, m);
    PickPerm(Inverse(q, m), Pick(ind, p), m);
    PickAssoc(q, Inverse(q, m), Pick(ind, p));
    assert Pick(Range(m), Pick(ind, p)) == Pick(ind, p);
    Pick(Inverse(q, m), Pick(ind, p))
  }

  lemma CarriedStat(exp: real -> real, x: Sample, y: Sample, p: seq<int>, q: seq<int>, ind: seq<int>)
    requires Testable(x, y) && IsPerm(p, |x.rows|) && IsPerm(q, |x.rows|) && IsPerm(ind, |x.rows|)
    ensures var c := Carried(p, q, ind, |x.rows|);
            StatOf(exp, Reordered(x, p), Reordered(Reordered(y, q), c)) == StatOf(exp, x, Reordered(y, ind))
  {
    hide StatOf, Carried, Injective;
    var c := Carried(p, q, ind, |x.rows|);
    PickAssoc(y.rows, q, c);
    PickAssoc(y.rows, ind, p);
    assert Reordered(Reordered(y, q), c) == Reordered(Reordered(y, ind), p);
    StatOfRelabelled(exp, x, Reordered(y, ind), p);
  }

  lemma ReachesReordered(exp: real -> real, x: Sample, y: Sample, p: seq<int>, q: seq<int>, stats: seq<real>)
    requires Testable(x, y) && IsPerm(p, |x.rows|) && IsPerm(q, |x.rows|)
    requires Reaches(exp, x, y, stats)
    ensures Reaches(exp, Reordered(x, p), Reordered(y, q), stats)
  {
    hide StatOf, Carried, Injective;
    var m := |x.rows|;
    var perms :| Bootstrap.IsRun(perms, m) && ShuffledStats(exp, x, y, perms) == stats;
    var carried := seq(|perms|, t requires 0 <= t < |perms| => Carried(p, q, perms[t], m));
    assert Bootstrap.IsRun(carried, m);
    forall t | 0 <= t < |perms|
      ensures ShuffledStats(exp, Reordered(x, p), Reordered(y, q), carried)[t] == stats[t]
    {
      CarriedStat(exp, x, y, p, q, perms[t]);
    }
    assert ShuffledStats(exp, Reordered(x, p), Reordered(y, q), carried) == stats;
  }

  lemma ReorderedBack(s: Sample, p: seq<int>)
    requires IsPerm(p, |s.rows|)
    ensures IsPerm(Inverse(p, |s.rows|), |s.rows|)
    ensures Reordered(Reordered(s, p), Inverse(p, |s.rows|)) == s
  {
    InverseLaws(p, |s.rows|);
  }

  /** Reordering the rows of X and those of Y, each in its own way, keeps what shuffling can reach. */
  lemma ReachesInAnyOrder(exp: real -> real, x: Sample, y: Sample, p: seq<int>, q: seq<int>, stats: seq<real>)
    requires Testable(x, y) && IsPerm(p, |x.rows|) && IsPerm(q, |x.rows|)
    ensures Reaches(exp, x, y, stats) <==> Reaches(exp, Reordered(x, p), Reordered(y, q), stats)
  {
    hide Reaches, Injective;
    var m := |x.rows|;
    if Reaches(exp, x, y, stats) {
      ReachesReordered(exp, x, y, p, q, stats);
    }
    if Reaches(exp, Reordered(x, p), Reordered(y, q), stats) {
      ReorderedBack(x, p);
      ReorderedBack(y, q);
      ReachesReordered(exp, Reordered(x, p), Reordered(y, q), Inverse(p, m), Inverse(q, m), stats);
    }
  }

  // ----- but the rows do: all there is for samples of two rows -----

  lemma TwoRowStat(K: Mat, L: Mat, k: real, l: real)
    requires K(0, 0) == K(1, 1) == 1.0 && K(0, 1) == K(1, 0) == k
    requires L(0, 0) == L(1, 1) == 1.0 && L(0, 1) == L(1, 0) == l
    ensures BootStat(2, K, L) == (1.0 - k) * (1.0 - l) / 4.0
  {
    hide Centre;
    TwoRowCentre(K, k);
    var f := TimesTransposed(Centre(2, K), L);
    TwoTerms(RowSums(2, f));
    TwoTerms(Row(f, 0));
    TwoTerms(Row(f, 1));
  }

  lemma TwoRowCentre(K: Mat, k: real)
    requires K(0, 0) == K(1, 1) == 1.0 && K(0, 1) == K(1, 0) == k
    ensures var Kc, c := Centre(2, K), (1.0 - k) / 2.0;
            Kc(0, 0) == Kc(1, 1) == c && Kc(0, 1) == Kc(1, 0) == -c
  {
    hide Mul;
    var A := Mul(2, H(2), K);
    forall i, j | 0 <= i < 2 && 0 <= j < 2 ensures A(i, j) == K(i, j) - (1.0 + k) / 2.0 {
      MulLeftH(2, K, i, j);
      TwoTerms(Row(Transpose(K), j));
    }
    forall i, j | 0 <= i < 2 && 0 <= j < 2 ensures Centre(2, K)(i, j) == A(i, j) {
      MulRightH(2, A, i, j);
      TwoTerms(Row(A, i));
    }
  }

  lemma TwoTerms(f: int -> real)
    ensures Sum(2, f) == f(0) + f(1)
  {
    assert Sum(2, f) == Sum(1, f) + f(1);
  }

  /** (1-k)*(1-l)/4 for the one kernel value of X and the one of Y off the diagonal */
  ghost function TwoRowValue(exp: real -> real, x: Sample, y: Sample): real
    requires Testable(x, y) && |x.rows| == 2
  {
    (1.0 - GramOf(exp, x)(0, 1)) * (1.0 - GramOf(exp, y)(0, 1)) / 4.0
  }

  lemma TwoRowGram(exp: real -> real, s: Sample)
    requires ExpFacts(exp) && s.deg != 0.0
    ensures var K := GramOf(exp, s); K(0, 0) == K(1, 1) == 1.0 && K(0, 1) == K(1, 0)
  {
    hide ExpFacts, Kernel, GramOf, Coord, PatternAt;
    var a, b := PatternAt(s.rows, 0), PatternAt(s.rows, 1);
    GramAt(exp, s, 0, 0);
    GramAt(exp, s, 0, 1);
    GramAt(exp, s, 1, 0);
    GramAt(exp, s, 1, 1);
    KernelFacts(exp, s.d, a, a, s.deg);
    KernelFacts(exp, s.d, a, b, s.deg);
    KernelFacts(exp, s.d, b, b, s.deg);
  }

  /** The order of two rows makes no difference. */
  lemma TwoRowShuffle(exp: real -> real, x: Sample, y: Sample, p: seq<int>)
    requires ExpFacts(exp) && Testable(x, y) && |x.rows| == 2 && IsPerm(p, 2)
    ensures StatOf(exp, x, Reordered(y, p)) == TwoRowValue(exp, x, y)
  {
    hide GramOf, BootStat, Permuted, ExpFacts;
    var y' := Reordered(y, p);
    TwoRowGram(exp, x);
    TwoRowGram(exp, y);
    TwoRowGram(exp, y');
    GramReordered(exp, y, p, 0, 1);
    PermutedAt(p, 2, GramOf(exp, y), 0, 1);
    assert p[0] != p[1];
    TwoRowStat(GramOf(exp, x), GramOf(exp, y'), GramOf(exp, x)(0, 1), GramOf(exp, y)(0, 1));
  }

  /** From two rows shuffling reaches the constant arrays of one value, and no others. */
  lemma TwoRowsReach(exp: real -> real, x: Sample, y: Sample, stats: seq<real>)
    requires ExpFacts(exp) && Testable(x, y) && |x.rows| == 2
    ensures Reaches(exp, x, y, stats) <==> forall t :: 0 <= t < |stats| ==> stats[t] == TwoRowValue(exp, x, y)
  {
    hide StatOf, TwoRowValue, ExpFacts;
    forall p | IsPerm(p, 2) ensures StatOf(exp, x, Reordered(y, p)) == TwoRowValue(exp, x, y) {
      TwoRowShuffle(exp, x, y, p);
    }
    if forall t :: 0 <= t < |stats| ==> stats[t] == TwoRowValue(exp, x, y) {
      var perms := seq(|stats|, t => Range(2));
      assert Bootstrap.IsRun(perms, 2);
      assert ShuffledStats(exp, x, y, perms) == stats;
    }
  }

  /** The scale of the statistic: two rows apart by the kernel size, in X and in Y. */
  lemma TwoRowCalibrated(exp: real -> real, x: Sample, y: Sample)
    requires ExpFacts(exp) && Testable(x, y) && |x.rows| == 2
    requires PairwiseDistance(x.d, x.rows[0], x.rows[1]) == Square(x.deg)
    requires PairwiseDistance(y.d, y.rows[0], y.rows[1]) == Square(y.deg)
    ensures StatOf(exp, x, y) == (1.0 - exp(-0.5)) * (1.0 - exp(-0.5)) / 4.0
  {
    hide GramOf, Kernel, PairwiseDistance, Square, BootStat, ExpFacts;
    GramAt(exp, x, 0, 1);
    GramAt(exp, y, 0, 1);
    KernelCalibrated(exp, x.d, x.rows[0], x.rows[1], x.deg);
    KernelCalibrated(exp, y.d, y.rows[0], y.rows[1], y.deg);
    TwoRowGram(exp, x);
    TwoRowGram(exp, y);
    TwoRowStat(GramOf(exp, x), GramOf(exp, y), exp(-0.5), exp(-0.5));
  }

  // ----- what a file is good for -----

  datatype FileKey = FileKey(m: nat, dx: nat)
  datatype Saved = Saved(thresh: real, hsicArr: seq<real>)

  /** Some draw of orders for these samples leaves this file. */
  ghost predicate Fits(exp: real -> real, x: Sample, y: Sample, alpha: real, saved: Saved)
    requires Testable(x, y)
  {
    exists stats :: Reaches(exp, x, y, stats)
      && Bootstrap.Threshold(stats, alpha) == Bootstrap.Some(saved.thresh)
      && saved.hsicArr == Bootstrap.Sorted(stats)
  }

  lemma FreshFits(exp: real -> real, x: Sample, y: Sample, alpha: real, perms: seq<seq<int>>, saved: Saved)
    requires Testable(x, y) && Bootstrap.IsRun(perms, |x.rows|)
    requires var stats := ShuffledStats(exp, x, y, perms);
             Bootstrap.Threshold(stats, alpha) == Bootstrap.Some(saved.thresh)
             && saved.hsicArr == Bootstrap.Sorted(stats)
    ensures Fits(exp, x, y, alpha, saved)
  {
    hide ShuffledStats, Bootstrap.Threshold, Bootstrap.Sorted;
    assert Reaches(exp, x, y, ShuffledStats(exp, x, y, perms));
  }

  /** The same rows in some other order, with the same kernel size. */
  ghost predicate SameRows(s: Sample, s': Sample) {
    exists p :: IsPerm(p, |s.rows|) && s' == Reordered(s, p)
  }

  /** A file is as good for the same rows in any other order. */
  lemma FitsSameRows(exp: real -> real, x: Sample, y: Sample, x': Sample, y': Sample, alpha: real, saved: Saved)
    requires Testable(x, y) && SameRows(x, x') && SameRows(y, y')
    ensures Testable(x', y')
    ensures Fits(exp, x, y, alpha, saved) <==> Fits(exp, x', y', alpha, saved)
  {
    hide Reaches, Injective, Bootstrap.Threshold, Bootstrap.Sorted;
    var p :| IsPerm(p, |x.rows|) && x' == Reordered(x, p);
    var q :| IsPerm(q, |y.rows|) && y' == Reordered(y, q);
    forall stats ensures Reaches(exp, x, y, stats) <==> Reaches(exp, x', y', stats) {
      ReachesInAnyOrder(exp, x, y, p, q, stats);
    }
  }

  /** The threshold of a file for two rows is their value. */
  lemma TwoRowThreshold(exp: real -> real, x: Sample, y: Sample, alpha: real, saved: Saved)
    requires ExpFacts(exp) && Testable(x, y) && |x.rows| == 2 && Fits(exp, x, y, alpha, saved)
    ensures saved.thresh == TwoRowValue(exp, x, y)
  {
    hide Reaches, TwoRowValue, ExpFacts, Bootstrap.Sorted, Bootstrap.Threshold, Bootstrap.RankIndex;
    var stats :| Reaches(exp, x, y, stats) && Bootstrap.Threshold(stats, alpha) == Bootstrap.Some(saved.thresh);
    TwoRowsReach(exp, x, y, stats);
    Bootstrap.ThresholdIs(stats, alpha);
    Bootstrap.ThresholdIsOrderStatistic(stats, alpha);
  }

  /** A file for two rows fits other samples of two rows exactly when the two values agree. */
  lemma FitsExactlyWhen(exp: real -> real, x: Sample, y: Sample, x': Sample, y': Sample, alpha: real, saved: Saved)
    requires ExpFacts(exp) && Testable(x, y) && Testable(x', y') && |x.rows| == |x'.rows| == 2
    requires Fits(exp, x, y, alpha, saved)
    ensures Fits(exp, x', y', alpha, saved) <==> TwoRowValue(exp, x, y) == TwoRowValue(exp, x', y')
  {
    hide Reaches, TwoRowValue, ExpFacts, Bootstrap.Sorted, Bootstrap.Threshold;
    TwoRowThreshold(exp, x, y, alpha, saved);
    if Fits(exp, x', y', alpha, saved) {
      TwoRowThreshold(exp, x', y', alpha, saved);
    }
    var stats :| Reaches(exp, x, y, stats) && Bootstrap.Threshold(stats, alpha) == Bootstrap.Some(saved.thresh)
                 && saved.hsicArr == Bootstrap.Sorted(stats);
    TwoRowsReach(exp, x, y, stats);
    TwoRowsReach(exp, x', y', stats);
  }

  /** The value is zero exactly when one of the samples is a single point. */
  lemma TwoRowValueZero(exp: real -> real, x: Sample, y: Sample)
    requires ExpFacts(exp) && Testable(x, y) && |x.rows| == 2
    ensures TwoRowValue(exp, x, y) == 0.0 <==> OnePoint(x) || OnePoint(y)
  {
    hide ExpFacts, GramOf, OnePoint;
    TwoRowGram(exp, x);
    TwoRowGram(exp, y);
    AllOneMeansOnePoint(exp, x);
    AllOneMeansOnePoint(exp, y);
    assert AllOne(2, GramOf(exp, x)) <==> GramOf(exp, x)(0, 1) == 1.0;
    assert AllOne(2, GramOf(exp, y)) <==> GramOf(exp, y)(0, 1) == 1.0;
    QuarterZero(1.0 - GramOf(exp, x)(0, 1), 1.0 - GramOf(exp, y)(0, 1));
  }

  lemma QuarterZero(a: real, b: real)
    ensures a * b / 4.0 == 0.0 <==> a == 0.0 || b == 0.0
  {
  }

  /** Two different rows can leave a file that does not fit two equal ones, though both have its name. */
  lemma MisfitExample(exp: real -> real)
    requires ExpFacts(exp)
    ensures var x, x' := Sample([[0.0], [1.0]], 1, 1.0), Sample([[0.0], [0.0]], 1, 1.0);
            FileKey(|x.rows|, x.d) == FileKey(|x'.rows|, x'.d) &&
            exists saved :: Fits(exp, x, x, 0.0, saved) && !Fits(exp, x', x, 0.0, saved)
  {
    hide ExpFacts, TwoRowValue, Fits, ShuffledStats;
    var x, x' := Sample([[0.0], [1.0]], 1, 1.0), Sample([[0.0], [0.0]], 1, 1.0);
    var perms := [Range(2)];
    var stats := ShuffledStats(exp, x, x, perms);
    assert Bootstrap.RankIndex(0.0, |stats|) == 1;
    var saved := Saved(Bootstrap.Sorted(stats)[0], Bootstrap.Sorted(stats));
    FreshFits(exp, x, x, 0.0, perms, saved);
    assert Coord(x.rows[0], 0) != Coord(x.rows[1], 0);
    TwoRowValueZero(exp, x, x);
    TwoRowValueZero(exp, x', x);
    FitsExactlyWhen(exp, x, x, x', x, 0.0, saved);
  }

  // ----- the program -----

  /** The samples and the level that a file was computed with. */
  datatype Origin = Origin(x: Sample, y: Sample, alpha: real)

  ghost predicate OriginFits(exp: real -> real, key: FileKey, saved: Saved, o: Origin) {
    Testable(o.x, o.y) && key == FileKey(|o.x.rows|, o.x.d) && Fits(exp, o.x, o.y, o.alpha, saved)
  }

  class ThresholdFiles {
    var files: map<FileKey, Saved>
    ghost var origin: map<FileKey, Origin>

    /** Every file fits the samples that it was computed with. */
    ghost predicate Valid(exp: real -> real)
      reads this
    {
      forall key :: key in files ==> key in origin && OriginFits(exp, key, files[key], origin[key])
    }

    constructor ()
      ensures files == map[] && origin == map[] && forall exp :: Valid(exp)
    {
      files, origin := map[], map[];
    }

    /** The shuffle loop: one centred matrix against the other in the drawn orders. */
    method Shuffle(exp: real -> real, x: Sample, y: Sample, perms: seq<seq<int>>) returns (hsicArr: seq<real>)
      requires Testable(x, y) && Bootstrap.IsRun(perms, |x.rows|)
      ensures hsicArr == ShuffledStats(exp, x, y, perms)
    {
      hide GramOf, Centre, Inner, Permuted;
      var m := |x.rows|;
      var Kc, L := Centre(m, GramOf(exp, x)), GramOf(exp, y);
      hsicArr := [];
      for whichSh := 0 to |perms|
        invariant |hsicArr| == whichSh
        invariant forall t :: 0 <= t < whichSh ==> hsicArr[t] == StatOf(exp, x, Reordered(y, perms[t]))
      {
        var indL := perms[whichSh];
        var stat := 1.0 / (m as real * m as real) * Inner(m, Kc, Permuted(indL, L));
        ShuffleIsReordering(exp, x, y, indL);
        hsicArr := hsicArr + [stat];
      }
    }

    /**
     * The test, for any history of the files.  The threshold, just computed or loaded, is one that
     * shuffling the samples behind the file gives, and so one for these samples when they have the
     * same rows.
     */
    method HsicTestBoot(exp: real -> real, x: Sample, y: Sample, alpha: real, bootForce: bool, perms: seq<seq<int>>)
        returns (thresh: Bootstrap.Option<real>, testStat: real)
      requires Testable(x, y) && Bootstrap.IsRun(perms, |x.rows|) && Valid(exp)
      modifies this
      ensures Valid(exp) && testStat == StatOf(exp, x, y)
      ensures var key, stats := FileKey(|x.rows|, x.d), ShuffledStats(exp, x, y, perms);
              if key in old(files) && !bootForce then
                thresh == Bootstrap.Some(old(files)[key].thresh) && files == old(files) && origin == old(origin)
              else
                && thresh == Bootstrap.Threshold(stats, alpha)
                && (thresh.Some? <==> 1 <= Bootstrap.RankIndex(alpha, |perms|) <= |perms|)
                && if thresh.Some? then
                     && files == old(files)[key := Saved(thresh.value, Bootstrap.Sorted(stats))]
                     && origin == old(origin)[key := Origin(x, y, alpha)]
                   else files == old(files) && origin == old(origin)
      ensures thresh.Some? ==>
                var key := FileKey(|x.rows|, x.d);
                && key in origin && key in files && thresh.value == files[key].thresh
                && var o := origin[key];
                   SameRows(o.x, x) && SameRows(o.y, y) ==> Fits(exp, x, y, o.alpha, files[key])
    {
      hide GramOf, Centre, Inner, ShuffledStats, Bootstrap.Threshold, Bootstrap.Sorted, Bootstrap.RankIndex,
           Fits, Reaches, SameRows;
      var m := |x.rows|;
      var key := FileKey(m, x.d);
      testStat := 1.0 / (m as real * m as real) * Inner(m, Centre(m, GramOf(exp, x)), GramOf(exp, y));
      if key !in files || bootForce {
        var stats := Shuffle(exp, x, y, perms);
        var hsicArr := Bootstrap.Sorted(stats);
        var k := Bootstrap.RankIndex(alpha, |perms|);
        Bootstrap.ThresholdIs(stats, alpha);
        if k < 1 || |perms| < k {
          return Bootstrap.None, testStat;
        }
        thresh := Bootstrap.Some(hsicArr[k - 1]);
        files := files[key := Saved(hsicArr[k - 1], hsicArr)];
        origin := origin[key := Origin(x, y, alpha)];
        FreshFits(exp, x, y, alpha, perms, files[key]);
      } else {
        thresh := Bootstrap.Some(files[key].thresh);
      }
      ghost var o := origin[key];
      if SameRows(o.x, x) && SameRows(o.y, y) {
        FitsSameRows(exp, o.x, o.y, x, y, o.alpha, files[key]);
      }
    }
  }
}
