/**
 * Other forms of the two statistics, in terms of the samples that pairs of cells share: the L1
 * statistic is twice the surplus of the pairs above their equal share, and the likelihood-ratio
 * statistic is a mean over the samples.
 */
module StatisticForms {
  import opened Sums
  import opened Contingency
  import opened SampleCounts
  import L1Test
  import LikelihoodRatio

  // ----- the L1 statistic as total variation -----

  /** What pair (i, j) has above its equal share of the samples. */
  ghost function Surplus(x: Labelling, y: Labelling, a: nat, b: nat, L: nat): (int, int) -> real
    requires a > 0 && b > 0 && L > 0
  {
    (i, j) => var n := Shared(x, y, i, j, L);
              if n * (a * b) > L then n as real / L as real - 1.0 / (a * b) as real else 0.0
  }

  lemma SurplusAt(n: nat, a: nat, b: nat, L: nat)
    requires a > 0 && b > 0 && L > 0
    ensures var p, c := n as real / L as real, Uniform(a, b);
            Abs(p - c) == 2.0 * (if n * (a * b) > L then p - 1.0 / (a * b) as real else 0.0) - (p - c)
  {
    var k := (a * b) as real;
    assert k == a as real * b as real > 0.0;
    assert Uniform(a, b) == 1.0 / k;
    assert (n * (a * b)) as real == n as real * k;
    AboveShare(n as real, L as real, k);
  }

  lemma AboveShare(n: real, w: real, k: real)
    requires w > 0.0 && k > 0.0
    ensures n / w > 1.0 / k <==> n * k > w
  {
    var f, c := n / w, 1.0 / k;
    assert f * w == n && c * k == 1.0;
    var u := w * k;
    assert u > 0.0 && f * u == n * k && c * u == w;
    assert f > c ==> f * u > c * u;
    assert f <= c ==> f * u <= c * u;
  }

  lemma DeviationAsSurplus(x: Labelling, y: Labelling, a: nat, b: nat, L: nat, i: nat, j: nat)
    requires a > 0 && b > 0 && L > 0 && Tiles(x, a, L) && Tiles(y, b, L) && i < a && j < b
    ensures L1Test.Deviation(x, y, a, b, L)(i, j) + Freq(x, y, L)(i, j) ==
            2.0 * Surplus(x, y, a, b, L)(i, j) + Uniform(a, b)
  {
    hide Tiles, Count, Shared, Uniform, L1Test.Deviation;
    CountIsShared(x, y, a, b, L, i, j);
    L1Test.DeviationAt(x, y, a, b, L, i, j);
    SurplusAt(Shared(x, y, i, j, L), a, b, L);
    UniformIs(a, b);
  }

  /** The L1 statistic is twice the total surplus. */
  lemma L1IsTwiceSurplus(x: Labelling, y: Labelling, a: nat, b: nat, L: nat)
    requires a > 0 && b > 0 && L > 0 && Tiles(x, a, L) && Tiles(y, b, L)
    ensures L1Test.Statistic(x, y, a, b, L) == 2.0 * Sum2(a, b, Surplus(x, y, a, b, L))
  {
    hide *;
    var dev, sur, freq := L1Test.Deviation(x, y, a, b, L), Surplus(x, y, a, b, L), Freq(x, y, L);
    var c := Uniform(a, b);
    var uniform := (i: int, j: int) => c;
    var twice := (i, j) => 2.0 * sur(i, j);
    var left, right := (i, j) => dev(i, j) + freq(i, j), (i, j) => twice(i, j) + uniform(i, j);
    forall i, j | 0 <= i < a && 0 <= j < b ensures left(i, j) == right(i, j) {
      DeviationAsSurplus(x, y, a, b, L, i, j);
    }
    L1Test.StatisticIs(x, y, a, b, L);
    Sum2Ext(a, b, left, right);
    Sum2Add(a, b, dev, freq, left);
    Sum2Add(a, b, twice, uniform, right);
    Sum2Scale(a, b, 2.0, sur, twice);
    FreqTotal(x, y, a, b, L);
    UniformTotal(a, b, uniform);
  }

  lemma UniformIs(a: nat, b: nat)
    requires a > 0 && b > 0
    ensures Uniform(a, b) == 1.0 / a as real / b as real
  {
  }

  // ----- sums over the table are sums over the samples -----

  /** The one cell of a sample. */
  ghost function CellOf(l: Labelling, M: nat, L: nat, r: int): (i: nat)
    requires Tiles(l, M, L) && 0 <= r < L
    ensures i < M && forall j :: 0 <= j < M ==> (InCell(l, j, r) <==> j == i)
  {
    CellExists(l, M, L, r);
    var i :| 0 <= i < M && InCell(l, i, r);
    i
  }

  lemma CellExists(l: Labelling, M: nat, L: nat, r: int)
    requires Tiles(l, M, L) && 0 <= r < L
    ensures exists i :: 0 <= i < M && InCell(l, i, r)
    ensures forall i, j :: 0 <= i < M && 0 <= j < M && InCell(l, i, r) && InCell(l, j, r) ==> i == j
  {
    hide *;
    var i := ExactlyOneCell(l, M, L, r);
    assert InCell(l, i, r);
  }

  /** g at the pair of cells of a sample */
  ghost function AtPair(x: Labelling, y: Labelling, a: nat, b: nat, L: nat, g: (int, int) -> real): int -> real
    requires Tiles(x, a, L) && Tiles(y, b, L)
  {
    r => if 0 <= r < L then g(CellOf(x, a, L, r), CellOf(y, b, L, r)) else 0.0
  }

  /** The first n samples of each pair, weighed with g. */
  ghost function Weighed(x: Labelling, y: Labelling, n: nat, g: (int, int) -> real): (int, int) -> real {
    (i, j) => Shared(x, y, i, j, n) as real * g(i, j)
  }

  lemma {:induction false} SumBySamples(x: Labelling, y: Labelling, a: nat, b: nat, L: nat, n: nat,
                                        g: (int, int) -> real)
    requires Tiles(x, a, L) && Tiles(y, b, L) && n <= L
    ensures Sum2(a, b, Weighed(x, y, n, g)) == Sum(n, AtPair(x, y, a, b, L, g))
  {
    hide Tiles, InCell, Sum2, CellOf;
    if n == 0 {
      forall i, j ensures Weighed(x, y, 0, g)(i, j) == 0.0 {
        assert Shared(x, y, i, j, 0) == 0;
      }
      Sum2Const(a, b, 0.0, Weighed(x, y, 0, g));
    } else {
      var r := n - 1;
      SumBySamples(x, y, a, b, L, r, g);
      var prev, here := Weighed(x, y, r, g), (i, j) => if InPair(x, y, i, j, r) then g(i, j) else 0.0;
      forall i, j | 0 <= i < a && 0 <= j < b
        ensures Weighed(x, y, n, g)(i, j) == prev(i, j) + here(i, j)
      {
        OneMore(Shared(x, y, i, j, r), InPair(x, y, i, j, r), g(i, j));
      }
      Sum2Add(a, b, prev, here, Weighed(x, y, n, g));
      forall i, j | 0 <= i < a && 0 <= j < b
        ensures InPair(x, y, i, j, r) <==> i == CellOf(x, a, L, r) && j == CellOf(y, b, L, r)
      {
        assert InCell(x, i, r) <==> i == CellOf(x, a, L, r);
        assert InCell(y, j, r) <==> j == CellOf(y, b, L, r);
      }
      Sum2Delta(a, b, g, here, CellOf(x, a, L, r), CellOf(y, b, L, r));
    }
  }

  lemma OneMore(n: nat, more: bool, v: real)
    ensures (n + if more then 1 else 0) as real * v == n as real * v + if more then v else 0.0
  {
  }

  // ----- the likelihood-ratio statistic as a mean over the samples -----

  /** How often the pair of cells is filled above its equal share, in logarithms. */
  ghost function LogRatio(log: real -> real, x: Labelling, y: Labelling, a: nat, b: nat, L: nat): (int, int) -> real
    requires L > 0
  {
    (i, j) => log((Shared(x, y, i, j, L) * (a * b)) as real / L as real)
  }

  lemma TermIsWeighed(log: real -> real, n: nat, a: nat, b: nat, L: nat)
    requires a > 0 && b > 0 && L > 0 && Uniform(a, b) > 0.0
    ensures LikelihoodRatio.CellTerm(log, n, L, Uniform(a, b)) ==
            2.0 / L as real * (n as real * log((n * (a * b)) as real / L as real))
  {
    var p := n as real / L as real;
    var k := (a * b) as real;
    assert k == a as real * b as real > 0.0;
    assert Uniform(a, b) == 1.0 / k;
    assert (n * (a * b)) as real == n as real * k;
    assert p / (1.0 / k) == n as real * k / L as real;
    var v := log(p / Uniform(a, b));
    Regroup(n as real, L as real, v);
  }

  lemma Regroup(n: real, w: real, v: real)
    requires w > 0.0
    ensures 2.0 * (n / w) * v == 2.0 / w * (n * v)
  {
    var t := 1.0 / w;
    assert n / w == n * t && 2.0 / w == 2.0 * t;
    assert 2.0 * (n * t) * v == 2.0 * t * (n * v);
  }

  /**
   * The likelihood-ratio statistic is twice the mean, over the samples, of the logarithm of how much
   * their own pair of cells is filled above its equal share.  Empty pairs have no sample, so they
   * add nothing, whatever the value of log at 0.
   */
  lemma RatioIsSampleMean(log: real -> real, x: Labelling, y: Labelling, a: nat, b: nat, L: nat)
    requires a > 0 && b > 0 && L > 0 && Tiles(x, a, L) && Tiles(y, b, L)
    ensures LikelihoodRatio.Statistic(log, x, y, a, b, L) ==
            2.0 / L as real * Sum(L, AtPair(x, y, a, b, L, LogRatio(log, x, y, a, b, L)))
  {
    hide Tiles, Count, Shared, Uniform, Sum2, LikelihoodRatio.CellTerm, LikelihoodRatio.Term, AtPair;
    var g := LogRatio(log, x, y, a, b, L);
    var term, weighed := LikelihoodRatio.Term(log, x, y, a, b, L), Weighed(x, y, L, g);
    UniformFacts(a, b);
    forall i, j | 0 <= i < a && 0 <= j < b ensures term(i, j) == 2.0 / L as real * weighed(i, j) {
      CountIsShared(x, y, a, b, L, i, j);
      LikelihoodRatio.TermAt(log, x, y, a, b, L, i, j);
      TermIsWeighed(log, Shared(x, y, i, j, L), a, b, L);
    }
    Sum2Scale(a, b, 2.0 / L as real, weighed, term);
    SumBySamples(x, y, a, b, L, L, g);
  }
}
