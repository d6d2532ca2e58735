/** The log-likelihood-ratio statistic over the same cells. */
module LikelihoodRatio {
  import opened Sums
  import opened EqualPartition
  import opened PartitionTheorems
  import opened Contingency
  import L1Test

  /** 2*(Nj/L)*log((Nj/L)/(1/q^dx/q^dy)), skipped for an empty cell */
  function CellTerm(log: real -> real, nj: nat, L: nat, c: real): real
    requires L > 0 && c > 0.0
  {
    if nj == 0 then 0.0 else
      var p := nj as real / L as real;
      2.0 * p * log(p / c)
  }

  function Term(log: real -> real, x: Labelling, y: Labelling, a: nat, b: nat, L: nat): (int, int) -> real
    requires a > 0 && b > 0 && L > 0
  {
    UniformFacts(a, b);
    (i, j) => CellTerm(log, Count(x, y, i, j), L, Uniform(a, b))
  }

  function Statistic(log: real -> real, x: Labelling, y: Labelling, a: nat, b: nat, L: nat): real
    requires a > 0 && b > 0 && L > 0
  {
    Sum2(a, b, Term(log, x, y, a, b, L))
  }

  /** The double loop, which leaves `testStat` alone at an empty cell. */
  method Accumulate(log: real -> real, x: Labelling, y: Labelling, a: nat, b: nat, L: nat) returns (testStat: real)
    requires a > 0 && b > 0 && L > 0
    ensures testStat == Statistic(log, x, y, a, b, L)
  {
    hide Partial, Sum2, Term, Count, Uniform, Statistic;
    testStat := 0.0;
    UniformFacts(a, b);
    ghost var term := Term(log, x, y, a, b, L);
    PartialSteps(a, b, term, 0, 0);
    for indCellX := 0 to a
      invariant testStat == Partial(b, term, indCellX, 0)
    {
      for indCellY := 0 to b
        invariant testStat == Partial(b, term, indCellX, indCellY)
      {
        var nj := Count(x, y, indCellX, indCellY);
        if nj != 0 {
          var p := nj as real / L as real;
          testStat := testStat + 2.0 * p * log(p / Uniform(a, b));
        }
        TermAt(log, x, y, a, b, L, indCellX, indCellY);
        PartialSteps(a, b, term, indCellX, indCellY);
      }
      PartialSteps(a, b, term, indCellX, 0);
    }
    StatisticIs(log, x, y, a, b, L);
  }

  lemma TermAt(log: real -> real, x: Labelling, y: Labelling, a: nat, b: nat, L: nat, i: int, j: int)
    requires a > 0 && b > 0 && L > 0 && Uniform(a, b) > 0.0
    ensures Term(log, x, y, a, b, L)(i, j) == CellTerm(log, Count(x, y, i, j), L, Uniform(a, b))
  {
  }

  lemma StatisticIs(log: real -> real, x: Labelling, y: Labelling, a: nat, b: nat, L: nat)
    requires a > 0 && b > 0 && L > 0
    ensures Statistic(log, x, y, a, b, L) == Sum2(a, b, Term(log, x, y, a, b, L))
  {
  }

  /** The one fact about the logarithm that the sign of the statistic needs. */
  ghost predicate LogBound(log: real -> real) {
    forall t :: t > 0.0 ==> log(t) >= 1.0 - 1.0 / t
  }

  /** And the facts that decide when the statistic is zero. */
  ghost predicate LogStrict(log: real -> real) {
    log(1.0) == 0.0 && forall t :: t > 0.0 && t != 1.0 ==> log(t) > 1.0 - 1.0 / t
  }

  lemma TermBound(log: real -> real, p: real, c: real)
    requires LogBound(log) && p > 0.0 && c > 0.0
    ensures 2.0 * p * log(p / c) >= 2.0 * p - 2.0 * c
    ensures LogStrict(log) && 2.0 * p * log(p / c) == 2.0 * p - 2.0 * c ==> p == c
  {
    var t := p / c;
    assert t > 0.0 && t * c == p;
    var l, u := log(t), 1.0 - 1.0 / t;
    assert p * (1.0 / t) == c;
    assert p * u == p - c;
    Scaled(2.0 * p, l, u);
  }

  lemma Scaled(k: real, l: real, u: real)
    requires k > 0.0
    ensures l >= u ==> k * l >= k * u
    ensures l > u ==> k * l > k * u
  {
  }

  ghost function Excess(x: Labelling, y: Labelling, a: nat, b: nat, L: nat): (int, int) -> real
    requires a > 0 && b > 0 && L > 0
  {
    (i, j) => 2.0 * Freq(x, y, L)(i, j) + (-2.0) * Uniform(a, b)
  }

  lemma ExcessTotal(x: Labelling, y: Labelling, a: nat, b: nat, L: nat)
    requires a > 0 && b > 0 && L > 0 && Tiles(x, a, L) && Tiles(y, b, L)
    ensures Sum2(a, b, Excess(x, y, a, b, L)) == 0.0
  {
    hide Tiles, Uniform, Sum2, Freq;
    var freq := Freq(x, y, L);
    var uniform := (i: int, j: int) => Uniform(a, b);
    var f, g := (i, j) => 2.0 * freq(i, j), (i, j) => (-2.0) * uniform(i, j);
    FreqTotal(x, y, a, b, L);
    UniformTotal(a, b, uniform);
    Sum2Scale(a, b, 2.0, freq, f);
    Sum2Scale(a, b, -2.0, uniform, g);
    Sum2Add(a, b, f, g, Excess(x, y, a, b, L));
  }

  lemma CellTermBound(log: real -> real, nj: nat, L: nat, c: real)
    requires L > 0 && c > 0.0 && LogBound(log)
    ensures var p := nj as real / L as real;
            && 2.0 * p - 2.0 * c <= CellTerm(log, nj, L, c)
            && (LogStrict(log) && 2.0 * p - 2.0 * c == CellTerm(log, nj, L, c) ==> p == c)
            && (log(1.0) == 0.0 && p == c ==> CellTerm(log, nj, L, c) == 0.0)
  {
    hide LogBound, LogStrict;
    var p := nj as real / L as real;
    if nj > 0 {
      assert p > 0.0;
      TermBound(log, p, c);
      assert p == c ==> p / c == 1.0;
    }
  }

  lemma ExcessAt(x: Labelling, y: Labelling, a: nat, b: nat, L: nat, i: int, j: int)
    requires a > 0 && b > 0 && L > 0
    ensures Freq(x, y, L)(i, j) == Count(x, y, i, j) as real / L as real
    ensures Excess(x, y, a, b, L)(i, j) == 2.0 * Freq(x, y, L)(i, j) - 2.0 * Uniform(a, b)
  {
  }

  lemma TermAboveExcess(log: real -> real, x: Labelling, y: Labelling, a: nat, b: nat, L: nat, i: int, j: int)
    requires a > 0 && b > 0 && L > 0 && LogBound(log)
    ensures Excess(x, y, a, b, L)(i, j) <= Term(log, x, y, a, b, L)(i, j)
    ensures LogStrict(log) && Excess(x, y, a, b, L)(i, j) == Term(log, x, y, a, b, L)(i, j) ==>
              Freq(x, y, L)(i, j) == Uniform(a, b)
    ensures log(1.0) == 0.0 && Freq(x, y, L)(i, j) == Uniform(a, b) ==> Term(log, x, y, a, b, L)(i, j) == 0.0
  {
    hide *;
    UniformFacts(a, b);
    ExcessAt(x, y, a, b, L, i, j);
    TermAt(log, x, y, a, b, L, i, j);
    CellTermBound(log, Count(x, y, i, j), L, Uniform(a, b));
  }

  /** The statistic is never negative, whatever the data and with empty cells skipped. */
  lemma StatisticNonNegative(log: real -> real, x: Labelling, y: Labelling, a: nat, b: nat, L: nat)
    requires a > 0 && b > 0 && L > 0 && Tiles(x, a, L) && Tiles(y, b, L) && LogBound(log)
    ensures Statistic(log, x, y, a, b, L) >= 0.0
  {
    hide Tiles, Term, Excess, Sum2, LogBound;
    var excess, term := Excess(x, y, a, b, L), Term(log, x, y, a, b, L);
    forall i, j ensures excess(i, j) <= term(i, j) {
      TermAboveExcess(log, x, y, a, b, L, i, j);
    }
    Sum2Mono(a, b, excess, term);
    ExcessTotal(x, y, a, b, L);
  }

  /** It is zero exactly when every cell holds its equal share of the samples. */
  lemma StatisticZeroExactlyWhen(log: real -> real, x: Labelling, y: Labelling, a: nat, b: nat, L: nat)
    requires a > 0 && b > 0 && L > 0 && Tiles(x, a, L) && Tiles(y, b, L) && LogBound(log) && LogStrict(log)
    ensures Statistic(log, x, y, a, b, L) == 0.0 <==>
            forall i, j :: 0 <= i < a && 0 <= j < b ==> Freq(x, y, L)(i, j) == Uniform(a, b)
  {
    hide Tiles, Term, Excess, Sum2, LogBound, Freq, Uniform;
    var excess, term := Excess(x, y, a, b, L), Term(log, x, y, a, b, L);
    var freq, c := Freq(x, y, L), Uniform(a, b);
    forall i, j
      ensures excess(i, j) <= term(i, j) && (excess(i, j) == term(i, j) ==> freq(i, j) == c)
      ensures freq(i, j) == c ==> term(i, j) == 0.0
    {
      TermAboveExcess(log, x, y, a, b, L, i, j);
    }
    ExcessTotal(x, y, a, b, L);
    if Statistic(log, x, y, a, b, L) == 0.0 {
      Sum2Mono(a, b, excess, term);
    } else if forall i, j :: 0 <= i < a && 0 <= j < b ==> freq(i, j) == c {
      Sum2Const(a, b, 0.0, term);
    }
  }

  method LikeRatioTest(log: real -> real, X: Matrix, dx: nat, Y: Matrix, dy: nat, q: nat) returns (r: L1Test.Outcome)
    requires q >= 1 && HasColumns(X, dx) && HasColumns(Y, dy) && |X| == |Y|
    ensures r.Computed? <==> L1Test.Computable(|X|, dx, dy, q)
    ensures r.Computed? ==> |X| > 0 && Pow(q, dx) > 0 && Pow(q, dy) > 0
    ensures r.Computed? ==> r.testStat == Statistic(log, Label(X, dx, q), Label(Y, dy, q), Pow(q, dx), Pow(q, dy), |X|)
    ensures r.Computed? && LogBound(log) ==> r.testStat >= 0.0
  {
    hide Pow, Label, Statistic, LogBound, Tiles;
    var okX, x := L1Test.LabelSamples(X, dx, q);
    var okY, y := L1Test.LabelSamples(Y, dy, q);
    if !okX || !okY {
      return L1Test.PartitionError;
    }
    PowPositive(q, dx);
    PowPositive(q, dy);
    var testStat := Accumulate(log, x, y, Pow(q, dx), Pow(q, dy), |X|);
    LabelTiles(X, dx, q);
    LabelTiles(Y, dy, q);
    if LogBound(log) {
      StatisticNonNegative(log, x, y, Pow(q, dx), Pow(q, dy), |X|);
    }
    r := L1Test.Computed(testStat);
  }
}
