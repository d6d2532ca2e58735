/** The L1 independence test statistic of Gretton and Gyorfi. */
module L1Test {
  import opened Sums
  import opened EqualPartition
  import opened PartitionTheorems
  import opened Contingency

  /** abs(Nj/L - 1/q^dx/q^dy) */
  function Deviation(x: Labelling, y: Labelling, a: nat, b: nat, L: nat): (int, int) -> real
    requires a > 0 && b > 0 && L > 0
  {
    (i, j) => Abs(Freq(x, y, L)(i, j) - Uniform(a, b))
  }

  /** The statistic of a table with a X cells, b Y cells and L samples. */
  function Statistic(x: Labelling, y: Labelling, a: nat, b: nat, L: nat): real
    requires a > 0 && b > 0 && L > 0
  {
    Sum2(a, b, Deviation(x, y, a, b, L))
  }

  /** The double loop over the cells that accumulates `testStat`. */
  method Accumulate(x: Labelling, y: Labelling, a: nat, b: nat, L: nat) returns (testStat: real)
    requires a > 0 && b > 0 && L > 0
    ensures testStat == Statistic(x, y, a, b, L)
  {
    hide *;
    testStat := 0.0;
    ghost var dev := Deviation(x, y, a, b, L);
    PartialSteps(a, b, dev, 0, 0);
    for indCellX := 0 to a
      invariant testStat == Partial(b, dev, indCellX, 0)
    {
      for indCellY := 0 to b
        invariant testStat == Partial(b, dev, indCellX, indCellY)
      {
        var nj := Count(x, y, indCellX, indCellY);
        testStat := testStat + Abs(nj as real / L as real - 1.0 / a as real / b as real);
        DeviationAt(x, y, a, b, L, indCellX, indCellY);
        PartialSteps(a, b, dev, indCellX, indCellY);
      }
      PartialSteps(a, b, dev, indCellX, 0);
    }
    StatisticIs(x, y, a, b, L);
  }

  lemma DeviationAt(x: Labelling, y: Labelling, a: nat, b: nat, L: nat, i: int, j: int)
    requires a > 0 && b > 0 && L > 0
    ensures Deviation(x, y, a, b, L)(i, j) == Abs(Count(x, y, i, j) as real / L as real - 1.0 / a as real / b as real)
  {
    hide Count;
    var p := Freq(x, y, L)(i, j);
    assert p == Count(x, y, i, j) as real / L as real;
    assert Deviation(x, y, a, b, L)(i, j) == Abs(p - Uniform(a, b));
  }

  lemma StatisticIs(x: Labelling, y: Labelling, a: nat, b: nat, L: nat)
    requires a > 0 && b > 0 && L > 0
    ensures Statistic(x, y, a, b, L) == Sum2(a, b, Deviation(x, y, a, b, L))
  {
  }

  datatype Outcome = Computed(testStat: real) | PartitionError

  /** The L1 statistic of two samples of the same size. */
  function L1Of(X: Matrix, dx: nat, Y: Matrix, dy: nat, q: nat): real
    requires q >= 1 && HasColumns(X, dx) && HasColumns(Y, dy) && |X| == |Y| > 0
  {
    PowPositive(q, dx);
    PowPositive(q, dy);
    Statistic(Label(X, dx, q), Label(Y, dy, q), Pow(q, dx), Pow(q, dy), |X|)
  }

  ghost predicate Computable(N: nat, dx: nat, dy: nat, q: nat) {
    dx >= 1 && dy >= 1 && N >= 2 * Pow(q, dx) && N >= 2 * Pow(q, dy)
  }

  /** EqualPartition followed by the offset line; no labelling when the partition fails. */
  method LabelSamples(X: Matrix, dim: nat, q: nat) returns (ok: bool, l: Labelling)
    requires q >= 1 && HasColumns(X, dim)
    ensures ok <==> dim >= 1 && |X| >= 2 * Pow(q, dim)
    ensures ok ==> l == Label(X, dim, q)
  {
    hide BlocksAt, IdxAt, Fails, Rebase;
    FailsExactlyWhen(|X|, q, dim);
    var p := EqualPartition.EqualPartition(X, dim, q);
    match p
    case Bins(idx, block) =>
      BlocksSum(|X|, q, dim);
      PowPositive(q, dim);
      ok, l := true, Labelling(idx, Rebase(block));
    case TooFewData => ok, l := false, Labelling([], []);
    case NoColumns => ok, l := false, Labelling([], []);
  }

  method L1Test(X: Matrix, dx: nat, Y: Matrix, dy: nat, q: nat) returns (r: Outcome)
    requires q >= 1 && HasColumns(X, dx) && HasColumns(Y, dy) && |X| == |Y|
    ensures r.Computed? <==> Computable(|X|, dx, dy, q)
    ensures r.Computed? ==> |X| > 0 && r.testStat == L1Of(X, dx, Y, dy, q)
    ensures r.Computed? ==> 0.0 <= r.testStat < 2.0
  {
    hide Pow, Label, Statistic;
    var okX, x := LabelSamples(X, dx, q);
    var okY, y := LabelSamples(Y, dy, q);
    if !okX || !okY {
      return PartitionError;
    }
    PowPositive(q, dx);
    PowPositive(q, dy);
    var testStat := Accumulate(x, y, Pow(q, dx), Pow(q, dy), |X|);
    StatisticOfSamplesBounds(X, dx, Y, dy, q);
    r := Computed(testStat);
  }

  /** A deviation is smaller than the sum of its two terms, unless one of them is zero. */
  lemma AbsBounds(p: real, c: real)
    requires p >= 0.0 && c > 0.0
    ensures 0.0 <= Abs(p - c) <= p + c
    ensures Abs(p - c) == p + c ==> p == 0.0
  {
  }

  /** At least 0 and strictly below 2, for any two labellings of the same samples. */
  lemma StatisticBounds(x: Labelling, y: Labelling, a: nat, b: nat, L: nat)
    requires a > 0 && b > 0 && L > 0 && Tiles(x, a, L) && Tiles(y, b, L)
    ensures 0.0 <= Statistic(x, y, a, b, L) < 2.0
  {
    hide Tiles, Count, Uniform, Sum2;
    var c := Uniform(a, b);
    UniformFacts(a, b);
    var dev, freq := Deviation(x, y, a, b, L), Freq(x, y, L);
    var uniform := (i: int, j: int) => c;
    var zero := (i: int, j: int) => 0.0;
    var both := (i, j) => freq(i, j) + uniform(i, j);
    FreqTotal(x, y, a, b, L);
    UniformTotal(a, b, uniform);
    Sum2Add(a, b, freq, uniform, both);
    Sum2Const(a, b, 0.0, zero);
    forall i, j ensures 0.0 <= dev(i, j) <= both(i, j) && (dev(i, j) == both(i, j) ==> freq(i, j) == zero(i, j)) {
      AbsBounds(freq(i, j), c);
    }
    Sum2Mono(a, b, zero, dev);
    Sum2Mono(a, b, dev, both);
    if Sum2(a, b, dev) == Sum2(a, b, both) {
      Sum2Ext(a, b, freq, zero);
    }
  }

  lemma StatisticOfSamplesBounds(X: Matrix, dx: nat, Y: Matrix, dy: nat, q: nat)
    requires q >= 1 && HasColumns(X, dx) && HasColumns(Y, dy) && |X| == |Y|
    requires |X| >= Pow(q, dx) && |X| >= Pow(q, dy)
    ensures |X| > 0 && 0.0 <= L1Of(X, dx, Y, dy, q) < 2.0
  {
    hide Statistic, Label, Tiles, Pow, HasColumns;
    PowPositive(q, dx);
    PowPositive(q, dy);
    LabelTiles(X, dx, q);
    LabelTiles(Y, dy, q);
    StatisticBounds(Label(X, dx, q), Label(Y, dy, q), Pow(q, dx), Pow(q, dy), |X|);
  }

  /** Swapping the two samples does not change the statistic. */
  lemma StatisticSymmetric(x: Labelling, y: Labelling, a: nat, b: nat, L: nat)
    requires a > 0 && b > 0 && L > 0
    ensures Statistic(x, y, a, b, L) == Statistic(y, x, b, a, L)
  {
    hide Count, Uniform, Sum2;
    var dev, dev' := Deviation(x, y, a, b, L), Deviation(y, x, b, a, L);
    SumSwap(a, b, dev);
    UniformFacts(a, b);
    forall j, i ensures Transpose(dev)(j, i) == dev'(j, i) {
      CountSymmetric(x, y, i, j);
      assert Freq(x, y, L)(i, j) == Freq(y, x, L)(j, i);
    }
    Sum2Ext(b, a, Transpose(dev), dev');
  }

  lemma L1Symmetric(X: Matrix, dx: nat, Y: Matrix, dy: nat, q: nat)
    requires q >= 1 && HasColumns(X, dx) && HasColumns(Y, dy) && |X| == |Y| > 0
    ensures L1Of(X, dx, Y, dy, q) == L1Of(Y, dy, X, dx, q)
  {
    hide Statistic, Label, Pow, HasColumns;
    PowPositive(q, dx);
    PowPositive(q, dy);
    StatisticSymmetric(Label(X, dx, q), Label(Y, dy, q), Pow(q, dx), Pow(q, dy), |X|);
  }

  lemma LabelRankInvariant(X: Matrix, X': Matrix, dim: nat, q: nat)
    requires q >= 1 && SameRanks(X, X', dim)
    ensures Label(X, dim, q) == Label(X', dim, q)
  {
    hide IdxAt, BlocksAt;
    RankInvariance(X, X', dim, q, dim);
  }

  /** Strictly increasing changes of scale, one per column, leave the statistic as it is. */
  lemma L1RankInvariant(X: Matrix, dx: nat, fs: seq<real -> real>, Y: Matrix, dy: nat, gs: seq<real -> real>, q: nat)
    requires q >= 1 && HasColumns(X, dx) && HasColumns(Y, dy) && |X| == |Y| > 0 && |fs| == dx && |gs| == dy
    requires forall h :: 0 <= h < dx ==> StrictlyIncreasing(fs[h])
    requires forall h :: 0 <= h < dy ==> StrictlyIncreasing(gs[h])
    ensures L1Of(MapColumns(X, dx, fs), dx, MapColumns(Y, dy, gs), dy, q) == L1Of(X, dx, Y, dy, q)
  {
    hide Statistic, Label, Pow, StrictlyIncreasing;
    MonotoneMapKeepsRanks(X, dx, fs);
    MonotoneMapKeepsRanks(Y, dy, gs);
    LabelRankInvariant(X, MapColumns(X, dx, fs), dx, q);
    LabelRankInvariant(Y, MapColumns(Y, dy, gs), dy, q);
  }
}
