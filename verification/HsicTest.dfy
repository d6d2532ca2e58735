/** The HSIC statistic on samples, the effect of reordering them, and its mean under H0. */
module HsicTest {
  import opened Sums
  import opened Permutations
  import opened RbfDot
  import opened Hsic

  /** A sample with its number of columns and its kernel size. */
  datatype Sample = Sample(rows: seq<Pattern>, d: nat, deg: real)

  function GramOf(exp: real -> real, s: Sample): Mat
    requires s.deg != 0.0
  {
    Gram(exp, s.d, s.rows, s.deg)
  }

  function Reordered(s: Sample, p: seq<int>): Sample
    requires forall i :: 0 <= i < |p| ==> 0 <= p[i] < |s.rows|
  {
    s.(rows := Pick(s.rows, p))
  }

  /** testStat of hsicTestBoot */
  function StatOf(exp: real -> real, x: Sample, y: Sample): real
    requires |x.rows| > 0 && x.deg != 0.0 && y.deg != 0.0
  {
    BootStat(|x.rows|, GramOf(exp, x), GramOf(exp, y))
  }

  /** L(ind,ind) is the Gram matrix of the reordered rows. */
  lemma GramReordered(exp: real -> real, s: Sample, p: seq<int>, i: int, j: int)
    requires s.deg != 0.0 && IsPerm(p, |s.rows|) && 0 <= i < |p| && 0 <= j < |p|
    ensures GramOf(exp, Reordered(s, p))(i, j) == Permuted(p, GramOf(exp, s))(i, j)
  {
    hide Kernel;
    PermutedAt(p, |p|, GramOf(exp, s), i, j);
    var r := Reordered(s, p);
    assert PatternAt(r.rows, i) == PatternAt(s.rows, p[i]) && PatternAt(r.rows, j) == PatternAt(s.rows, p[j]);
    GramAt(exp, s, p[i], p[j]);
    GramAt(exp, r, i, j);
  }

  lemma GramAt(exp: real -> real, s: Sample, i: int, j: int)
    requires s.deg != 0.0
    ensures GramOf(exp, s)(i, j) == Kernel(exp, s.d, PatternAt(s.rows, i), PatternAt(s.rows, j), s.deg)
  {
  }

  lemma InnerExt(m: nat, A: Mat, B: Mat, B': Mat)
    requires forall i, j :: 0 <= i < m && 0 <= j < m ==> B(i, j) == B'(i, j)
    ensures Inner(m, A, B) == Inner(m, A, B')
  {
    Sum2Ext(m, m, TimesTransposed(A, B), TimesTransposed(A, B'));
  }

  lemma CentreExt(m: nat, A: Mat, A': Mat, i: int, j: int)
    requires 0 <= i < m && 0 <= j < m
    requires forall k, l :: 0 <= k < m && 0 <= l < m ==> A(k, l) == A'(k, l)
    ensures Centre(m, A)(i, j) == Centre(m, A')(i, j)
  {
    hide Centre, Mul, H, Inv;
    var B, B' := Mul(m, H(m), A), Mul(m, H(m), A');
    CentreEntry(m, A, i, j);
    CentreEntry(m, A', i, j);
    SumExt(m, Row(Transpose(A), j), Row(Transpose(A'), j));
    forall k | 0 <= k < m ensures B(i, k) == B'(i, k) {
      MulLeftH(m, A, i, k);
      MulLeftH(m, A', i, k);
      SumExt(m, Row(Transpose(A), k), Row(Transpose(A'), k));
    }
    RowMeanExt(m, B, B', i);
  }

  /** The statistic looks at the entries below m only. */
  lemma BootStatExt(m: nat, K: Mat, K': Mat, L: Mat, L': Mat)
    requires m > 0
    requires forall i, j :: 0 <= i < m && 0 <= j < m ==> K(i, j) == K'(i, j) && L(i, j) == L'(i, j)
    ensures BootStat(m, K, L) == BootStat(m, K', L')
  {
    hide Centre, Sum2;
    var f, g := TimesTransposed(Centre(m, K), L), TimesTransposed(Centre(m, K'), L');
    forall i, j | 0 <= i < m && 0 <= j < m ensures f(i, j) == g(i, j) {
      CentreExt(m, K, K', j, i);
    }
    Sum2Ext(m, m, f, g);
  }

  /** Reordering both samples in the same way leaves the statistic unchanged. */
  lemma StatOfRelabelled(exp: real -> real, x: Sample, y: Sample, p: seq<int>)
    requires |x.rows| == |y.rows| > 0 && x.deg != 0.0 && y.deg != 0.0 && IsPerm(p, |x.rows|)
    ensures StatOf(exp, Reordered(x, p), Reordered(y, p)) == StatOf(exp, x, y)
  {
    hide GramOf, BootStat, Permuted;
    var m, K, L := |x.rows|, GramOf(exp, x), GramOf(exp, y);
    forall i, j | 0 <= i < m && 0 <= j < m
      ensures GramOf(exp, Reordered(x, p))(i, j) == Permuted(p, K)(i, j)
      ensures GramOf(exp, Reordered(y, p))(i, j) == Permuted(p, L)(i, j)
    {
      GramReordered(exp, x, p, i, j);
      GramReordered(exp, y, p, i, j);
    }
    BootStatExt(m, GramOf(exp, Reordered(x, p)), Permuted(p, K), GramOf(exp, Reordered(y, p)), Permuted(p, L));
    StatisticRelabelled(p, m, K, L);
  }

  /** Reordering Y alone in the formula of the loop is testing X against the reordered Y. */
  lemma ShuffleIsReordering(exp: real -> real, x: Sample, y: Sample, p: seq<int>)
    requires |x.rows| == |y.rows| > 0 && x.deg != 0.0 && y.deg != 0.0 && IsPerm(p, |x.rows|)
    ensures BootStat(|x.rows|, GramOf(exp, x), Permuted(p, GramOf(exp, y))) == StatOf(exp, x, Reordered(y, p))
  {
    hide GramOf, Centre, Inner, Permuted;
    var m, L := |x.rows|, GramOf(exp, y);
    forall i, j | 0 <= i < m && 0 <= j < m ensures GramOf(exp, Reordered(y, p))(i, j) == Permuted(p, L)(i, j) {
      GramReordered(exp, y, p, i, j);
    }
    InnerExt(m, Centre(m, GramOf(exp, x)), Permuted(p, L), GramOf(exp, Reordered(y, p)));
  }

  /** Every row and the kernel size multiplied by k. */
  function Rescaled(k: real, s: Sample): Sample {
    Sample(seq(|s.rows|, i requires 0 <= i < |s.rows| => Stretched(k, s.rows[i])), s.d, k * s.deg)
  }

  lemma GramRescaled(exp: real -> real, k: real, s: Sample, i: int, j: int)
    requires k != 0.0 && s.deg != 0.0 && 0 <= i < |s.rows| && 0 <= j < |s.rows|
    ensures Rescaled(k, s).deg != 0.0 && GramOf(exp, Rescaled(k, s))(i, j) == GramOf(exp, s)(i, j)
  {
    hide Kernel, GramOf, Stretched;
    NonZeroProduct(k, s.deg);
    GramAt(exp, s, i, j);
    GramAt(exp, Rescaled(k, s), i, j);
    KernelScaleInvariant(exp, k, s.d, s.rows[i], s.rows[j], s.deg);
  }

  /** A change of unit of X or of Y, with its kernel size, leaves the statistic unchanged. */
  lemma StatScaleInvariant(exp: real -> real, k: real, x: Sample, l: real, y: Sample)
    requires k != 0.0 && l != 0.0 && |x.rows| == |y.rows| > 0 && x.deg != 0.0 && y.deg != 0.0
    ensures Rescaled(k, x).deg != 0.0 && Rescaled(l, y).deg != 0.0
    ensures StatOf(exp, Rescaled(k, x), Rescaled(l, y)) == StatOf(exp, x, y)
  {
    hide GramOf, BootStat, Rescaled;
    var m := |x.rows|;
    GramRescaled(exp, k, x, 0, 0);
    GramRescaled(exp, l, y, 0, 0);
    RescaledSize(k, x);
    var K, K', L, L' := GramOf(exp, x), GramOf(exp, Rescaled(k, x)), GramOf(exp, y), GramOf(exp, Rescaled(l, y));
    forall i, j | 0 <= i < m && 0 <= j < m ensures K'(i, j) == K(i, j) && L'(i, j) == L(i, j) {
      GramRescaled(exp, k, x, i, j);
      GramRescaled(exp, l, y, i, j);
    }
    BootStatExt(m, K', K, L', L);
  }

  lemma RescaledSize(k: real, s: Sample)
    ensures |Rescaled(k, s).rows| == |s.rows|
  {
  }

  // ----- mean under H0 -----

  /** K-diag(diag(K)) */
  function OffDiagonal(K: Mat): Mat {
    (i, j) => if i == j then 0.0 else K(i, j)
  }

  /** 1/m/(m-1)*bone'*(K*bone) with the diagonal removed */
  function Mu(m: nat, K: Mat): real
    requires m >= 2
  {
    1.0 / m as real / (m - 1) as real * Sum2(m, m, OffDiagonal(K))
  }

  function NullMean(m: nat, K: Mat, L: Mat): real
    requires m >= 2
  {
    1.0 / m as real * (1.0 + Mu(m, K) * Mu(m, L) - Mu(m, K) - Mu(m, L))
  }

  function Ones(): Mat {
    (i, j) => 1.0
  }

  lemma OnesTotal(m: nat)
    requires m >= 1
    ensures Sum2(m, m, OffDiagonal(Ones())) == m as real * (m - 1) as real
  {
    var ones := (k: int) => 1.0;
    forall i | 0 <= i < m ensures RowSums(m, OffDiagonal(Ones()))(i) == (m - 1) as real {
      SumDelta(m, ones, i);
      SumConst(m, 1.0, ones);
      SumAdd(m, Row(OffDiagonal(Ones()), i), Delta(ones, i), ones);
    }
    SumConst(m, (m - 1) as real, RowSums(m, OffDiagonal(Ones())));
  }

  /** What the entries off the diagonal lack of 1. */
  function Gap(K: Mat): Mat {
    (i, j) => if i == j then 0.0 else 1.0 - K(i, j)
  }

  lemma GapTotal(m: nat, K: Mat)
    requires m >= 1
    ensures Sum2(m, m, Gap(K)) == m as real * (m - 1) as real - Sum2(m, m, OffDiagonal(K))
  {
    hide Sum2;
    OnesTotal(m);
    assert forall i, j :: Ones()(i, j) == 1.0;
    Sum2Add(m, m, Gap(K), OffDiagonal(K), OffDiagonal(Ones()));
  }

  lemma MuOfGap(m: nat, K: Mat)
    requires m >= 2
    ensures 1.0 - Mu(m, K) == Sum2(m, m, Gap(K)) / (m as real * (m - 1) as real)
  {
    hide Sum2;
    GapTotal(m, K);
    OneLess(m as real, (m - 1) as real, Sum2(m, m, OffDiagonal(K)));
  }

  lemma OneLess(a: real, b: real, t: real)
    requires a > 0.0 && b > 0.0
    ensures a * b > 0.0 && 1.0 - 1.0 / a / b * t == (a * b - t) / (a * b)
  {
    var w := a * b;
    assert w > 0.0 && 1.0 / a / b == 1.0 / w;
    assert (w - t) / w == w / w - t / w;
  }

  /** m times the mean under H0 is the product of the mean gaps of the two matrices, whatever they are. */
  lemma NullMeanIsProduct(m: nat, K: Mat, L: Mat)
    requires m >= 2
    ensures var pairs := m as real * (m - 1) as real;
            m as real * NullMean(m, K, L) == Sum2(m, m, Gap(K)) / pairs * (Sum2(m, m, Gap(L)) / pairs)
  {
    hide Sum2, Mu;
    MuOfGap(m, K);
    MuOfGap(m, L);
    var a, b := Mu(m, K), Mu(m, L);
    assert 1.0 + a * b - a - b == (1.0 - a) * (1.0 - b);
    var w := m as real;
    assert w * (1.0 / w) == 1.0;
  }

  ghost predicate KernelLike(m: nat, K: Mat) {
    forall i, j :: 0 <= i < m && 0 <= j < m ==> 0.0 < K(i, j) <= 1.0
  }

  ghost predicate AllOne(m: nat, K: Mat) {
    forall i, j :: 0 <= i < m && 0 <= j < m && i != j ==> K(i, j) == 1.0
  }

  lemma OffDiagonalBounds(m: nat, K: Mat)
    requires m >= 2 && KernelLike(m, K)
    ensures var t := Sum2(m, m, OffDiagonal(K));
            0.0 < t <= m as real * (m - 1) as real && (t == m as real * (m - 1) as real <==> AllOne(m, K))
  {
    hide Sum2;
    var f, ones, zero := OffDiagonal(K), OffDiagonal(Ones()), (i: int, j: int) => 0.0;
    assert forall i, j :: Ones()(i, j) == 1.0;
    OnesTotal(m);
    Sum2Mono(m, m, f, ones);
    Sum2Const(m, m, 0.0, zero);
    Sum2Mono(m, m, zero, f);
    assert zero(0, 1) != f(0, 1);
    if AllOne(m, K) {
      Sum2Ext(m, m, f, ones);
    } else if Sum2(m, m, f) == Sum2(m, m, ones) {
      forall i, j | 0 <= i < m && 0 <= j < m && i != j ensures K(i, j) == 1.0 {
        assert f(i, j) == ones(i, j) == Ones()(i, j);
      }
    }
  }

  /** The mean off-diagonal kernel value lies in (0, 1], and is 1 exactly when all of them are. */
  lemma MuBounds(m: nat, K: Mat)
    requires m >= 2 && KernelLike(m, K)
    ensures 0.0 < Mu(m, K) <= 1.0 && (Mu(m, K) == 1.0 <==> AllOne(m, K))
  {
    hide Sum2, AllOne, KernelLike;
    OffDiagonalBounds(m, K);
    MeanOf(m as real, (m - 1) as real, Sum2(m, m, OffDiagonal(K)));
  }

  lemma MeanOf(a: real, b: real, t: real)
    requires a > 0.0 && b > 0.0 && 0.0 < t <= a * b
    ensures 0.0 < 1.0 / a / b * t <= 1.0 && (1.0 / a / b * t == 1.0 <==> t == a * b)
  {
  }

  lemma ScaleOrder(c: real, s: real, t: real)
    requires c > 0.0
    ensures s <= t <==> c * s <= c * t
    ensures s > 0.0 ==> c * s > 0.0
  {
  }

  lemma UnitProduct(a: real, b: real)
    requires 0.0 <= a < 1.0 && 0.0 <= b < 1.0
    ensures 0.0 <= a * b < 1.0
    ensures a * b == 0.0 <==> a == 0.0 || b == 0.0
  {
    TimesSign(a, b);
    TimesSign(b, a);
    if a > 0.0 {
      assert a * b <= a * 1.0;
    }
  }

  /**
   * The mean under H0 lies in [0, 1/m).  It is zero, so that the Gamma parameters divide by zero,
   * exactly when all kernel values of one of the samples are 1.
   */
  lemma NullMeanBounds(m: nat, K: Mat, L: Mat)
    requires m >= 2 && KernelLike(m, K) && KernelLike(m, L)
    ensures 0.0 <= NullMean(m, K, L) < 1.0 / m as real
    ensures NullMean(m, K, L) == 0.0 <==> AllOne(m, K) || AllOne(m, L)
  {
    hide Mu, AllOne, KernelLike;
    MuBounds(m, K);
    MuBounds(m, L);
    var a, b := 1.0 - Mu(m, K), 1.0 - Mu(m, L);
    UnitProduct(a, b);
    assert 1.0 + Mu(m, K) * Mu(m, L) - Mu(m, K) - Mu(m, L) == a * b;
    var w := 1.0 / m as real;
    assert w > 0.0;
    ScaleOrder(w, a * b, 1.0);
    ScaleOrder(w, 1.0, a * b);
    ScaleOrder(w, 0.0, a * b);
    ScaleOrder(w, a * b, 0.0);
  }

  // ----- the moments on samples -----

  lemma GramIsKernelLike(exp: real -> real, s: Sample)
    requires ExpFacts(exp) && s.deg != 0.0
    ensures KernelLike(|s.rows|, GramOf(exp, s))
  {
    hide ExpFacts, Kernel, GramOf;
    forall i, j | 0 <= i < |s.rows| && 0 <= j < |s.rows| ensures 0.0 < GramOf(exp, s)(i, j) <= 1.0 {
      GramAt(exp, s, i, j);
      KernelFacts(exp, s.d, PatternAt(s.rows, i), PatternAt(s.rows, j), s.deg);
    }
  }

  /** All rows of the sample are the same point. */
  ghost predicate OnePoint(s: Sample) {
    forall i, j, t :: 0 <= i < |s.rows| && 0 <= j < |s.rows| && 0 <= t < s.d ==>
      Coord(s.rows[i], t) == Coord(s.rows[j], t)
  }

  lemma AllOneMeansOnePoint(exp: real -> real, s: Sample)
    requires ExpFacts(exp) && s.deg != 0.0
    ensures AllOne(|s.rows|, GramOf(exp, s)) <==> OnePoint(s)
  {
    hide ExpFacts, Kernel, GramOf, Coord;
    forall i, j | 0 <= i < |s.rows| && 0 <= j < |s.rows|
      ensures GramOf(exp, s)(i, j) == 1.0 <==> forall t :: 0 <= t < s.d ==> Coord(s.rows[i], t) == Coord(s.rows[j], t)
    {
      GramAt(exp, s, i, j);
      KernelFacts(exp, s.d, s.rows[i], s.rows[j], s.deg);
    }
  }

  /** For every two samples of m >= 2 rows: in [0, 1/m), and 0 exactly when one of them is a single point. */
  lemma NullMeanOfSamples(exp: real -> real, x: Sample, y: Sample)
    requires ExpFacts(exp) && x.deg != 0.0 && y.deg != 0.0 && |x.rows| == |y.rows| >= 2
    ensures 0.0 <= NullMean(|x.rows|, GramOf(exp, x), GramOf(exp, y)) < 1.0 / |x.rows| as real
    ensures NullMean(|x.rows|, GramOf(exp, x), GramOf(exp, y)) == 0.0 <==> OnePoint(x) || OnePoint(y)
  {
    hide *;
    GramIsKernelLike(exp, x);
    GramIsKernelLike(exp, y);
    NullMeanBounds(|x.rows|, GramOf(exp, x), GramOf(exp, y));
    AllOneMeansOnePoint(exp, x);
    AllOneMeansOnePoint(exp, y);
  }

  /** testStat of hsicTestGamma is m times that of hsicTestBoot. */
  lemma SampleFormsAgree(exp: real -> real, x: Sample, y: Sample)
    requires |x.rows| > 0 && x.deg != 0.0 && y.deg != 0.0
    ensures GammaStat(|x.rows|, GramOf(exp, x), GramOf(exp, y)) == |x.rows| as real * StatOf(exp, x, y)
  {
    hide GramOf, GammaStat, BootStat;
    FormsAgree(|x.rows|, GramOf(exp, x), GramOf(exp, y));
  }
}
