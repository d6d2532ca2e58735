/**
 * The sign of the HSIC statistic: for two matrices that are finite sums of outer products it is a
 * sum of squares.  Row r of `u` is the r-th vector of the sum.
 */
module HsicSign {
  import opened Sums
  import opened RbfDot
  import opened Hsic
  import opened HsicTest

  function MixedTerm(a: Mat, b: Mat, i: int, j: int): int -> real {
    r => Times(a(r, i), b(r, j))
  }

  /** The sum of the outer products of row r of `a` with row r of `b`. */
  function Mixed(R: nat, a: Mat, b: Mat): Mat {
    (i, j) => Sum(R, MixedTerm(a, b, i, j))
  }

  /** Every row less its mean. */
  function CentredRows(m: nat, u: Mat): Mat
    requires m > 0
  {
    (r, i) => u(r, i) - RowMean(m, u, r)
  }

  function DotTerm(a: Mat, v: Mat, r: int, s: int): int -> real {
    i => Times(a(r, i), v(s, i))
  }

  /** The squared inner product of row r of `a` and row s of `v`. */
  function SquaredDots(m: nat, a: Mat, v: Mat): Mat {
    (r, s) => Square(Sum(m, DotTerm(a, v, r, s)))
  }

  // ----- centring a sum of outer products centres its vectors -----

  lemma TimesLaws(a: real, b: real, c: real)
    ensures Times(a, b - c) == Times(a, b) - Times(a, c)
    ensures Times(a, b) == Times(b, a) && Times(Times(a, b), c) == Times(a, Times(b, c))
    ensures Times(a + b, c) == Times(a, c) + Times(b, c)
  {
  }

  lemma MixedTranspose(R: nat, a: Mat, b: Mat, i: int, j: int)
    ensures Mixed(R, a, b)(i, j) == Mixed(R, b, a)(j, i)
  {
    forall r | 0 <= r < R ensures MixedTerm(a, b, i, j)(r) == MixedTerm(b, a, j, i)(r) {
      TimesLaws(a(r, i), b(r, j), 0.0);
    }
    SumExt(R, MixedTerm(a, b, i, j), MixedTerm(b, a, j, i));
  }

  function MeanTerm(m: nat, a: Mat, b: Mat, i: int): int -> real
    requires m > 0
  {
    r => Times(a(r, i), RowMean(m, b, r))
  }

  lemma MeanScaled(a: real, w: real, total: real)
    ensures Times(a, w * total) == w * (a * total)
  {
  }

  lemma MixedRowMean(R: nat, m: nat, a: Mat, b: Mat, i: int)
    requires m > 0
    ensures RowMean(m, Mixed(R, a, b), i) == Sum(R, MeanTerm(m, a, b, i))
  {
    hide Inv;
    var f: Mat := (k, r) => Times(a(r, i), b(r, k));
    forall k ensures Row(Mixed(R, a, b), i)(k) == RowSums(R, f)(k) {
      SumExt(R, MixedTerm(a, b, i, k), Row(f, k));
    }
    SumExt(m, Row(Mixed(R, a, b), i), RowSums(R, f));
    SumSwap(m, R, f);
    forall r | 0 <= r < R ensures MeanTerm(m, a, b, i)(r) == Inv(m) * RowSums(m, Transpose(f))(r) {
      forall k | 0 <= k < m ensures Row(Transpose(f), r)(k) == a(r, i) * Row(b, r)(k) {
        assert Times(a(r, i), b(r, k)) == a(r, i) * b(r, k);
      }
      SumScale(m, a(r, i), Row(b, r), Row(Transpose(f), r));
      MeanScaled(a(r, i), Inv(m), Sum(m, Row(b, r)));
    }
    SumScale(R, Inv(m), RowSums(m, Transpose(f)), MeanTerm(m, a, b, i));
  }

  lemma LessRowMean(R: nat, m: nat, a: Mat, b: Mat, i: int, j: int)
    requires m > 0
    ensures Mixed(R, a, b)(i, j) - RowMean(m, Mixed(R, a, b), i) == Mixed(R, a, CentredRows(m, b))(i, j)
  {
    hide RowMean, Times;
    MixedRowMean(R, m, a, b, i);
    var mean, centred := MeanTerm(m, a, b, i), MixedTerm(a, CentredRows(m, b), i, j);
    forall r | 0 <= r < R ensures MixedTerm(a, b, i, j)(r) == mean(r) + centred(r) {
      TimesLaws(a(r, i), b(r, j), RowMean(m, b, r));
    }
    SumAdd(R, mean, centred, MixedTerm(a, b, i, j));
  }

  lemma LessColMean(R: nat, m: nat, a: Mat, b: Mat, i: int, j: int)
    requires m > 0
    ensures Mixed(R, a, b)(i, j) - ColMean(m, Mixed(R, a, b), j) == Mixed(R, CentredRows(m, a), b)(i, j)
  {
    hide Inv, Mixed, CentredRows;
    LessRowMean(R, m, b, a, j, i);
    MixedTranspose(R, a, b, i, j);
    MixedTranspose(R, CentredRows(m, a), b, i, j);
    forall k ensures Row(Transpose(Mixed(R, a, b)), j)(k) == Row(Mixed(R, b, a), j)(k) {
      MixedTranspose(R, a, b, k, j);
    }
    SumExt(m, Row(Transpose(Mixed(R, a, b)), j), Row(Mixed(R, b, a), j));
  }

  lemma CentreOfOuter(R: nat, m: nat, u: Mat, i: int, j: int)
    requires 0 <= i < m && 0 <= j < m
    ensures Centre(m, Mixed(R, u, u))(i, j) == Mixed(R, CentredRows(m, u), CentredRows(m, u))(i, j)
  {
    hide Mul, H, Mixed, CentredRows, RowMean, ColMean;
    var K, c := Mixed(R, u, u), CentredRows(m, u);
    var A := Mul(m, H(m), K);
    forall k | 0 <= k < m ensures A(i, k) == Mixed(R, c, u)(i, k) {
      MulLeftH(m, K, i, k);
      LessColMean(R, m, u, u, i, k);
    }
    MulRightH(m, A, i, j);
    RowMeanExt(m, A, Mixed(R, c, u), i);
    LessRowMean(R, m, c, u, i, j);
  }

  // ----- the inner product of two sums of outer products -----

  function Outer(a: Mat, r: int): Mat {
    (i, j) => Times(a(r, i), a(r, j))
  }

  lemma InnerOfOuters(m: nat, a: Mat, v: Mat, r: int, s: int)
    ensures Inner(m, Outer(a, r), Outer(v, s)) == SquaredDots(m, a, v)(r, s)
  {
    var p := DotTerm(a, v, r, s);
    var total := Sum(m, p);
    var f := TimesTransposed(Outer(a, r), Outer(v, s));
    forall i | 0 <= i < m ensures RowSums(m, f)(i) == total * p(i) {
      forall j | 0 <= j < m ensures Row(f, i)(j) == p(i) * p(j) {
        Regroup(a(r, j), a(r, i), v(s, i), v(s, j));
      }
      SumScale(m, p(i), p, Row(f, i));
    }
    SumScale(m, total, p, RowSums(m, f));
    assert Square(total) == Times(total, total) == total * total;
  }

  lemma Regroup(a: real, b: real, c: real, d: real)
    ensures Times(a, b) * Times(c, d) == Times(b, c) * Times(a, d)
  {
    assert a * b * (c * d) == b * c * (a * d);
  }

  /** The inner product is additive in each matrix. */
  lemma InnerAdd(m: nat, A: Mat, A': Mat, A'': Mat, B: Mat)
    requires forall i, j :: 0 <= i < m && 0 <= j < m ==> A''(i, j) == A(i, j) + A'(i, j)
    ensures Inner(m, A'', B) == Inner(m, A, B) + Inner(m, A', B)
    ensures Inner(m, B, A'') == Inner(m, B, A) + Inner(m, B, A')
  {
    hide Sum2;
    Sum2Add(m, m, TimesTransposed(A, B), TimesTransposed(A', B), TimesTransposed(A'', B));
    Sum2Add(m, m, TimesTransposed(B, A), TimesTransposed(B, A'), TimesTransposed(B, A''));
  }

  lemma MixedStep(R: nat, u: Mat, i: int, j: int)
    ensures Mixed(0, u, u)(i, j) == 0.0
    ensures Mixed(R + 1, u, u)(i, j) == Mixed(R, u, u)(i, j) + Outer(u, R)(i, j)
  {
    assert MixedTerm(u, u, i, j)(R) == Times(u(R, i), u(R, j));
  }

  lemma InnerWithZero(m: nat, A: Mat, B: Mat)
    requires forall i, j :: 0 <= i < m && 0 <= j < m ==> A(i, j) == 0.0
    ensures Inner(m, A, B) == 0.0 && Inner(m, B, A) == 0.0
  {
    hide Sum2;
    Sum2Const(m, m, 0.0, TimesTransposed(A, B));
    Sum2Const(m, m, 0.0, TimesTransposed(B, A));
  }

  lemma {:induction false} InnerWithOuter(m: nat, a: Mat, r: int, S: nat, v: Mat)
    ensures Inner(m, Outer(a, r), Mixed(S, v, v)) == Sum(S, Row(SquaredDots(m, a, v), r))
  {
    hide Inner, Mixed, Outer, SquaredDots;
    if S == 0 {
      forall i, j ensures Mixed(0, v, v)(i, j) == 0.0 {
        MixedStep(0, v, i, j);
      }
      InnerWithZero(m, Mixed(0, v, v), Outer(a, r));
    } else {
      InnerWithOuter(m, a, r, S - 1, v);
      forall i, j ensures Mixed(S, v, v)(i, j) == Mixed(S - 1, v, v)(i, j) + Outer(v, S - 1)(i, j) {
        MixedStep(S - 1, v, i, j);
      }
      InnerAdd(m, Mixed(S - 1, v, v), Outer(v, S - 1), Mixed(S, v, v), Outer(a, r));
      InnerOfOuters(m, a, v, r, S - 1);
    }
  }

  lemma {:induction false} InnerIsSumOfSquares(m: nat, R: nat, a: Mat, S: nat, v: Mat)
    ensures Inner(m, Mixed(R, a, a), Mixed(S, v, v)) == Sum2(R, S, SquaredDots(m, a, v))
  {
    hide Inner, Mixed, Outer, SquaredDots;
    var B := Mixed(S, v, v);
    if R == 0 {
      forall i, j ensures Mixed(0, a, a)(i, j) == 0.0 {
        MixedStep(0, a, i, j);
      }
      InnerWithZero(m, Mixed(0, a, a), B);
    } else {
      InnerIsSumOfSquares(m, R - 1, a, S, v);
      forall i, j ensures Mixed(R, a, a)(i, j) == Mixed(R - 1, a, a)(i, j) + Outer(a, R - 1)(i, j) {
        MixedStep(R - 1, a, i, j);
      }
      InnerAdd(m, Mixed(R - 1, a, a), Outer(a, R - 1), Mixed(R, a, a), B);
      InnerWithOuter(m, a, R - 1, S, v);
    }
  }

  // ----- the sign of the statistic -----

  /** K is the sum of the outer products of the first R rows of u with themselves. */
  ghost predicate IsOuterSum(m: nat, K: Mat, R: nat, u: Mat) {
    forall i, j :: 0 <= i < m && 0 <= j < m ==> K(i, j) == Mixed(R, u, u)(i, j)
  }

  /** The statistic is the mean of the squared inner products of the centred vectors of K with those of L. */
  lemma StatisticIsSumOfSquares(m: nat, K: Mat, R: nat, u: Mat, L: Mat, S: nat, v: Mat)
    requires m > 0 && IsOuterSum(m, K, R, u) && IsOuterSum(m, L, S, v)
    ensures BootStat(m, K, L) ==
            1.0 / (m as real * m as real) * Sum2(R, S, SquaredDots(m, CentredRows(m, u), v))
  {
    hide Centre, Mixed, SquaredDots, CentredRows, Sum2;
    var c := CentredRows(m, u);
    BootStatExt(m, K, Mixed(R, u, u), L, Mixed(S, v, v));
    var f := TimesTransposed(Centre(m, Mixed(R, u, u)), Mixed(S, v, v));
    var g := TimesTransposed(Mixed(R, c, c), Mixed(S, v, v));
    forall i, j | 0 <= i < m && 0 <= j < m ensures f(i, j) == g(i, j) {
      CentreOfOuter(R, m, u, j, i);
    }
    Sum2Ext(m, m, f, g);
    InnerIsSumOfSquares(m, R, c, S, v);
  }

  /** So it is never negative, and zero exactly when all those inner products are. */
  lemma StatisticNonNegative(m: nat, K: Mat, R: nat, u: Mat, L: Mat, S: nat, v: Mat)
    requires m > 0 && IsOuterSum(m, K, R, u) && IsOuterSum(m, L, S, v)
    ensures BootStat(m, K, L) >= 0.0
    ensures BootStat(m, K, L) == 0.0 <==>
            forall r, s :: 0 <= r < R && 0 <= s < S ==> Sum(m, DotTerm(CentredRows(m, u), v, r, s)) == 0.0
  {
    hide CentredRows, IsOuterSum, Square, Sum2, BootStat, DotTerm;
    StatisticIsSumOfSquares(m, K, R, u, L, S, v);
    var c := CentredRows(m, u);
    var squares := SquaredDots(m, c, v);
    var zero := (r: int, s: int) => 0.0;
    forall r, s
      ensures zero(r, s) <= squares(r, s)
      ensures squares(r, s) == zero(r, s) <==> Sum(m, DotTerm(c, v, r, s)) == 0.0
    {
      SquareNonNegative(Sum(m, DotTerm(c, v, r, s)));
    }
    Sum2Const(R, S, 0.0, zero);
    Sum2Mono(R, S, zero, squares);
    if forall r, s :: 0 <= r < R && 0 <= s < S ==> Sum(m, DotTerm(c, v, r, s)) == 0.0 {
      Sum2Ext(R, S, zero, squares);
    }
    Weighted(m as real, Sum2(R, S, squares));
  }

  lemma Weighted(m: real, t: real)
    requires m > 0.0 && t >= 0.0
    ensures 1.0 / (m * m) * t >= 0.0 && (1.0 / (m * m) * t == 0.0 <==> t == 0.0)
  {
    TimesSign(m, m);
    var w := 1.0 / (m * m);
    assert w > 0.0;
    ScaleOrder(w, t, 0.0);
    ScaleOrder(w, 0.0, t);
  }
}
