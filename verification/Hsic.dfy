/**
 * The HSIC independence statistic: the form with both Gram matrices centred, the form with one
 * centred, and what reordering does to them.  A matrix is its entry function.
 */
module Hsic {
  import opened Sums
  import opened Permutations

  type Mat = (int, int) -> real

  function Inv(m: nat): real
    requires m > 0
  {
    1.0 / m as real
  }

  /** H = eye(m)-1/m*ones(m,m) */
  function H(m: nat): Mat
    requires m > 0
  {
    (i, j) => (if i == j then 1.0 else 0.0) - Inv(m)
  }

  function Product(A: Mat, B: Mat, i: int, j: int): int -> real {
    k => A(i, k) * B(k, j)
  }

  function Mul(m: nat, A: Mat, B: Mat): Mat {
    (i, j) => Sum(m, Product(A, B, i, j))
  }

  /** Kc = H*K*H */
  function Centre(m: nat, K: Mat): Mat
    requires m > 0
  {
    Mul(m, Mul(m, H(m), K), H(m))
  }

  /** Kc'.*L */
  function TimesTransposed(A: Mat, B: Mat): Mat {
    (i, j) => A(j, i) * B(i, j)
  }

  /** sum(sum(A'.*B)) */
  function Inner(m: nat, A: Mat, B: Mat): real {
    Sum2(m, m, TimesTransposed(A, B))
  }

  /** The statistic of the bootstrap file: one matrix centred. */
  function BootStat(m: nat, K: Mat, L: Mat): real
    requires m > 0
  {
    1.0 / (m as real * m as real) * Inner(m, Centre(m, K), L)
  }

  /** The statistic of the Gamma file: both matrices centred. */
  function GammaStat(m: nat, K: Mat, L: Mat): real
    requires m > 0
  {
    Inv(m) * Inner(m, Centre(m, K), Centre(m, L))
  }

  // ----- entries of the centred matrix -----

  function ColMean(m: nat, A: Mat, j: int): real
    requires m > 0
  {
    Inv(m) * Sum(m, Row(Transpose(A), j))
  }

  function RowMean(m: nat, A: Mat, i: int): real
    requires m > 0
  {
    Inv(m) * Sum(m, Row(A, i))
  }

  /** `g` is `f` multiplied by a column (or row) j of the centring matrix with weight w. */
  lemma SumAgainstH(m: nat, w: real, f: int -> real, g: int -> real, j: int)
    requires 0 <= j < m
    requires forall k :: 0 <= k < m ==> g(k) == Delta(f, j)(k) + (-w) * f(k)
    ensures Sum(m, g) == f(j) - w * Sum(m, f)
  {
    var scaled := k => (-w) * f(k);
    SumDelta(m, f, j);
    SumScale(m, -w, f, scaled);
    SumAdd(m, Delta(f, j), scaled, g);
  }

  lemma HAt(m: nat, i: int, j: int, x: real)
    requires m > 0
    ensures H(m)(i, j) * x == (if i == j then x else 0.0) + (-Inv(m)) * x
    ensures x * H(m)(i, j) == (if i == j then x else 0.0) + (-Inv(m)) * x
  {
  }

  lemma MulRightH(m: nat, A: Mat, i: int, j: int)
    requires 0 <= j < m
    ensures Mul(m, A, H(m))(i, j) == A(i, j) - RowMean(m, A, i)
  {
    hide Inv, H;
    forall k | 0 <= k < m ensures Product(A, H(m), i, j)(k) == Delta(Row(A, i), j)(k) + (-Inv(m)) * Row(A, i)(k) {
      HAt(m, k, j, A(i, k));
    }
    SumAgainstH(m, Inv(m), Row(A, i), Product(A, H(m), i, j), j);
  }

  lemma MulLeftH(m: nat, A: Mat, i: int, j: int)
    requires 0 <= i < m
    ensures Mul(m, H(m), A)(i, j) == A(i, j) - ColMean(m, A, j)
  {
    hide Inv, H;
    var col := Row(Transpose(A), j);
    forall k | 0 <= k < m ensures Product(H(m), A, i, j)(k) == Delta(col, i)(k) + (-Inv(m)) * col(k) {
      HAt(m, i, k, A(k, j));
    }
    SumAgainstH(m, Inv(m), col, Product(H(m), A, i, j), i);
  }

  /** Centring takes off something that depends on the column and something that depends on the row. */
  lemma CentreEntry(m: nat, K: Mat, i: int, j: int)
    requires 0 <= i < m && 0 <= j < m
    ensures Centre(m, K)(i, j) == K(i, j) - ColMean(m, K, j) - RowMean(m, Mul(m, H(m), K), i)
  {
    hide ColMean, RowMean, Mul, H;
    MulRightH(m, Mul(m, H(m), K), i, j);
    MulLeftH(m, K, i, j);
  }

  // ----- the centred matrix sums to zero along every row and column -----

  /** Taking off the mean leaves a sum of zero. */
  lemma LessMean(m: nat, f: int -> real, g: int -> real)
    requires m > 0 && forall k :: 0 <= k < m ==> g(k) == f(k) - Inv(m) * Sum(m, f)
    ensures Sum(m, g) == 0.0
  {
    var mean := Inv(m) * Sum(m, f);
    var minus := (k: int) => -mean;
    SumConst(m, -mean, minus);
    SumAdd(m, f, minus, g);
    assert m as real * Inv(m) == 1.0;
    assert m as real * mean == Sum(m, f);
  }

  lemma CentredRowsSumToZero(m: nat, K: Mat, i: int)
    requires 0 <= i < m
    ensures Sum(m, Row(Centre(m, K), i)) == 0.0
  {
    hide Inv, Mul, H;
    var A := Mul(m, H(m), K);
    forall j | 0 <= j < m ensures Row(Centre(m, K), i)(j) == Row(A, i)(j) - Inv(m) * Sum(m, Row(A, i)) {
      MulRightH(m, A, i, j);
    }
    LessMean(m, Row(A, i), Row(Centre(m, K), i));
  }

  lemma ZeroRows(n: nat, m: nat, f: Mat)
    requires forall i :: 0 <= i < n ==> Sum(m, Row(f, i)) == 0.0
    ensures Sum2(n, m, f) == 0.0
  {
    SumConst(n, 0.0, RowSums(m, f));
  }

  lemma ColumnsOfHK(m: nat, K: Mat, k: int)
    requires m > 0
    ensures Sum(m, Row(Transpose(Mul(m, H(m), K)), k)) == 0.0
  {
    hide Inv, Mul, H;
    var A := Mul(m, H(m), K);
    forall i | 0 <= i < m
      ensures Row(Transpose(A), k)(i) == Row(Transpose(K), k)(i) - Inv(m) * Sum(m, Row(Transpose(K), k))
    {
      MulLeftH(m, K, i, k);
    }
    LessMean(m, Row(Transpose(K), k), Row(Transpose(A), k));
  }

  lemma CentredColumnsSumToZero(m: nat, K: Mat, j: int)
    requires 0 <= j < m
    ensures Sum(m, Row(Transpose(Centre(m, K)), j)) == 0.0
  {
    hide Inv, Mul, H, RowSums;
    var A := Mul(m, H(m), K);
    var means := i => (-Inv(m)) * RowSums(m, A)(i);
    var col := Row(Transpose(A), j);
    forall i | 0 <= i < m ensures Row(Transpose(Centre(m, K)), j)(i) == col(i) + means(i) {
      MulRightH(m, A, i, j);
      RowSumsAt(m, A, i);
    }
    SumAdd(m, col, means, Row(Transpose(Centre(m, K)), j));
    ColumnsOfHK(m, K, j);
    SumScale(m, -Inv(m), RowSums(m, A), means);
    SumSwap(m, m, A);
    forall k | 0 <= k < m ensures Sum(m, Row(Transpose(A), k)) == 0.0 {
      ColumnsOfHK(m, K, k);
    }
    ZeroRows(m, m, Transpose(A));
  }

  lemma RowSumsAt(m: nat, A: Mat, i: int)
    ensures RowSums(m, A)(i) == Sum(m, Row(A, i))
  {
  }

  // ----- the two forms agree -----

  ghost predicate SumsToZero(m: nat, Z: Mat) {
    && (forall i :: 0 <= i < m ==> Sum(m, Row(Z, i)) == 0.0)
    && (forall j :: 0 <= j < m ==> Sum(m, Row(Transpose(Z), j)) == 0.0)
  }

  /** Every row and every column of H*K*H sums to zero. */
  lemma CentredSumsToZero(m: nat, K: Mat)
    requires m > 0
    ensures SumsToZero(m, Centre(m, K))
  {
    hide Centre;
    forall i | 0 <= i < m
      ensures Sum(m, Row(Centre(m, K), i)) == 0.0 && Sum(m, Row(Transpose(Centre(m, K)), i)) == 0.0
    {
      CentredRowsSumToZero(m, K, i);
      CentredColumnsSumToZero(m, K, i);
    }
  }

  /** Against such a matrix, a term that depends on the row alone counts for nothing. */
  lemma RowTermVanishes(m: nat, Z: Mat, u: int -> real, f: Mat)
    requires forall i :: 0 <= i < m ==> Sum(m, Row(Z, i)) == 0.0
    requires forall i, j :: 0 <= i < m && 0 <= j < m ==> f(i, j) == u(i) * Z(i, j)
    ensures Sum2(m, m, f) == 0.0
  {
    forall i | 0 <= i < m ensures Sum(m, Row(f, i)) == 0.0 {
      SumScale(m, u(i), Row(Z, i), Row(f, i));
    }
    ZeroRows(m, m, f);
  }

  lemma InnerIgnoresOffsets(m: nat, Z: Mat, L: Mat, L': Mat, u: int -> real, v: int -> real)
    requires SumsToZero(m, Z)
    requires forall i, j :: 0 <= i < m && 0 <= j < m ==> L'(i, j) == L(i, j) + u(i) + v(j)
    ensures Inner(m, Z, L') == Inner(m, Z, L)
  {
    hide Sum2;
    var base := TimesTransposed(Z, L);
    var rows: Mat := (i, j) => u(i) * Transpose(Z)(i, j);
    var cols: Mat := (i, j) => v(i) * Z(i, j);
    RowTermVanishes(m, Transpose(Z), u, rows);
    RowTermVanishes(m, Z, v, cols);
    SumSwap(m, m, cols);
    var two: Mat := (i, j) => base(i, j) + rows(i, j);
    Sum2Add(m, m, base, rows, two);
    forall i, j | 0 <= i < m && 0 <= j < m
      ensures TimesTransposed(Z, L')(i, j) == two(i, j) + Transpose(cols)(i, j)
    {
      Expand3(Z(j, i), L(i, j), u(i), v(j));
    }
    Sum2Add(m, m, two, Transpose(cols), TimesTransposed(Z, L'));
  }

  lemma Expand3(z: real, l: real, u: real, v: real)
    ensures z * (l + u + v) == z * l + u * z + v * z
  {
  }

  /** Centring the second matrix as well changes nothing in the inner product. */
  lemma CentringOnceIsEnough(m: nat, K: Mat, L: Mat)
    requires m > 0
    ensures Inner(m, Centre(m, K), Centre(m, L)) == Inner(m, Centre(m, K), L)
  {
    hide Centre, Inner, ColMean, RowMean, Mul, H;
    CentredSumsToZero(m, K);
    var u := i => -RowMean(m, Mul(m, H(m), L), i);
    var v := j => -ColMean(m, L, j);
    forall i, j | 0 <= i < m && 0 <= j < m ensures Centre(m, L)(i, j) == L(i, j) + u(i) + v(j) {
      CentreEntry(m, L, i, j);
    }
    InnerIgnoresOffsets(m, Centre(m, K), L, Centre(m, L), u, v);
  }

  /** The Gamma file's statistic is exactly m times the bootstrap file's, for any two matrices. */
  lemma FormsAgree(m: nat, K: Mat, L: Mat)
    requires m > 0
    ensures GammaStat(m, K, L) == m as real * BootStat(m, K, L)
  {
    hide Centre, Inner;
    CentringOnceIsEnough(m, K, L);
    Weights(m as real, Inner(m, Centre(m, K), L));
  }

  lemma Weights(m: real, t: real)
    requires m > 0.0
    ensures 1.0 / m * t == m * (1.0 / (m * m) * t)
  {
  }

  // ----- relabelling -----

  /** M(p,p) */
  function Permuted(p: seq<int>, M: Mat): Mat {
    (i, j) => M(At(p, i), At(p, j))
  }

  lemma PermutedAt(p: seq<int>, m: nat, M: Mat, i: int, j: int)
    requires IsPerm(p, m) && 0 <= i < m && 0 <= j < m
    ensures |p| == m && 0 <= p[i] < m && 0 <= p[j] < m && Permuted(p, M)(i, j) == M(p[i], p[j])
  {
    assert At(p, i) == p[i] && At(p, j) == p[j];
  }

  lemma Sum2Reindex(p: seq<int>, m: nat, f: Mat)
    requires IsPerm(p, m)
    ensures Sum2(m, m, Permuted(p, f)) == Sum2(m, m, f)
  {
    var g := Permuted(p, f);
    forall i | 0 <= i < m ensures RowSums(m, g)(i) == RowSums(m, f)(p[i]) {
      forall j | 0 <= j < m ensures Row(g, i)(j) == Row(f, p[i])(p[j]) {
        PermutedAt(p, m, f, i, j);
      }
      SumReindex(p, m, Row(f, p[i]), Row(g, i));
    }
    SumReindex(p, m, RowSums(m, f), RowSums(m, g));
  }

  lemma MeansPermuted(p: seq<int>, m: nat, A: Mat, i: int)
    requires IsPerm(p, m) && 0 <= i < m
    ensures ColMean(m, Permuted(p, A), i) == ColMean(m, A, p[i])
    ensures RowMean(m, Permuted(p, A), i) == RowMean(m, A, p[i])
  {
    forall k | 0 <= k < m
      ensures Row(Permuted(p, A), i)(k) == Row(A, p[i])(p[k])
      ensures Row(Transpose(Permuted(p, A)), i)(k) == Row(Transpose(A), p[i])(p[k])
    {
      PermutedAt(p, m, A, i, k);
      PermutedAt(p, m, A, k, i);
    }
    SumReindex(p, m, Row(A, p[i]), Row(Permuted(p, A), i));
    SumReindex(p, m, Row(Transpose(A), p[i]), Row(Transpose(Permuted(p, A)), i));
  }

  lemma CentrePermuted(p: seq<int>, m: nat, K: Mat, i: int, j: int)
    requires IsPerm(p, m) && 0 <= i < m && 0 <= j < m
    ensures Centre(m, Permuted(p, K))(i, j) == Permuted(p, Centre(m, K))(i, j)
  {
    hide *;
    var A, A' := Mul(m, H(m), K), Mul(m, H(m), Permuted(p, K));
    PermutedAt(p, m, K, i, j);
    CentreEntry(m, K, p[i], p[j]);
    CentreEntry(m, Permuted(p, K), i, j);
    MeansPermuted(p, m, K, j);
    MeansPermuted(p, m, A, i);
    forall k | 0 <= k < m ensures A'(i, k) == Permuted(p, A)(i, k) {
      MulLeftH(m, K, p[i], p[k]);
      MulLeftH(m, Permuted(p, K), i, k);
      MeansPermuted(p, m, K, k);
      PermutedAt(p, m, A, i, k);
      PermutedAt(p, m, K, i, k);
    }
    PermutedAt(p, m, K, i, j);
    PermutedAt(p, m, Centre(m, K), i, j);
    RowMeanExt(m, A', Permuted(p, A), i);
  }

  lemma RowMeanExt(m: nat, A: Mat, B: Mat, i: int)
    requires m > 0 && forall k :: 0 <= k < m ==> A(i, k) == B(i, k)
    ensures RowMean(m, A, i) == RowMean(m, B, i)
  {
    SumExt(m, Row(A, i), Row(B, i));
  }

  /** Reordering the samples of X and Y by one common permutation leaves the statistic as it is. */
  lemma StatisticRelabelled(p: seq<int>, m: nat, K: Mat, L: Mat)
    requires m > 0 && IsPerm(p, m)
    ensures BootStat(m, Permuted(p, K), Permuted(p, L)) == BootStat(m, K, L)
  {
    hide Centre, Sum2;
    var f, g := TimesTransposed(Centre(m, K), L), TimesTransposed(Centre(m, Permuted(p, K)), Permuted(p, L));
    forall i, j | 0 <= i < m && 0 <= j < m ensures g(i, j) == Permuted(p, f)(i, j) {
      CentrePermuted(p, m, K, j, i);
    }
    Sum2Ext(m, m, g, Permuted(p, f));
    Sum2Reindex(p, m, f);
  }
}
