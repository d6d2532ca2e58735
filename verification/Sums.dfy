/** Finite sums of reals and of integers, indexed from zero. */
module Sums {

  function Abs(x: real): real {
    if x < 0.0 then -x else x
  }

  /** f(0) + ... + f(n - 1) */
  function Sum(n: nat, f: int -> real): real {
    if n == 0 then 0.0 else Sum(n - 1, f) + f(n - 1)
  }

  function Row(f: (int, int) -> real, i: int): int -> real {
    j => f(i, j)
  }

  function Transpose(f: (int, int) -> real): (int, int) -> real {
    (i, j) => f(j, i)
  }

  function RowSums(m: nat, f: (int, int) -> real): int -> real {
    i => Sum(m, Row(f, i))
  }

  /** The sum of f(i, j) over i < n and j < m, row by row. */
  function Sum2(n: nat, m: nat, f: (int, int) -> real): real {
    Sum(n, RowSums(m, f))
  }

  /** The double sum when the loop over the rows has reached entry (i, j). */
  function Partial(m: nat, f: (int, int) -> real, i: nat, j: nat): real {
    Sum(i, RowSums(m, f)) + Sum(j, Row(f, i))
  }

  lemma PartialSteps(n: nat, m: nat, f: (int, int) -> real, i: nat, j: nat)
    ensures Partial(m, f, 0, 0) == 0.0
    ensures Partial(m, f, i, j + 1) == Partial(m, f, i, j) + f(i, j)
    ensures Partial(m, f, i + 1, 0) == Partial(m, f, i, m)
    ensures Partial(m, f, n, 0) == Sum2(n, m, f)
  {
  }

  function IntSum(n: nat, f: int -> int): int {
    if n == 0 then 0 else IntSum(n - 1, f) + f(n - 1)
  }

  lemma {:induction false} SumExt(n: nat, f: int -> real, g: int -> real)
    requires forall i :: 0 <= i < n ==> f(i) == g(i)
    ensures Sum(n, f) == Sum(n, g)
  {
    if n > 0 {
      SumExt(n - 1, f, g);
    }
  }

  lemma {:induction false} SumAdd(n: nat, f: int -> real, g: int -> real, h: int -> real)
    requires forall i :: 0 <= i < n ==> h(i) == f(i) + g(i)
    ensures Sum(n, h) == Sum(n, f) + Sum(n, g)
  {
    if n > 0 {
      SumAdd(n - 1, f, g, h);
    }
  }

  lemma {:induction false} SumScale(n: nat, c: real, f: int -> real, g: int -> real)
    requires forall i :: 0 <= i < n ==> g(i) == c * f(i)
    ensures Sum(n, g) == c * Sum(n, f)
  {
    if n > 0 {
      SumScale(n - 1, c, f, g);
    }
  }

  lemma {:induction false} SumConst(n: nat, c: real, f: int -> real)
    requires forall i :: 0 <= i < n ==> f(i) == c
    ensures Sum(n, f) == n as real * c
  {
    if n > 0 {
      SumConst(n - 1, c, f);
      assert n as real * c == (n - 1) as real * c + c;
    }
  }

  lemma {:induction false} SumMono(n: nat, f: int -> real, g: int -> real)
    requires forall i :: 0 <= i < n ==> f(i) <= g(i)
    ensures Sum(n, f) <= Sum(n, g)
    ensures Sum(n, f) == Sum(n, g) ==> forall i :: 0 <= i < n ==> f(i) == g(i)
  {
    if n > 0 {
      SumMono(n - 1, f, g);
    }
  }

  /** The order of the two summations does not matter. */
  lemma {:induction false} SumSwap(n: nat, m: nat, f: (int, int) -> real)
    ensures Sum2(n, m, f) == Sum2(m, n, Transpose(f))
  {
    var cols := RowSums(n, Transpose(f));
    if n == 0 {
      SumConst(m, 0.0, cols);
    } else {
      SumSwap(n - 1, m, f);
      SumAdd(m, RowSums(n - 1, Transpose(f)), Row(f, n - 1), cols);
    }
  }

  lemma {:induction false} Sum2Ext(n: nat, m: nat, f: (int, int) -> real, g: (int, int) -> real)
    requires forall i, j :: 0 <= i < n && 0 <= j < m ==> f(i, j) == g(i, j)
    ensures Sum2(n, m, f) == Sum2(n, m, g)
  {
    forall i | 0 <= i < n ensures RowSums(m, f)(i) == RowSums(m, g)(i) {
      SumExt(m, Row(f, i), Row(g, i));
    }
    SumExt(n, RowSums(m, f), RowSums(m, g));
  }

  lemma Sum2Add(n: nat, m: nat, f: (int, int) -> real, g: (int, int) -> real, h: (int, int) -> real)
    requires forall i, j :: 0 <= i < n && 0 <= j < m ==> h(i, j) == f(i, j) + g(i, j)
    ensures Sum2(n, m, h) == Sum2(n, m, f) + Sum2(n, m, g)
  {
    forall i | 0 <= i < n ensures RowSums(m, h)(i) == RowSums(m, f)(i) + RowSums(m, g)(i) {
      SumAdd(m, Row(f, i), Row(g, i), Row(h, i));
    }
    SumAdd(n, RowSums(m, f), RowSums(m, g), RowSums(m, h));
  }

  lemma Sum2Scale(n: nat, m: nat, c: real, f: (int, int) -> real, g: (int, int) -> real)
    requires forall i, j :: 0 <= i < n && 0 <= j < m ==> g(i, j) == c * f(i, j)
    ensures Sum2(n, m, g) == c * Sum2(n, m, f)
  {
    forall i | 0 <= i < n ensures RowSums(m, g)(i) == c * RowSums(m, f)(i) {
      SumScale(m, c, Row(f, i), Row(g, i));
      assert RowSums(m, f)(i) == Sum(m, Row(f, i));
    }
    SumScale(n, c, RowSums(m, f), RowSums(m, g));
  }

  lemma Sum2Const(n: nat, m: nat, c: real, f: (int, int) -> real)
    requires forall i, j :: 0 <= i < n && 0 <= j < m ==> f(i, j) == c
    ensures Sum2(n, m, f) == n as real * (m as real * c)
  {
    forall i | 0 <= i < n ensures RowSums(m, f)(i) == m as real * c {
      SumConst(m, c, Row(f, i));
    }
    SumConst(n, m as real * c, RowSums(m, f));
  }

  lemma Sum2Mono(n: nat, m: nat, f: (int, int) -> real, g: (int, int) -> real)
    requires forall i, j :: 0 <= i < n && 0 <= j < m ==> f(i, j) <= g(i, j)
    ensures Sum2(n, m, f) <= Sum2(n, m, g)
    ensures Sum2(n, m, f) == Sum2(n, m, g) ==>
              forall i, j :: 0 <= i < n && 0 <= j < m ==> f(i, j) == g(i, j)
  {
    forall i | 0 <= i < n ensures RowSums(m, f)(i) <= RowSums(m, g)(i) {
      SumMono(m, Row(f, i), Row(g, i));
    }
    SumMono(n, RowSums(m, f), RowSums(m, g));
    if Sum2(n, m, f) == Sum2(n, m, g) {
      forall i, j | 0 <= i < n && 0 <= j < m ensures f(i, j) == g(i, j) {
        assert RowSums(m, f)(i) == RowSums(m, g)(i);
        SumMono(m, Row(f, i), Row(g, i));
        assert Row(f, i)(j) == Row(g, i)(j);
      }
    }
  }

  function Delta(f: int -> real, j: int): int -> real {
    k => if k == j then f(k) else 0.0
  }

  /** Summing against a row of the identity picks one term. */
  lemma {:induction false} SumDelta(n: nat, f: int -> real, j: int)
    ensures Sum(n, Delta(f, j)) == if 0 <= j < n then f(j) else 0.0
  {
    if n > 0 {
      SumDelta(n - 1, f, j);
    }
  }

  /** A double sum in which one entry alone is not zero. */
  lemma Sum2Delta(n: nat, m: nat, f: (int, int) -> real, g: (int, int) -> real, i: int, j: int)
    requires 0 <= i < n && 0 <= j < m
    requires forall k, l :: 0 <= k < n && 0 <= l < m ==> g(k, l) == if k == i && l == j then f(k, l) else 0.0
    ensures Sum2(n, m, g) == f(i, j)
  {
    var entry := Row(f, i);
    var only := (k: int) => entry(j);
    forall k | 0 <= k < n ensures RowSums(m, g)(k) == Delta(only, i)(k) {
      if k == i {
        SumExt(m, Row(g, i), Delta(entry, j));
        SumDelta(m, entry, j);
      } else {
        SumConst(m, 0.0, Row(g, k));
      }
    }
    SumExt(n, RowSums(m, g), Delta(only, i));
    SumDelta(n, only, i);
  }

  lemma {:induction false} IntSumExt(n: nat, f: int -> int, g: int -> int)
    requires forall i :: 0 <= i < n ==> f(i) == g(i)
    ensures IntSum(n, f) == IntSum(n, g)
  {
    if n > 0 {
      IntSumExt(n - 1, f, g);
    }
  }

  lemma {:induction false} IntSumAsReal(n: nat, f: int -> int, g: int -> real)
    requires forall i :: 0 <= i < n ==> g(i) == f(i) as real
    ensures Sum(n, g) == IntSum(n, f) as real
  {
    if n > 0 {
      IntSumAsReal(n - 1, f, g);
    }
  }
}
