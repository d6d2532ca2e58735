/**
 * What a count of the contingency table counts: the samples that lie in one cell of X and in one
 * cell of Y, where a sample lies in the cell that holds its position in the index vector.
 */
module SampleCounts {
  import opened Sums
  import opened Permutations
  import opened Contingency
  import opened L1Test

  /** Sample r stands at a position that the offsets give to cell i. */
  ghost predicate InCell(l: Labelling, i: int, r: int) {
    && 0 <= i && i + 1 < |l.offs|
    && exists p :: l.offs[i] <= p < l.offs[i + 1] && 0 <= p < |l.idx| && l.idx[p] == r
  }

  lemma CellHolds(l: Labelling, M: nat, L: nat, i: nat, r: int)
    requires Tiles(l, M, L) && i < M
    ensures r in CellSet(l, i) <==> InCell(l, i, r)
  {
    CellFacts(l, M, L, i);
    var lo, cell := l.offs[i], Cell(l, i);
    if InCell(l, i, r) {
      var p :| lo <= p < l.offs[i + 1] && l.idx[p] == r;
      assert cell[p - lo] == r;
    }
    if r in CellSet(l, i) {
      var k :| 0 <= k < |cell| && cell[k] == r;
      assert l.idx[lo + k] == r;
    }
  }

  /** The cell that holds a position. */
  lemma {:induction false} CellOfPosition(l: Labelling, M: nat, L: nat, p: nat, n: nat) returns (i: nat)
    requires Tiles(l, M, L) && n <= M && p < l.offs[n]
    ensures i < n && l.offs[i] <= p < l.offs[i + 1]
  {
    if p < l.offs[n - 1] {
      i := CellOfPosition(l, M, L, p, n - 1);
    } else {
      i := n - 1;
    }
  }

  lemma CellsApart(l: Labelling, M: nat, L: nat, i: nat, j: nat, r: int)
    requires Tiles(l, M, L) && i < j < M
    ensures !(InCell(l, i, r) && InCell(l, j, r))
  {
    hide Injective;
    OffsetsMono(l, M, L, i + 1, j);
    if InCell(l, i, r) && InCell(l, j, r) {
      var p :| l.offs[i] <= p < l.offs[i + 1] && 0 <= p < |l.idx| && l.idx[p] == r;
      var p' :| l.offs[j] <= p' < l.offs[j + 1] && 0 <= p' < |l.idx| && l.idx[p'] == r;
      PositionUnique(l.idx, L, p, p');
    }
  }

  lemma PositionUnique(idx: seq<int>, L: nat, p: int, p': int)
    requires IsPerm(idx, L) && 0 <= p < L && 0 <= p' < L && idx[p] == idx[p']
    ensures p == p'
  {
  }

  /** Every sample lies in exactly one cell. */
  lemma ExactlyOneCell(l: Labelling, M: nat, L: nat, r: int) returns (i: nat)
    requires Tiles(l, M, L) && 0 <= r < L
    ensures i < M && forall j :: 0 <= j < M ==> (InCell(l, j, r) <==> j == i)
  {
    PermHits(l.idx, L, r);
    var p := IndexOf(l.idx, r);
    i := CellOfPosition(l, M, L, p, M);
    assert InCell(l, i, r);
    forall j | 0 <= j < M ensures InCell(l, j, r) <==> j == i {
      if j < i {
        CellsApart(l, M, L, j, i, r);
      } else if i < j {
        CellsApart(l, M, L, i, j, r);
      }
    }
  }

  // ----- the table counts samples by their pair of cells -----

  ghost predicate InPair(x: Labelling, y: Labelling, i: int, j: int, r: int) {
    InCell(x, i, r) && InCell(y, j, r)
  }

  /** How many of the first n samples lie in X cell i and in Y cell j. */
  ghost function Shared(x: Labelling, y: Labelling, i: int, j: int, n: nat): nat {
    if n == 0 then 0 else Shared(x, y, i, j, n - 1) + if InPair(x, y, i, j, n - 1) then 1 else 0
  }

  lemma {:induction false} SharedIsSize(x: Labelling, y: Labelling, i: int, j: int, S: set<int>, n: nat)
    requires forall r :: r in S <==> 0 <= r < n && InPair(x, y, i, j, r)
    ensures |S| == Shared(x, y, i, j, n)
  {
    hide InPair;
    if n == 0 {
      assert forall r :: r !in S;
    } else if InPair(x, y, i, j, n - 1) {
      SharedIsSize(x, y, i, j, S - {n - 1}, n - 1);
      assert S == S - {n - 1} + {n - 1};
    } else {
      SharedIsSize(x, y, i, j, S, n - 1);
    }
  }

  /** Entry (i, j) of the table is the number of samples in X cell i and Y cell j. */
  lemma CountIsShared(x: Labelling, y: Labelling, a: nat, b: nat, L: nat, i: nat, j: nat)
    requires Tiles(x, a, L) && Tiles(y, b, L) && i < a && j < b
    ensures Count(x, y, i, j) == Shared(x, y, i, j, L)
  {
    hide CellSet, InCell, Injective;
    var S := CellSet(x, i) * CellSet(y, j);
    forall r ensures r in S <==> 0 <= r < L && InPair(x, y, i, j, r) {
      CellHolds(x, a, L, i, r);
      CellHolds(y, b, L, j, r);
      if InCell(x, i, r) {
        CellBelow(x, L, i, r);
      }
    }
    SharedIsSize(x, y, i, j, S, L);
  }

  lemma CellBelow(l: Labelling, L: nat, i: int, r: int)
    requires IsPerm(l.idx, L) && InCell(l, i, r)
    ensures 0 <= r < L
  {
  }

  /** Every pair of cells shares the same number of samples. */
  ghost predicate EvenlyShared(x: Labelling, y: Labelling, a: nat, b: nat, L: nat) {
    forall i, j :: 0 <= i < a && 0 <= j < b ==> Shared(x, y, i, j, L) * (a * b) == L
  }

  /** The L1 statistic is zero exactly when every pair of cells shares L/(a*b) samples. */
  lemma ZeroExactlyWhenEven(x: Labelling, y: Labelling, a: nat, b: nat, L: nat)
    requires a > 0 && b > 0 && L > 0 && Tiles(x, a, L) && Tiles(y, b, L)
    ensures Statistic(x, y, a, b, L) == 0.0 <==> EvenlyShared(x, y, a, b, L)
  {
    hide Statistic, Deviation, Shared, Sum2, Tiles;
    var dev, zero := Deviation(x, y, a, b, L), (i: int, j: int) => 0.0;
    StatisticIs(x, y, a, b, L);
    forall i, j | 0 <= i < a && 0 <= j < b
      ensures zero(i, j) <= dev(i, j)
      ensures dev(i, j) == zero(i, j) <==> Shared(x, y, i, j, L) * (a * b) == L
    {
      DeviationZero(x, y, a, b, L, i, j);
    }
    Sum2Const(a, b, 0.0, zero);
    Sum2Mono(a, b, zero, dev);
    if Statistic(x, y, a, b, L) == 0.0 {
      forall i, j | 0 <= i < a && 0 <= j < b ensures Shared(x, y, i, j, L) * (a * b) == L {
        assert dev(i, j) == zero(i, j);
      }
    } else if EvenlyShared(x, y, a, b, L) {
      Sum2Ext(a, b, zero, dev);
    }
  }

  lemma DeviationZero(x: Labelling, y: Labelling, a: nat, b: nat, L: nat, i: nat, j: nat)
    requires a > 0 && b > 0 && L > 0 && Tiles(x, a, L) && Tiles(y, b, L) && i < a && j < b
    ensures Deviation(x, y, a, b, L)(i, j) >= 0.0
    ensures Deviation(x, y, a, b, L)(i, j) == 0.0 <==> Shared(x, y, i, j, L) * (a * b) == L
  {
    hide Tiles, Count, Shared, Deviation;
    CountIsShared(x, y, a, b, L, i, j);
    DeviationAt(x, y, a, b, L, i, j);
    EqualShare(Shared(x, y, i, j, L), a, b, L);
  }

  lemma EqualShare(n: nat, a: nat, b: nat, L: nat)
    requires a > 0 && b > 0 && L > 0
    ensures n as real / L as real - 1.0 / a as real / b as real == 0.0 <==> n * (a * b) == L
  {
    var k := a as real * b as real;
    assert k > 0.0;
    assert 1.0 / a as real / b as real == 1.0 / k;
    assert (n * (a * b)) as real == n as real * k;
    Crossed(n as real, L as real, k);
  }

  lemma Crossed(n: real, w: real, k: real)
    requires w > 0.0 && k > 0.0
    ensures n / w - 1.0 / k == 0.0 <==> n * k == w
  {
    var f, c := n / w, 1.0 / k;
    assert f * w == n && c * k == 1.0;
    assert f == c ==> w * (f * k) == w * 1.0;
    if n * k == w {
      assert n * k / w == 1.0;
      assert f * k == n * k / w;
    }
  }
}
