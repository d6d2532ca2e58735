/**
 * The whole order of the index vector.  Two rows that were sorted together in the first n rounds
 * stand in the order of column n - 1, ties in the order of column n - 2, and so on down to the row
 * number; the bins of their positions say what n is.
 */
module RowOrder {
  import opened StableSort
  import opened EqualPartition
  import opened PartitionTheorems
  import opened Contingency

  /** Row r comes before row s by column n - 1, then column n - 2, down to column 0, then row number. */
  predicate Precedes(X: Matrix, n: nat, r: int, s: int)
    requires 0 <= r < |X| && 0 <= s < |X| && n <= |X[r]| && n <= |X[s]|
  {
    if n == 0 then r < s
    else X[r][n - 1] < X[s][n - 1] || (X[r][n - 1] == X[s][n - 1] && Precedes(X, n - 1, r, s))
  }

  /** After d rounds, bins i and j were one segment in the first n rounds and in no later one. */
  ghost predicate Together(i: nat, j: nat, K: nat, d: nat, n: nat)
    requires K >= 1
  {
    if i == j then n == d else n >= 1 && FirstDiffer(i, j, K, d, n - 1)
  }

  /** A round sorts each segment by its column and keeps the earlier order of equal values. */
  lemma RoundStable(X: Matrix, h: nat, idx: seq<int>, blocks: seq<nat>, b: nat, p: nat, q: nat)
      returns (p': nat, q': nat)
    requires Rows(X, h, idx) && Prefix(blocks, |blocks|) <= |idx|
    requires InBlock(blocks, b, p) && InBlock(blocks, b, q) && p < q
    ensures q < |idx| && p' < |idx| && q' < |idx| && InBlock(blocks, b, p') && InBlock(blocks, b, q')
    ensures var r := SortFirstSegments(X, h, idx, blocks, |blocks|);
            && r[p] == idx[p'] && r[q] == idx[q']
            && (X[r[p]][h] < X[r[q]][h] || (X[r[p]][h] == X[r[q]][h] && p' < q'))
  {
    hide SortFirstSegments, SortSegment, Prefix;
    SegmentAfter(X, h, idx, blocks, |blocks|, b, p);
    SegmentAfter(X, h, idx, blocks, |blocks|, b, q);
    p', q' := SegmentStable(X, h, idx, Prefix(blocks, b), Prefix(blocks, b + 1), p, q);
  }

  lemma SegmentStable(X: Matrix, h: nat, idx: seq<int>, lo: nat, hi: nat, p: nat, q: nat) returns (p': nat, q': nat)
    requires lo <= p < q < hi <= |idx| && Rows(X, h, idx)
    ensures lo <= p' < hi && lo <= q' < hi
    ensures var r := SortSegment(X, h, idx, lo, hi);
            && r[p] == idx[p'] && r[q] == idx[q']
            && (X[r[p]][h] < X[r[q]][h] || (X[r[p]][h] == X[r[q]][h] && p' < q'))
  {
    hide SortSegment;
    SortSegmentAt(X, h, idx, lo, hi, p);
    SortSegmentAt(X, h, idx, lo, hi, q);
    var keys := Column(X, idx[lo..hi], h);
    SortIndexIsStableSort(keys);
    var order := SortIndex(keys);
    assert Before(keys, order[p - lo], order[q - lo]);
    p', q' := lo + order[p - lo], lo + order[q - lo];
  }

  /** Bins that come later hold later positions. */
  lemma BinsAscend(blocks: seq<nat>, i: nat, j: nat, p: nat, q: nat)
    requires InBlock(blocks, i, p) && InBlock(blocks, j, q)
    ensures i < j ==> p < q
    ensures p < q ==> i <= j
  {
    hide Prefix;
    if i < j {
      PrefixMono(blocks, i + 1, j);
    } else if j < i {
      PrefixMono(blocks, j + 1, i);
    }
  }

  lemma NoRound(X: Matrix, dim: nat, K: nat, i: nat, p: nat)
    requires K >= 1 && HasColumns(X, dim) && InBlock(BlocksAt(|X|, K, 0), i, p)
    ensures i == 0 && p < |X| && IdxAt(X, dim, K, 0)[p] == p
  {
    assert Prefix([|X|], 1) == Prefix([|X|], 0) + |X|;
  }

  lemma ParentsTogether(i: nat, j: nat, K: nat, d: nat, n: nat)
    requires K >= 1 && d >= 1 && i < Pow(K, d) && j < Pow(K, d) && i <= j && Together(i, j, K, d, n)
    ensures Parent(i, K) == Parent(j, K) ==> n == d
    ensures Parent(i, K) != Parent(j, K) ==>
              Parent(i, K) < Parent(j, K) && Together(Parent(i, K), Parent(j, K), K, d - 1, n)
  {
    hide Parent, Part, Digits;
    if i != j {
      DigitsOfParent(i, K, d, n - 1);
      DigitsOfParent(j, K, d, n - 1);
      DivModLess(i, j, K);
      if n == d {
        ParentBelow(i, K, d);
        ParentBelow(j, K, d);
        DigitsInjective(Parent(i, K), Parent(j, K), K, d - 1);
      }
    }
  }

  /** The order of any two positions after d rounds. */
  lemma {:induction false} RowsInOrder(
      X: Matrix, dim: nat, K: nat, d: nat, i: nat, j: nat, n: nat, p: nat, q: nat)
    requires K >= 1 && d <= dim && HasColumns(X, dim) && p < q
    requires InBlock(BlocksAt(|X|, K, d), i, p) && InBlock(BlocksAt(|X|, K, d), j, q)
    requires Together(i, j, K, d, n)
    ensures q < |X| && n <= d
    ensures var idx := IdxAt(X, dim, K, d); Precedes(X, n, idx[p], idx[q])
    decreases d
  {
    hide Parent, Part, BlocksAt, IdxAt, Prefix, SplitFirst, SortFirstSegments, Digits, Pow;
    if d == 0 {
      NoRound(X, dim, K, i, p);
      NoRound(X, dim, K, j, q);
    } else {
      RoundUnfolds(X, dim, K, d);
      var parents, idx := BlocksAt(|X|, K, d - 1), IdxAt(X, dim, K, d - 1);
      ChildInParent(parents, K, i, p);
      ChildInParent(parents, K, j, q);
      BinsAscend(BlocksAt(|X|, K, d), i, j, p, q);
      ParentsTogether(i, j, K, d, n);
      var pi, pj := Parent(i, K), Parent(j, K);
      if pi == pj {
        var p', q' := RoundStable(X, d - 1, idx, parents, pi, p, q);
        if p' < q' {
          RowsInOrder(X, dim, K, d - 1, pi, pi, d - 1, p', q');
        }
      } else {
        var p' := RoundKeepsBlock(X, d - 1, idx, parents, pi, p);
        var q' := RoundKeepsBlock(X, d - 1, idx, parents, pj, q);
        BinsAscend(parents, pi, pj, p', q');
        RowsInOrder(X, dim, K, d - 1, pi, pj, n, p', q');
      }
    }
  }

  lemma {:induction false} BinOf(blocks: seq<nat>, n: nat, p: nat) returns (i: nat)
    requires n <= |blocks| && p < Prefix(blocks, n)
    ensures InBlock(blocks, i, p)
  {
    if p < Prefix(blocks, n - 1) {
      i := BinOf(blocks, n - 1, p);
    } else {
      i := n - 1;
    }
  }

  /**
   * Any two positions of the index vector that the table is counted from: their bins say in how many
   * rounds their rows were sorted together, and that order is kept.
   */
  lemma LabelInOrder(X: Matrix, dim: nat, q: nat, p: nat, p': nat) returns (i: nat, j: nat, n: nat)
    requires q >= 1 && HasColumns(X, dim) && p < p' < |X|
    ensures InBlock(BlocksAt(|X|, q, dim), i, p) && InBlock(BlocksAt(|X|, q, dim), j, p')
    ensures Together(i, j, q, dim, n) && n <= dim
    ensures var idx := Label(X, dim, q).idx; |idx| == |X| && Precedes(X, n, idx[p], idx[p'])
  {
    hide BlocksAt, IdxAt, Prefix, Pow, Digits, Precedes;
    BlocksSum(|X|, q, dim);
    var blocks := BlocksAt(|X|, q, dim);
    i := BinOf(blocks, |blocks|, p);
    j := BinOf(blocks, |blocks|, p');
    BinsAscend(blocks, i, j, p, p');
    if i == j {
      n := dim;
    } else {
      BinsDiffer(i, j, q, dim);
      var h: nat :| FirstDiffer(i, j, q, dim, h);
      n := h + 1;
    }
    RowsInOrder(X, dim, q, dim, i, j, n, p, p');
  }
}
