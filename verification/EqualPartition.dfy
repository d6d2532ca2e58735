/**
 * EqualPartition: the sample rows are reordered so that they lie bin by bin.  Round h sorts every
 * segment of the index vector by column h, in place, and cuts it into K nearly equal parts.
 * Rows, columns, bins and positions are numbered from zero.
 */
module EqualPartition {
  import opened Permutations
  import opened StableSort

  type Matrix = seq<seq<real>>

  ghost predicate HasColumns(X: Matrix, dim: nat) {
    forall r :: 0 <= r < |X| ==> |X[r]| == dim
  }

  function Pow(b: nat, e: nat): nat {
    if e == 0 then 1 else b * Pow(b, e - 1)
  }

  // ----- block sizes -----

  /** The sum of the first n entries. */
  function Prefix(s: seq<nat>, n: nat): nat
    requires n <= |s|
  {
    if n == 0 then 0 else Prefix(s, n - 1) + s[n - 1]
  }

  /** The K part sizes of a segment of nk rows: the nk mod K larger ones come last. */
  function Split(nk: nat, K: nat): (r: seq<nat>)
    requires K >= 1
    ensures |r| == K
  {
    seq(K, i => nk / K + if i < K - nk % K then 0 else 1)
  }

  /** What round h appends to `tmpblock` for the first n blocks. */
  function SplitFirst(blocks: seq<nat>, K: nat, n: nat): (r: seq<nat>)
    requires K >= 1 && n <= |blocks|
    ensures |r| == n * K
  {
    if n == 0 then [] else
      assert n * K == (n - 1) * K + K;
      SplitFirst(blocks, K, n - 1) + Split(blocks[n - 1], K)
  }

  /** The block sizes after d rounds; the data plays no part. */
  function BlocksAt(N: nat, K: nat, d: nat): seq<nat>
    requires K >= 1
  {
    if d == 0 then [N] else
      var prev := BlocksAt(N, K, d - 1);
      SplitFirst(prev, K, |prev|)
  }

  // ----- the index vector -----

  function Column(X: Matrix, rows: seq<int>, h: nat): (keys: seq<real>)
    requires forall i :: 0 <= i < |rows| ==> 0 <= rows[i] < |X| && h < |X[rows[i]]|
    ensures |keys| == |rows| && forall i :: 0 <= i < |rows| ==> keys[i] == X[rows[i]][h]
  {
    seq(|rows|, i requires 0 <= i < |rows| => X[rows[i]][h])
  }

  ghost predicate Rows(X: Matrix, h: nat, idx: seq<int>) {
    forall i :: 0 <= i < |idx| ==> 0 <= idx[i] < |X| && h < |X[idx[i]]|
  }

  /** One segment of the index vector, positions lo to hi - 1, sorted by column h. */
  function SortSegment(X: Matrix, h: nat, idx: seq<int>, lo: nat, hi: nat): (r: seq<int>)
    requires lo <= hi <= |idx| && Rows(X, h, idx)
    ensures |r| == |idx| && Rows(X, h, r)
  {
    var sub := idx[lo..hi];
    idx[..lo] + Pick(sub, SortIndex(Column(X, sub, h))) + idx[hi..]
  }

  lemma SortSegmentAt(X: Matrix, h: nat, idx: seq<int>, lo: nat, hi: nat, p: nat)
    requires lo <= hi <= |idx| && Rows(X, h, idx) && p < |idx|
    ensures var order := SortIndex(Column(X, idx[lo..hi], h));
            SortSegment(X, h, idx, lo, hi)[p] == if lo <= p < hi then idx[lo + order[p - lo]] else idx[p]
  {
  }

  lemma SortSegmentOrder(X: Matrix, h: nat, idx: seq<int>, lo: nat, hi: nat, p: nat, q: nat)
    requires lo <= p <= q < hi <= |idx| && Rows(X, h, idx)
    ensures var r := SortSegment(X, h, idx, lo, hi); X[r[p]][h] <= X[r[q]][h]
  {
    var keys := Column(X, idx[lo..hi], h);
    SortIndexIsStableSort(keys);
    SortSegmentAt(X, h, idx, lo, hi, p);
    SortSegmentAt(X, h, idx, lo, hi, q);
    var order := SortIndex(keys);
    assert p < q ==> Before(keys, order[p - lo], order[q - lo]);
  }

  lemma SortSegmentContents(X: Matrix, h: nat, idx: seq<int>, lo: nat, hi: nat, p: nat)
    requires lo <= hi <= |idx| && Rows(X, h, idx) && p < |idx|
    ensures var r := SortSegment(X, h, idx, lo, hi);
            if lo <= p < hi then r[p] in idx[lo..hi] else r[p] == idx[p]
  {
  }

  lemma SortSegmentPerm(X: Matrix, h: nat, idx: seq<int>, lo: nat, hi: nat)
    requires lo <= hi <= |idx| && Rows(X, h, idx) && Injective(idx)
    ensures Injective(SortSegment(X, h, idx, lo, hi))
  {
    var keys := Column(X, idx[lo..hi], h);
    SortIndexIsStableSort(keys);
    var order := SortIndex(keys);
    var r := SortSegment(X, h, idx, lo, hi);
    forall p, q | 0 <= p < q < |idx| ensures r[p] != r[q] {
      SortSegmentAt(X, h, idx, lo, hi, p);
      SortSegmentAt(X, h, idx, lo, hi, q);
      assert lo <= p && q < hi ==> order[p - lo] != order[q - lo];
    }
  }

  /** The index vector after the first n segments of round h. */
  function SortFirstSegments(X: Matrix, h: nat, idx: seq<int>, blocks: seq<nat>, n: nat): (r: seq<int>)
    requires n <= |blocks| && Prefix(blocks, n) <= |idx| && Rows(X, h, idx)
    ensures |r| == |idx| && Rows(X, h, r)
  {
    if n == 0 then idx else
      var prev := SortFirstSegments(X, h, idx, blocks, n - 1);
      SortSegment(X, h, prev, Prefix(blocks, n - 1), Prefix(blocks, n))
  }

  /** The index vector after d rounds. */
  function IdxAt(X: Matrix, dim: nat, K: nat, d: nat): (r: seq<int>)
    requires K >= 1 && d <= dim && HasColumns(X, dim)
    ensures |r| == |X| && forall i :: 0 <= i < |r| ==> 0 <= r[i] < |X|
  {
    if d == 0 then Range(|X|) else
      var blocks := BlocksAt(|X|, K, d - 1);
      BlocksFill(|X|, K, d - 1);
      SortFirstSegments(X, d - 1, IdxAt(X, dim, K, d - 1), blocks, |blocks|)
  }

  // ----- arithmetic of the sizes -----

  lemma {:induction false} PrefixMono(s: seq<nat>, m: nat, n: nat)
    requires m <= n <= |s|
    ensures Prefix(s, m) <= Prefix(s, n)
  {
    if m < n {
      PrefixMono(s, m, n - 1);
    }
  }

  lemma {:induction false} PrefixAppend(s: seq<nat>, t: seq<nat>, n: nat)
    requires n <= |s| + |t|
    ensures Prefix(s + t, n) == if n <= |s| then Prefix(s, n) else Prefix(s, |s|) + Prefix(t, n - |s|)
  {
    if n > 0 {
      PrefixAppend(s, t, n - 1);
    }
  }

  lemma MulSucc(a: int, k: int)
    ensures (a + 1) * k == a * k + k
  {
  }

  lemma {:induction false} SplitPrefix(nk: nat, K: nat, n: nat)
    requires K >= 1 && n <= K
    ensures var small := K - nk % K;
            Prefix(Split(nk, K), n) == n * (nk / K) + if n <= small then 0 else n - small
  {
    if n > 0 {
      SplitPrefix(nk, K, n - 1);
      MulSucc(n - 1, nk / K);
    }
  }

  lemma SplitSum(nk: nat, K: nat)
    requires K >= 1
    ensures Prefix(Split(nk, K), K) == nk
  {
    SplitPrefix(nk, K, K);
  }

  lemma MulComm(a: nat, b: nat)
    ensures a * b == b * a
  {
  }

  lemma MulMono(a: int, b: int, k: nat)
    requires a <= b
    ensures a * k <= b * k
  {
  }

  lemma DivModOf(j: nat, i: nat, K: nat)
    requires i < K
    ensures (j * K + i) / K == j && (j * K + i) % K == i
  {
    var c := j * K + i;
    var q, r := c / K, c % K;
    assert c == q * K + r;
    if q < j {
      MulMono(q + 1, j, K);
    } else if q > j {
      MulMono(j + 1, q, K);
    }
  }

  /** The parts are in ascending order and differ by at most one row. */
  ghost predicate EvenAscending(s: seq<nat>) {
    forall i, j :: 0 <= i <= j < |s| ==> s[i] <= s[j] <= s[i] + 1
  }

  /** Where the larger parts begin. */
  lemma {:induction false} LargerFrom(s: seq<nat>, n: nat) returns (f: nat)
    requires EvenAscending(s) && 1 <= n <= |s|
    ensures 1 <= f <= n && forall i :: 0 <= i < n ==> s[i] == if i < f then s[0] else s[0] + 1
  {
    if n == 1 || s[n - 1] == s[0] {
      f := n;
    } else {
      f := LargerFrom(s, n - 1);
    }
  }

  lemma {:induction false} PrefixOfTwo(s: seq<nat>, f: nat, a: nat, n: nat)
    requires n <= |s| && forall i :: 0 <= i < |s| ==> s[i] == if i < f then a else a + 1
    ensures Prefix(s, n) == n * a + if n <= f then 0 else n - f
  {
    if n > 0 {
      PrefixOfTwo(s, f, a, n - 1);
      MulSucc(n - 1, a);
    }
  }

  /** There is one way to cut nk rows into K parts in ascending order that differ by at most one row. */
  lemma SplitExactlyWhen(nk: nat, K: nat, s: seq<nat>)
    requires K >= 1
    ensures s == Split(nk, K) <==> |s| == K && EvenAscending(s) && Prefix(s, |s|) == nk
  {
    SplitSum(nk, K);
    if |s| == K && EvenAscending(s) && Prefix(s, |s|) == nk {
      var f := LargerFrom(s, K);
      PrefixOfTwo(s, f, s[0], K);
      MulComm(K, s[0]);
      DivModOf(s[0], K - f, K);
    }
  }

  /** Child block c is part c mod K of parent block floor(c / K). */
  lemma {:induction false} SplitFirstAt(blocks: seq<nat>, K: nat, n: nat, c: nat)
    requires K >= 1 && n <= |blocks| && c < n * K
    ensures c / K < n && SplitFirst(blocks, K, n)[c] == Split(blocks[c / K], K)[c % K]
  {
    var m := (n - 1) * K;
    MulSucc(n - 1, K);
    if c < m {
      SplitFirstAt(blocks, K, n - 1, c);
    } else {
      DivModOf(n - 1, c - m, K);
    }
  }

  /** Cutting moves no boundary that was already there. */
  lemma {:induction false} SplitFirstPrefix(blocks: seq<nat>, K: nat, n: nat, j: nat)
    requires K >= 1 && j <= n <= |blocks|
    ensures j * K <= n * K
    ensures Prefix(SplitFirst(blocks, K, n), j * K) == Prefix(blocks, j)
  {
    hide Split;
    MulMono(j, n, K);
    if n > 0 {
      var prev, part := SplitFirst(blocks, K, n - 1), Split(blocks[n - 1], K);
      MulSucc(n - 1, K);
      PrefixAppend(prev, part, j * K);
      if j < n {
        SplitFirstPrefix(blocks, K, n - 1, j);
      } else {
        SplitFirstPrefix(blocks, K, n - 1, n - 1);
        SplitSum(blocks[n - 1], K);
      }
    }
  }

  lemma {:induction false} BlocksSum(N: nat, K: nat, d: nat)
    requires K >= 1
    ensures |BlocksAt(N, K, d)| == Pow(K, d)
    ensures Prefix(BlocksAt(N, K, d), Pow(K, d)) == N
  {
    if d == 0 {
      assert Prefix([N], 1) == Prefix([N], 0) + N;
    } else {
      BlocksSum(N, K, d - 1);
      var prev := BlocksAt(N, K, d - 1);
      var M := Pow(K, d - 1);
      SplitFirstPrefix(prev, K, M, M);
      MulComm(K, M);
      assert BlocksAt(N, K, d) == SplitFirst(prev, K, M);
    }
  }

  lemma BlocksFill(N: nat, K: nat, d: nat)
    requires K >= 1
    ensures Prefix(BlocksAt(N, K, d), |BlocksAt(N, K, d)|) == N
  {
    hide *;
    BlocksSum(N, K, d);
  }

  // ----- the program -----

  datatype Partition =
    | Bins(idx: seq<int>, block: seq<nat>)
    | TooFewData      // the error 'Use smaller number of partitions (K)'
    | NoColumns       // no round is run, so the result variable `tmpblock` does not exist

  /** MATLAB's cumsum */
  function CumSum(s: seq<nat>): (r: seq<nat>)
    ensures |r| == |s| && forall i :: 0 <= i < |s| ==> r[i] == Prefix(s, i + 1)
  {
    seq(|s|, i requires 0 <= i < |s| => Prefix(s, i + 1))
  }

  /** Some segment would get parts of fewer than two rows. */
  ghost predicate RoundFails(blocks: seq<nat>, K: nat)
    requires K >= 1
  {
    exists j :: 0 <= j < |blocks| && blocks[j] / K <= 1
  }

  /** The first failing round decides; the data plays no part. */
  ghost predicate Fails(N: nat, K: nat, dim: nat)
    requires K >= 1
  {
    exists d :: 0 <= d < dim && RoundFails(BlocksAt(N, K, d), K)
  }

  /** idx(lo:hi) = subidx(order), where order sorts column h of those rows */
  method SortInPlace(X: Matrix, h: nat, idx: array<int>, lo: nat, hi: nat)
    requires lo <= hi <= idx.Length && Rows(X, h, idx[..])
    modifies idx
    ensures idx[..] == SortSegment(X, h, old(idx[..]), lo, hi)
  {
    var subidx := idx[..][lo..hi];
    var sorted := Pick(subidx, SortIndex(Column(X, subidx, h)));
    forall p | lo <= p < hi {
      idx[p] := sorted[p - lo];
    }
  }

  /** Round h: sort every segment by column h in place and cut it. */
  method Round(X: Matrix, h: nat, K: nat, idx: array<int>, prevblock: seq<nat>)
      returns (failed: bool, tmpblock: seq<nat>)
    requires K >= 1 && Rows(X, h, idx[..]) && Prefix(prevblock, |prevblock|) <= idx.Length
    modifies idx
    ensures failed <==> RoundFails(prevblock, K)
    ensures !failed ==> tmpblock == SplitFirst(prevblock, K, |prevblock|)
    ensures !failed ==> idx[..] == SortFirstSegments(X, h, old(idx[..]), prevblock, |prevblock|)
  {
    hide SortSegment, Split;
    var numblk := |prevblock|;
    var start := 0;
    var bEnd := CumSum(prevblock);
    tmpblock := [];
    for i := 0 to numblk
      invariant start == Prefix(prevblock, i) <= idx.Length
      invariant tmpblock == SplitFirst(prevblock, K, i)
      invariant idx[..] == SortFirstSegments(X, h, old(idx[..]), prevblock, i)
      invariant forall j :: 0 <= j < i ==> prevblock[j] / K > 1
    {
      PrefixMono(prevblock, i + 1, numblk);
      var nk := bEnd[i] - start;
      if nk / K <= 1 {
        return true, tmpblock;
      }
      tmpblock := tmpblock + Split(nk, K);
      SortInPlace(X, h, idx, start, bEnd[i]);
      start := bEnd[i];
    }
    failed := false;
  }

  method EqualPartition(X: Matrix, dim: nat, K: nat) returns (r: Partition)
    requires K >= 1 && HasColumns(X, dim)
    ensures r.NoColumns? <==> dim == 0
    ensures r.TooFewData? <==> Fails(|X|, K, dim)
    ensures r.Bins? ==> r.idx == IdxAt(X, dim, K, dim) && r.block == BlocksAt(|X|, K, dim)
  {
    hide SplitFirst, SortFirstSegments, Prefix, Pow, RoundFails;
    var N := |X|;
    var idx := new int[N](i => i);
    assert idx[..] == Range(N);
    var prevblock: seq<nat> := [N];
    var tmpblock: seq<nat> := [];
    for h := 0 to dim
      invariant idx[..] == IdxAt(X, dim, K, h) && prevblock == BlocksAt(N, K, h)
      invariant h > 0 ==> tmpblock == prevblock
      invariant forall d :: 0 <= d < h ==> !RoundFails(BlocksAt(N, K, d), K)
    {
      BlocksSum(N, K, h);
      var failed;
      failed, tmpblock := Round(X, h, K, idx, prevblock);
      if failed {
        return TooFewData;
      }
      prevblock := tmpblock;
    }
    if dim == 0 {
      return NoColumns;
    }
    r := Bins(idx[..], tmpblock);
  }
}
