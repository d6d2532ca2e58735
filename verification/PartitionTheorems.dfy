/** What EqualPartition guarantees, for every data matrix, K and number of columns. */
module PartitionTheorems {
  import opened Permutations
  import opened StableSort
  import opened EqualPartition

  // ----- block sizes are as equal as possible -----

  lemma DivUnique(n: nat, q: nat, r: nat, m: nat)
    requires n == q * m + r && r < m
    ensures n / m == q && n % m == r
  {
    DivModOf(q, r, m);
  }

  lemma Distribute(q: nat, b: nat, s: nat, a: nat)
    ensures (q * b + s) * a == q * (b * a) + s * a
  {
  }

  lemma DivDiv(n: nat, a: nat, b: nat)
    requires a >= 1 && b >= 1
    ensures b * a >= 1 && n / a / b == n / (b * a)
  {
    var q := n / a / b;
    var r, s := n % a, n / a % b;
    assert n == (n / a) * a + r && n / a == q * b + s;
    Distribute(q, b, s, a);
    MulSucc(s, a);
    MulMono(s + 1, b, a);
    MulMono(1, b, a);
    DivUnique(n, q, s * a + r, b * a);
  }

  lemma {:induction false} PowPositive(K: nat, d: nat)
    requires K >= 1
    ensures Pow(K, d) >= 1
  {
    if d > 0 {
      PowPositive(K, d - 1);
      MulMono(1, K, Pow(K, d - 1));
    }
  }

  /** One more row moves the quotient up exactly when it completes a multiple of K. */
  lemma DivSucc(n: nat, K: nat)
    requires K >= 1
    ensures (n + 1) / K == if (n + 1) % K == 0 then n / K + 1 else n / K
  {
    var q, r := n / K, n % K;
    assert n == q * K + r;
    if r + 1 < K {
      DivUnique(n + 1, q, r + 1, K);
    } else {
      assert n + 1 == (q + 1) * K;
      DivUnique(n + 1, q + 1, 0, K);
    }
  }

  /** Cutting a block of m or m + 1 rows leaves parts of floor(m/K) or one more. */
  lemma SplitNearEqual(b: nat, m: nat, K: nat, i: nat)
    requires K >= 1 && (b == m || b == m + 1) && i < K
    ensures m / K <= Split(b, K)[i] <= m / K + 1 && m / K <= b / K
    ensures Split(m, K)[0] == m / K
  {
    DivSucc(m, K);
  }

  lemma BlocksUnfold(N: nat, K: nat, d: nat)
    requires K >= 1 && d >= 1
    ensures Pow(K, d) == K * Pow(K, d - 1) == Pow(K, d - 1) * K
    ensures BlocksAt(N, K, d) == SplitFirst(BlocksAt(N, K, d - 1), K, |BlocksAt(N, K, d - 1)|)
  {
  }

  /** One round takes block sizes N/M or N/M + 1, the first N/M, to the same for K*M blocks. */
  lemma CutNearEqual(N: nat, K: nat, M: nat, prev: seq<nat>, c: nat)
    requires K >= 1 && M >= 1 && |prev| == M && c < M * K
    requires forall j :: 0 <= j < M ==> prev[j] == N / M || prev[j] == N / M + 1
    ensures K * M >= 1 && N / (K * M) <= SplitFirst(prev, K, M)[c] <= N / (K * M) + 1
    ensures prev[0] == N / M ==> SplitFirst(prev, K, M)[0] == N / (K * M)
  {
    hide Split, SplitFirst;
    SplitFirstAt(prev, K, M, c);
    SplitNearEqual(prev[c / K], N / M, K, c % K);
    SplitFirstAt(prev, K, M, 0);
    SplitNearEqual(prev[0], N / M, K, 0);
    DivDiv(N, M, K);
  }

  lemma {:induction false} BlockBounds(N: nat, K: nat, d: nat)
    requires K >= 1
    ensures var M, blocks := Pow(K, d), BlocksAt(N, K, d);
            && M >= 1 && |blocks| == M && blocks[0] == N / M
            && (forall c :: 0 <= c < M ==> blocks[c] == N / M || blocks[c] == N / M + 1)
  {
    PowPositive(K, d);
    BlocksSum(N, K, d);
    if d > 0 {
      BlockBounds(N, K, d - 1);
      BlockBoundsStep(N, K, d);
    }
  }

  lemma BlockBoundsStep(N: nat, K: nat, d: nat)
    requires K >= 1 && d >= 1
    requires Pow(K, d) >= 1 && |BlocksAt(N, K, d)| == Pow(K, d)
    requires var M, blocks := Pow(K, d - 1), BlocksAt(N, K, d - 1);
             && M >= 1 && |blocks| == M && blocks[0] == N / M
             && (forall c :: 0 <= c < M ==> blocks[c] == N / M || blocks[c] == N / M + 1)
    ensures var M, blocks := Pow(K, d), BlocksAt(N, K, d);
            && blocks[0] == N / M
            && (forall c :: 0 <= c < M ==> blocks[c] == N / M || blocks[c] == N / M + 1)
  {
    hide *;
    BlocksUnfold(N, K, d);
    var M := Pow(K, d - 1);
    forall c | 0 <= c < M * K
      ensures BlocksAt(N, K, d)[c] == N / (K * M) || BlocksAt(N, K, d)[c] == N / (K * M) + 1
    {
      CutNearEqual(N, K, M, BlocksAt(N, K, d - 1), c);
    }
    CutNearEqual(N, K, M, BlocksAt(N, K, d - 1), 0);
  }

  /** How many of the first n blocks have more than m rows. */
  function Larger(blocks: seq<nat>, m: nat, n: nat): nat
    requires n <= |blocks|
  {
    if n == 0 then 0 else Larger(blocks, m, n - 1) + if blocks[n - 1] > m then 1 else 0
  }

  lemma {:induction false} PrefixOfNearEqual(blocks: seq<nat>, m: nat, n: nat)
    requires n <= |blocks| && forall j :: 0 <= j < n ==> m <= blocks[j] <= m + 1
    ensures Prefix(blocks, n) == n * m + Larger(blocks, m, n)
    ensures n > 0 && blocks[0] == m ==> Larger(blocks, m, n) < n
    ensures Larger(blocks, m, n) <= n
  {
    if n > 0 {
      PrefixOfNearEqual(blocks, m, n - 1);
      assert n * m == (n - 1) * m + m;
    }
  }

  /**
   * The blocks hold N rows in all, each has floor(N/M) rows or one more where M is their number,
   * the first is of the smaller size, and exactly N mod M are larger.
   */
  ghost predicate AsEqualAsPossible(blocks: seq<nat>, N: nat) {
    var M := |blocks|;
    && M >= 1 && Prefix(blocks, M) == N
    && (forall c :: 0 <= c < M ==> blocks[c] == N / M || blocks[c] == N / M + 1)
    && blocks[0] == N / M
    && Larger(blocks, N / M, M) == N % M
  }

  /** After every number d of rounds there are K^d blocks, as equal as possible. */
  lemma BlocksAsEqualAsPossible(N: nat, K: nat, d: nat)
    requires K >= 1
    ensures |BlocksAt(N, K, d)| == Pow(K, d) && AsEqualAsPossible(BlocksAt(N, K, d), N)
  {
    hide BlocksAt, Pow, Prefix, Larger;
    var M, blocks := Pow(K, d), BlocksAt(N, K, d);
    BlocksSum(N, K, d);
    BlockBounds(N, K, d);
    PrefixOfNearEqual(blocks, N / M, M);
    MulComm(M, N / M);
    DivUnique(N, N / M, Larger(blocks, N / M, M), M);
  }

  // ----- when the program stops with its error -----

  lemma {:induction false} PowMono(K: nat, d: nat, e: nat)
    requires K >= 1 && d <= e
    ensures Pow(K, d) <= Pow(K, e)
  {
    if d < e {
      PowMono(K, d, e - 1);
      MulMono(1, K, Pow(K, e - 1));
    }
  }

  lemma QuotientAtMostOne(n: nat, m: nat)
    requires m >= 1
    ensures n / m <= 1 <==> n < 2 * m
  {
  }

  lemma RoundFailsWhen(N: nat, K: nat, d: nat)
    requires K >= 1
    ensures RoundFails(BlocksAt(N, K, d), K) <==> N < 2 * Pow(K, d + 1)
  {
    var M, blocks := Pow(K, d), BlocksAt(N, K, d);
    BlocksAsEqualAsPossible(N, K, d);
    forall j | 0 <= j < |blocks| ensures blocks[j] / K >= blocks[0] / K {
      SplitNearEqual(blocks[j], blocks[0], K, 0);
    }
    DivDiv(N, M, K);
    assert Pow(K, d + 1) == K * M;
    QuotientAtMostOne(N, K * M);
  }

  /** The error is raised exactly when there are fewer than two rows per final bin. */
  lemma FailsExactlyWhen(N: nat, K: nat, dim: nat)
    requires K >= 1
    ensures Fails(N, K, dim) <==> dim >= 1 && N < 2 * Pow(K, dim)
  {
    forall d | 0 <= d < dim ensures RoundFails(BlocksAt(N, K, d), K) ==> N < 2 * Pow(K, dim) {
      RoundFailsWhen(N, K, d);
      PowMono(K, d + 1, dim);
    }
    if dim >= 1 {
      RoundFailsWhen(N, K, dim - 1);
    }
  }

  // ----- idx stays a permutation, and rows never leave their bin -----

  /** Position p lies in block b. */
  ghost predicate InBlock(blocks: seq<nat>, b: int, p: int) {
    0 <= b < |blocks| && Prefix(blocks, b) <= p < Prefix(blocks, b + 1)
  }

  /** The last unfolding of `BlocksAt` and `IdxAt`, in one place. */
  lemma RoundUnfolds(X: Matrix, dim: nat, K: nat, d: nat)
    requires K >= 1 && 1 <= d <= dim && HasColumns(X, dim)
    ensures var blocks, idx := BlocksAt(|X|, K, d - 1), IdxAt(X, dim, K, d - 1);
            && Prefix(blocks, |blocks|) == |X| && Rows(X, d - 1, idx)
            && BlocksAt(|X|, K, d) == SplitFirst(blocks, K, |blocks|)
            && IdxAt(X, dim, K, d) == SortFirstSegments(X, d - 1, idx, blocks, |blocks|)
            && |blocks| == Pow(K, d - 1) && |BlocksAt(|X|, K, d)| == Pow(K, d)
  {
    hide Prefix, SplitFirst, SortFirstSegments, Pow;
    BlocksSum(|X|, K, d);
    BlocksSum(|X|, K, d - 1);
  }

  lemma {:induction false} SegmentsPerm(X: Matrix, h: nat, idx: seq<int>, blocks: seq<nat>, n: nat)
    requires n <= |blocks| && Prefix(blocks, n) <= |idx| && Rows(X, h, idx) && Injective(idx)
    ensures Injective(SortFirstSegments(X, h, idx, blocks, n))
  {
    hide SortSegment, Prefix;
    if n > 0 {
      PrefixMono(blocks, n - 1, n);
      SegmentsPerm(X, h, idx, blocks, n - 1);
      SortSegmentPerm(X, h, SortFirstSegments(X, h, idx, blocks, n - 1), Prefix(blocks, n - 1), Prefix(blocks, n));
    }
  }

  lemma RoundKeepsPerm(X: Matrix, dim: nat, K: nat, d: nat)
    requires K >= 1 && 1 <= d <= dim && HasColumns(X, dim) && Injective(IdxAt(X, dim, K, d - 1))
    ensures Injective(IdxAt(X, dim, K, d))
  {
    hide *;
    RoundUnfolds(X, dim, K, d);
    var blocks := BlocksAt(|X|, K, d - 1);
    SegmentsPerm(X, d - 1, IdxAt(X, dim, K, d - 1), blocks, |blocks|);
  }

  /** Through every round the index vector lists every row exactly once. */
  lemma {:induction false} IdxIsPerm(X: Matrix, dim: nat, K: nat, d: nat)
    requires K >= 1 && d <= dim && HasColumns(X, dim)
    ensures IsPerm(IdxAt(X, dim, K, d), |X|)
  {
    hide BlocksAt, SortFirstSegments;
    if d > 0 {
      IdxIsPerm(X, dim, K, d - 1);
      RoundKeepsPerm(X, dim, K, d);
    }
  }

  /** Positions past the sorted segments still hold what they held. */
  lemma {:induction false} SegmentsUntouched(X: Matrix, h: nat, idx: seq<int>, blocks: seq<nat>, n: nat, p: nat)
    requires n <= |blocks| && Prefix(blocks, n) <= p < |idx| && Rows(X, h, idx)
    ensures SortFirstSegments(X, h, idx, blocks, n)[p] == idx[p]
  {
    if n > 0 {
      SegmentsUntouched(X, h, idx, blocks, n - 1, p);
      var prev := SortFirstSegments(X, h, idx, blocks, n - 1);
      SortSegmentContents(X, h, prev, Prefix(blocks, n - 1), Prefix(blocks, n), p);
    }
  }

  /** What a segment becomes depends only on what it held. */
  lemma SortSegmentLocal(X: Matrix, h: nat, idx: seq<int>, idx': seq<int>, lo: nat, hi: nat, p: nat)
    requires lo <= p < hi <= |idx| && |idx| == |idx'| && Rows(X, h, idx) && Rows(X, h, idx')
    requires idx[lo..hi] == idx'[lo..hi]
    ensures SortSegment(X, h, idx, lo, hi)[p] == SortSegment(X, h, idx', lo, hi)[p]
  {
  }

  lemma LastSegment(X: Matrix, h: nat, idx: seq<int>, blocks: seq<nat>, b: nat, p: nat)
    requires b < |blocks| && Prefix(blocks, b + 1) <= |idx| && Rows(X, h, idx)
    requires InBlock(blocks, b, p)
    ensures SortFirstSegments(X, h, idx, blocks, b + 1)[p] ==
            SortSegment(X, h, idx, Prefix(blocks, b), Prefix(blocks, b + 1))[p]
  {
    hide SortSegment, Prefix;
    var prev := SortFirstSegments(X, h, idx, blocks, b);
    var lo, hi := Prefix(blocks, b), Prefix(blocks, b + 1);
    forall q | lo <= q < hi ensures prev[q] == idx[q] {
      SegmentsUntouched(X, h, idx, blocks, b, q);
    }
    assert prev[lo..hi] == idx[lo..hi];
    SortSegmentLocal(X, h, prev, idx, lo, hi, p);
  }

  /** Once segment b is done it is not touched again, so it reads as after its own sort. */
  lemma {:induction false} SegmentAfter(X: Matrix, h: nat, idx: seq<int>, blocks: seq<nat>, n: nat, b: nat, p: nat)
    requires b < n <= |blocks| && Prefix(blocks, n) <= |idx| && Rows(X, h, idx)
    requires InBlock(blocks, b, p)
    ensures Prefix(blocks, b + 1) <= |idx|
    ensures SortFirstSegments(X, h, idx, blocks, n)[p] ==
            SortSegment(X, h, idx, Prefix(blocks, b), Prefix(blocks, b + 1))[p]
  {
    hide SortSegment, Prefix;
    PrefixMono(blocks, b + 1, n);
    if b < n - 1 {
      PrefixMono(blocks, b + 1, n - 1);
      PrefixMono(blocks, n - 1, n);
      SegmentAfter(X, h, idx, blocks, n - 1, b, p);
      var prev := SortFirstSegments(X, h, idx, blocks, n - 1);
      SortSegmentContents(X, h, prev, Prefix(blocks, n - 1), Prefix(blocks, n), p);
    } else {
      LastSegment(X, h, idx, blocks, b, p);
    }
  }

  // ----- hierarchical order -----

  /** The block that child block c was cut from, and which of its K parts it is. */
  function Parent(c: nat, K: nat): nat
    requires K >= 1
  {
    c / K
  }

  function Part(c: nat, K: nat): nat
    requires K >= 1
  {
    c % K
  }

  /** The d base-K digits of bin number j, most significant first. */
  function Digits(j: nat, K: nat, d: nat): (r: seq<nat>)
    requires K >= 1
    ensures |r| == d
  {
    if d == 0 then [] else Digits(Parent(j, K), K, d - 1) + [Part(j, K)]
  }

  /** Numbers i and j agree before digit h, where i has the smaller digit. */
  ghost predicate FirstDiffer(i: nat, j: nat, K: nat, d: nat, h: nat)
    requires K >= 1
  {
    h < d && Digits(i, K, d)[..h] == Digits(j, K, d)[..h] && Digits(i, K, d)[h] < Digits(j, K, d)[h]
  }

  lemma DivModLess(i: nat, j: nat, K: nat)
    requires K >= 1
    ensures i < j <==> Parent(i, K) < Parent(j, K) || (Parent(i, K) == Parent(j, K) && Part(i, K) < Part(j, K))
  {
    assert i == (i / K) * K + i % K && j == (j / K) * K + j % K;
    if i / K < j / K {
      MulMono(i / K + 1, j / K, K);
    } else if j / K < i / K {
      MulMono(j / K + 1, i / K, K);
    }
  }

  lemma ParentBelow(j: nat, K: nat, d: nat)
    requires K >= 1 && d >= 1 && j < Pow(K, d)
    ensures Parent(j, K) < Pow(K, d - 1)
  {
  }

  lemma DigitsOfParent(j: nat, K: nat, d: nat, h: nat)
    requires K >= 1 && h < d
    ensures h < d - 1 ==>
              && Digits(j, K, d)[..h] == Digits(Parent(j, K), K, d - 1)[..h]
              && Digits(j, K, d)[h] == Digits(Parent(j, K), K, d - 1)[h]
    ensures h == d - 1 ==> Digits(j, K, d)[..h] == Digits(Parent(j, K), K, d - 1) && Digits(j, K, d)[h] == Part(j, K)
  {
  }

  lemma {:induction false} DigitsInjective(i: nat, j: nat, K: nat, d: nat)
    requires K >= 1 && i < Pow(K, d) && j < Pow(K, d) && Digits(i, K, d) == Digits(j, K, d)
    ensures i == j
    decreases d
  {
    hide Parent, Part;
    if d > 0 {
      DigitsOfParent(i, K, d, d - 1);
      DigitsOfParent(j, K, d, d - 1);
      ParentBelow(i, K, d);
      ParentBelow(j, K, d);
      DigitsInjective(Parent(i, K), Parent(j, K), K, d - 1);
      DivModLess(i, j, K);
      DivModLess(j, i, K);
    }
  }

  /** Every two bins are told apart by some first digit, and it orders them as numbers. */
  lemma {:induction false} BinsDiffer(i: nat, j: nat, K: nat, d: nat)
    requires K >= 1 && i < j < Pow(K, d)
    ensures exists h :: FirstDiffer(i, j, K, d, h)
    decreases d
  {
    hide Parent, Part;
    ParentBelow(i, K, d);
    ParentBelow(j, K, d);
    DivModLess(i, j, K);
    if Parent(i, K) < Parent(j, K) {
      BinsDiffer(Parent(i, K), Parent(j, K), K, d - 1);
      var h :| FirstDiffer(Parent(i, K), Parent(j, K), K, d - 1, h);
      DigitsOfParent(i, K, d, h);
      DigitsOfParent(j, K, d, h);
      assert FirstDiffer(i, j, K, d, h);
    } else {
      DigitsOfParent(i, K, d, d - 1);
      DigitsOfParent(j, K, d, d - 1);
      assert FirstDiffer(i, j, K, d, d - 1);
    }
  }

  lemma ChildRange(c: nat, K: nat, n: nat)
    requires K >= 1 && c < n * K
    ensures Parent(c, K) < n && Parent(c, K) * K <= c < (Parent(c, K) + 1) * K <= n * K
  {
    var q := c / K;
    assert c == q * K + c % K;
    assert (q + 1) * K == q * K + K;
    if q >= n {
      MulMono(n, q, K);
    } else {
      MulMono(q + 1, n, K);
    }
  }

  lemma ParentBounds(blocks: seq<nat>, K: nat, c: nat)
    requires K >= 1 && c < |blocks| * K
    ensures Parent(c, K) < |blocks|
    ensures var child := SplitFirst(blocks, K, |blocks|);
            Prefix(blocks, Parent(c, K)) <= Prefix(child, c) && Prefix(child, c + 1) <= Prefix(blocks, Parent(c, K) + 1)
  {
    hide *;
    var n, child := |blocks|, SplitFirst(blocks, K, |blocks|);
    ChildRange(c, K, n);
    var j := Parent(c, K);
    SplitFirstPrefix(blocks, K, n, j);
    SplitFirstPrefix(blocks, K, n, j + 1);
    PrefixMono(child, j * K, c);
    PrefixMono(child, c + 1, (j + 1) * K);
  }

  /** A position of child block c lies in its parent block. */
  lemma ChildInParent(blocks: seq<nat>, K: nat, c: nat, p: nat)
    requires K >= 1 && InBlock(SplitFirst(blocks, K, |blocks|), c, p)
    ensures InBlock(blocks, Parent(c, K), p)
  {
    hide SplitFirst, Prefix, Parent;
    ParentBounds(blocks, K, c);
  }

  /** After a round, a position holds a row that was in the same block before it. */
  lemma RoundKeepsBlock(X: Matrix, h: nat, idx: seq<int>, blocks: seq<nat>, b: nat, p: nat) returns (p': nat)
    requires Rows(X, h, idx) && Prefix(blocks, |blocks|) <= |idx| && InBlock(blocks, b, p)
    ensures p < |idx| && p' < |idx| && InBlock(blocks, b, p')
    ensures SortFirstSegments(X, h, idx, blocks, |blocks|)[p] == idx[p']
  {
    hide SortFirstSegments, SortSegment, Prefix;
    var lo, hi := Prefix(blocks, b), Prefix(blocks, b + 1);
    SegmentAfter(X, h, idx, blocks, |blocks|, b, p);
    SortSegmentContents(X, h, idx, lo, hi, p);
    var x := SortFirstSegments(X, h, idx, blocks, |blocks|)[p];
    p' := lo + IndexOf(idx[lo..hi], x);
  }

  lemma RoundSorts(X: Matrix, h: nat, idx: seq<int>, blocks: seq<nat>, b: nat, p: nat, q: nat)
    requires Rows(X, h, idx) && Prefix(blocks, |blocks|) <= |idx|
    requires InBlock(blocks, b, p) && InBlock(blocks, b, q) && p <= q
    ensures q < |idx| && var r := SortFirstSegments(X, h, idx, blocks, |blocks|); X[r[p]][h] <= X[r[q]][h]
  {
    SegmentAfter(X, h, idx, blocks, |blocks|, b, p);
    SegmentAfter(X, h, idx, blocks, |blocks|, b, q);
    SortSegmentOrder(X, h, idx, Prefix(blocks, b), Prefix(blocks, b + 1), p, q);
  }

  /**
   * The order made in round h survives every later round: if bins i and j first differ at digit h,
   * every row of bin i has a column-h value no larger than every row of bin j.
   */
  lemma {:induction false} HierarchicalOrder(
      X: Matrix, dim: nat, K: nat, d: nat, i: nat, j: nat, h: nat, p: nat, q: nat)
    requires K >= 1 && d <= dim && HasColumns(X, dim)
    requires InBlock(BlocksAt(|X|, K, d), i, p) && InBlock(BlocksAt(|X|, K, d), j, q)
    requires FirstDiffer(i, j, K, d, h)
    ensures p < |X| && q < |X|
    ensures var idx := IdxAt(X, dim, K, d); X[idx[p]][h] <= X[idx[q]][h]
    decreases d
  {
    hide Parent, Part, BlocksAt, IdxAt, Prefix, SplitFirst, SortFirstSegments, Digits;
    RoundUnfolds(X, dim, K, d);
    var parents, idx := BlocksAt(|X|, K, d - 1), IdxAt(X, dim, K, d - 1);
    ChildInParent(parents, K, i, p);
    ChildInParent(parents, K, j, q);
    DigitsOfParent(i, K, d, h);
    DigitsOfParent(j, K, d, h);
    if h < d - 1 {
      var p' := RoundKeepsBlock(X, d - 1, idx, parents, Parent(i, K), p);
      var q' := RoundKeepsBlock(X, d - 1, idx, parents, Parent(j, K), q);
      HierarchicalOrder(X, dim, K, d - 1, Parent(i, K), Parent(j, K), h, p', q');
    } else {
      ParentBelow(i, K, d);
      ParentBelow(j, K, d);
      DigitsInjective(Parent(i, K), Parent(j, K), K, d - 1);
      DivModLess(i, j, K);
      PrefixMono(BlocksAt(|X|, K, d), i + 1, j);
      RoundSorts(X, d - 1, idx, parents, Parent(i, K), p, q);
    }
  }

  /** Any two final bins are ordered by the first digit in which their numbers differ. */
  lemma BinsOrdered(X: Matrix, dim: nat, K: nat, i: nat, j: nat) returns (h: nat)
    requires K >= 1 && HasColumns(X, dim) && i < j < Pow(K, dim)
    ensures FirstDiffer(i, j, K, dim, h)
    ensures forall p, q :: InBlock(BlocksAt(|X|, K, dim), i, p) && InBlock(BlocksAt(|X|, K, dim), j, q) ==>
              && 0 <= p < |X| && 0 <= q < |X|
              && X[IdxAt(X, dim, K, dim)[p]][h] <= X[IdxAt(X, dim, K, dim)[q]][h]
  {
    hide BlocksAt, IdxAt, Pow, Prefix;
    BinsDiffer(i, j, K, dim);
    h :| FirstDiffer(i, j, K, dim, h);
    forall p, q | InBlock(BlocksAt(|X|, K, dim), i, p) && InBlock(BlocksAt(|X|, K, dim), j, q)
      ensures 0 <= p < |X| && 0 <= q < |X|
      ensures X[IdxAt(X, dim, K, dim)[p]][h] <= X[IdxAt(X, dim, K, dim)[q]][h]
    {
      HierarchicalOrder(X, dim, K, dim, i, j, h, p, q);
    }
  }

  // ----- rank invariance -----

  /** In every column the rows compare the same way in both matrices. */
  ghost predicate SameRanks(X: Matrix, X': Matrix, dim: nat) {
    && |X| == |X'| && HasColumns(X, dim) && HasColumns(X', dim)
    && forall r, s, h :: 0 <= r < |X| && 0 <= s < |X| && 0 <= h < dim ==>
         (X[r][h] < X[s][h] <==> X'[r][h] < X'[s][h])
  }

  lemma {:induction false} SegmentsRankInvariant(
      X: Matrix, X': Matrix, dim: nat, h: nat, idx: seq<int>, blocks: seq<nat>, n: nat)
    requires SameRanks(X, X', dim) && h < dim && Rows(X, h, idx)
    requires n <= |blocks| && Prefix(blocks, n) <= |idx|
    ensures SortFirstSegments(X, h, idx, blocks, n) == SortFirstSegments(X', h, idx, blocks, n)
  {
    if n > 0 {
      SegmentsRankInvariant(X, X', dim, h, idx, blocks, n - 1);
      var sub := SortFirstSegments(X, h, idx, blocks, n - 1)[Prefix(blocks, n - 1)..Prefix(blocks, n)];
      SameRanksSameSort(Column(X, sub, h), Column(X', sub, h));
    }
  }

  lemma RoundRankInvariant(X: Matrix, X': Matrix, dim: nat, K: nat, d: nat)
    requires K >= 1 && 1 <= d <= dim && |X| == |X'|
    requires HasColumns(X, dim) && HasColumns(X', dim) && SameRanks(X, X', dim)
    requires IdxAt(X, dim, K, d - 1) == IdxAt(X', dim, K, d - 1)
    ensures IdxAt(X, dim, K, d) == IdxAt(X', dim, K, d)
  {
    hide *;
    RoundUnfolds(X, dim, K, d);
    RoundUnfolds(X', dim, K, d);
    var blocks := BlocksAt(|X|, K, d - 1);
    SegmentsRankInvariant(X, X', dim, d - 1, IdxAt(X, dim, K, d - 1), blocks, |blocks|);
  }

  /** Only the ranks within each column decide `idx`, in every round. */
  lemma {:induction false} RankInvariance(X: Matrix, X': Matrix, dim: nat, K: nat, d: nat)
    requires K >= 1 && d <= dim && SameRanks(X, X', dim)
    ensures IdxAt(X, dim, K, d) == IdxAt(X', dim, K, d)
  {
    hide BlocksAt, SortFirstSegments;
    if d > 0 {
      RankInvariance(X, X', dim, K, d - 1);
      RoundRankInvariant(X, X', dim, K, d);
    }
  }

  ghost predicate StrictlyIncreasing(f: real -> real) {
    forall a, b :: a < b ==> f(a) < f(b)
  }

  /** X with function fs[h] applied to column h. */
  function MapColumns(X: Matrix, dim: nat, fs: seq<real -> real>): (r: Matrix)
    requires HasColumns(X, dim) && |fs| == dim
    ensures |r| == |X| && HasColumns(r, dim)
    ensures forall i, h :: 0 <= i < |X| && 0 <= h < dim ==> r[i][h] == fs[h](X[i][h])
  {
    seq(|X|, i requires 0 <= i < |X| => seq(dim, h requires 0 <= h < dim => fs[h](X[i][h])))
  }

  lemma MonotoneMapKeepsRanks(X: Matrix, dim: nat, fs: seq<real -> real>)
    requires HasColumns(X, dim) && |fs| == dim
    requires forall h :: 0 <= h < dim ==> StrictlyIncreasing(fs[h])
    ensures SameRanks(X, MapColumns(X, dim, fs), dim)
  {
  }
}
