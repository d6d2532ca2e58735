/**
 * The contingency table behind the L1 and likelihood-ratio tests: the samples are put into cells
 * of X and cells of Y, and every pair of cells is counted.
 */
module Contingency {
  import opened Sums
  import opened Permutations
  import opened EqualPartition
  import opened PartitionTheorems

  /** An index vector and the offsets that cut it into cells. */
  datatype Labelling = Labelling(idx: seq<int>, offs: seq<int>)

  /** [cumsum(block)-block(1) sum(block)] */
  function Rebase(block: seq<nat>): (offs: seq<int>)
    requires |block| >= 1
    ensures |offs| == |block| + 1
  {
    seq(|block|, i requires 0 <= i < |block| => Prefix(block, i + 1) - block[0]) + [Prefix(block, |block|)]
  }

  function Label(X: Matrix, dim: nat, q: nat): Labelling
    requires q >= 1 && HasColumns(X, dim)
  {
    BlocksSum(|X|, q, dim);
    PowPositive(q, dim);
    Labelling(IdxAt(X, dim, q, dim), Rebase(BlocksAt(|X|, q, dim)))
  }

  /** idx(offs(i)+1:offs(i+1)), an empty range giving no rows */
  function Cell(l: Labelling, i: int): seq<int> {
    if 0 <= i && i + 1 < |l.offs| && 0 <= l.offs[i] <= l.offs[i + 1] <= |l.idx|
    then l.idx[l.offs[i]..l.offs[i + 1]] else []
  }

  function CellSet(l: Labelling, i: int): set<int> {
    ElementsOf(Cell(l, i))
  }

  /** length(intersect(X cell i, Y cell j)) */
  function Count(x: Labelling, y: Labelling, i: int, j: int): nat {
    |CellSet(x, i) * CellSet(y, j)|
  }

  /** M non-empty cells that cut all L rows. */
  ghost predicate Tiles(l: Labelling, M: nat, L: nat) {
    && IsPerm(l.idx, L)
    && |l.offs| == M + 1 && l.offs[0] == 0 && l.offs[M] == L
    && forall i :: 0 <= i < M ==> l.offs[i] < l.offs[i + 1]
  }

  // ----- the rebased offsets -----

  /** The block sizes rotated by one place. */
  function Rotated(block: seq<nat>, i: int): nat
    requires 0 <= i < |block|
  {
    if i + 1 < |block| then block[i + 1] else block[0]
  }

  lemma RebaseAt(block: seq<nat>, i: nat)
    requires i < |block|
    ensures Rebase(block)[i] == Prefix(block, i) + block[i] - block[0]
    ensures Rebase(block)[|block|] == Prefix(block, |block|)
    ensures Prefix(block, i + 1) == Prefix(block, i) + block[i]
  {
  }

  lemma RebaseStep(block: seq<nat>, i: nat)
    requires i < |block|
    ensures Rebase(block)[i + 1] - Rebase(block)[i] == Rotated(block, i)
  {
  }

  /**
   * The offsets cut 0..N into as many non-empty cells as there are bins, but the first block is
   * counted last: cell i has the size of bin i + 1, and the last cell that of bin 0.  Each cell
   * starts 0 or 1 positions past the start of its bin.
   */
  ghost predicate RebasedCells(block: seq<nat>, N: nat)
    requires |block| >= 1
  {
    var M, offs := |block|, Rebase(block);
    && offs[0] == 0 && offs[M] == N
    && (forall i :: 0 <= i < M ==> offs[i + 1] - offs[i] == Rotated(block, i) >= 1)
    && (forall i :: 0 <= i < M ==> 0 <= offs[i] - Prefix(block, i) <= 1)
  }

  lemma RebaseOfEqualBlocks(block: seq<nat>, N: nat)
    requires AsEqualAsPossible(block, N)
    ensures N >= |block| ==> RebasedCells(block, N)
    ensures (forall i :: 0 <= i <= |block| ==> Rebase(block)[i] == Prefix(block, i)) <==> N % |block| == 0
  {
    hide Rebase, Prefix, Larger;
    var M, offs := |block|, Rebase(block);
    RebaseAt(block, 0);
    forall i | 0 <= i < M
      ensures offs[i] - Prefix(block, i) == block[i] - block[0]
      ensures offs[i + 1] - offs[i] == Rotated(block, i)
    {
      RebaseAt(block, i);
      RebaseStep(block, i);
    }
    NoneLarger(block, N / M, M);
    if N % M != 0 {
      var i :| 0 <= i < M && block[i] > N / M;
      assert offs[i] != Prefix(block, i);
    }
    if N >= M {
      AtLeastOne(N, M);
    }
    PrefixZero(block);
  }

  lemma PrefixZero(block: seq<nat>)
    ensures Prefix(block, 0) == 0
  {
  }

  lemma AtLeastOne(n: nat, m: nat)
    requires 1 <= m <= n
    ensures n / m >= 1
  {
  }

  /** What the offset line does to the bins of `EqualPartition`. */
  lemma RebasedOffsets(N: nat, K: nat, dim: nat)
    requires K >= 1
    ensures |BlocksAt(N, K, dim)| == Pow(K, dim) >= 1
    ensures N >= Pow(K, dim) ==> RebasedCells(BlocksAt(N, K, dim), N)
  {
    hide BlocksAt, Pow, RebasedCells;
    BlocksAsEqualAsPossible(N, K, dim);
    RebaseOfEqualBlocks(BlocksAt(N, K, dim), N);
  }

  /** The cells are the bins exactly when K^dim divides N. */
  lemma CellsAreBinsExactlyWhen(N: nat, K: nat, dim: nat)
    requires K >= 1
    ensures Pow(K, dim) >= 1 && |BlocksAt(N, K, dim)| == Pow(K, dim)
    ensures (forall i :: 0 <= i <= Pow(K, dim) ==> Rebase(BlocksAt(N, K, dim))[i] == Prefix(BlocksAt(N, K, dim), i))
            <==> N % Pow(K, dim) == 0
  {
    hide BlocksAt, Pow, Rebase, Prefix;
    BlocksAsEqualAsPossible(N, K, dim);
    RebaseOfEqualBlocks(BlocksAt(N, K, dim), N);
  }

  lemma {:induction false} NoneLarger(blocks: seq<nat>, m: nat, n: nat)
    requires n <= |blocks|
    ensures Larger(blocks, m, n) == 0 <==> forall j :: 0 <= j < n ==> blocks[j] <= m
  {
    if n > 0 {
      NoneLarger(blocks, m, n - 1);
    }
  }

  lemma LabelTiles(X: Matrix, dim: nat, q: nat)
    requires q >= 1 && HasColumns(X, dim) && |X| >= Pow(q, dim)
    ensures Tiles(Label(X, dim, q), Pow(q, dim), |X|)
    ensures var block, offs := BlocksAt(|X|, q, dim), Label(X, dim, q).offs;
            |block| == Pow(q, dim) && forall i :: 0 <= i < |block| ==>
              && offs[i + 1] - offs[i] == Rotated(block, i)
              && 0 <= offs[i] - Prefix(block, i) <= 1
  {
    hide BlocksAt, IdxAt, Prefix, Pow, Rebase, HasColumns, IsPerm;
    RebasedOffsets(|X|, q, dim);
    IdxIsPerm(X, dim, q, dim);
    var block := BlocksAt(|X|, q, dim);
    forall i | 0 <= i < |block| ensures Rebase(block)[i] < Rebase(block)[i + 1] {
      assert Rotated(block, i) >= 1;
    }
  }

  // ----- counting conserves samples -----

  lemma {:induction false} OffsetsMono(l: Labelling, M: nat, L: nat, i: nat, j: nat)
    requires Tiles(l, M, L) && i <= j <= M
    ensures l.offs[i] <= l.offs[j] && (i < j ==> l.offs[i] < l.offs[j])
  {
    if i < j {
      OffsetsMono(l, M, L, i, j - 1);
    }
  }

  lemma CellFacts(l: Labelling, M: nat, L: nat, i: nat)
    requires Tiles(l, M, L) && i < M
    ensures 0 <= l.offs[i] < l.offs[i + 1] <= L && Cell(l, i) == l.idx[l.offs[i]..l.offs[i + 1]]
    ensures |CellSet(l, i)| == |Cell(l, i)| == l.offs[i + 1] - l.offs[i]
  {
    OffsetsMono(l, M, L, 0, i);
    OffsetsMono(l, M, L, i + 1, M);
    InjectiveSize(Cell(l, i));
  }

  function Hits(A: set<int>, l: Labelling): int -> int {
    j => |A * CellSet(l, j)|
  }

  lemma SplitIntersection(A: set<int>, B: set<int>, C: set<int>)
    requires B !! C
    ensures |A * (B + C)| == |A * B| + |A * C|
  {
    assert A * (B + C) == A * B + A * C;
  }

  lemma CellAppends(l: Labelling, M: nat, L: nat, n: nat)
    requires Tiles(l, M, L) && n < M
    ensures 0 <= l.offs[n] <= l.offs[n + 1] <= L
    ensures ElementsOf(l.idx[..l.offs[n + 1]]) == ElementsOf(l.idx[..l.offs[n]]) + CellSet(l, n)
    ensures ElementsOf(l.idx[..l.offs[n]]) !! CellSet(l, n)
  {
    CellFacts(l, M, L, n);
    var before, cell := l.idx[..l.offs[n]], Cell(l, n);
    assert l.idx[..l.offs[n + 1]] == before + cell;
    forall r | r in ElementsOf(before) ensures r !in ElementsOf(cell) {
    }
  }

  /** Any set of rows is counted once over the first n cells. */
  lemma {:induction false} HitsOfPrefix(A: set<int>, l: Labelling, M: nat, L: nat, n: nat)
    requires Tiles(l, M, L) && n <= M
    ensures 0 <= l.offs[n] <= L && IntSum(n, Hits(A, l)) == |A * ElementsOf(l.idx[..l.offs[n]])|
  {
    hide ElementsOf, Injective, CellSet;
    if n > 0 {
      HitsOfPrefix(A, l, M, L, n - 1);
      CellAppends(l, M, L, n - 1);
      SplitIntersection(A, ElementsOf(l.idx[..l.offs[n - 1]]), CellSet(l, n - 1));
    } else {
      NoElements<int>();
      assert l.idx[..0] == [] && A * {} == {};
      OffsetsMono(l, M, L, 0, M);
    }
  }

  lemma NoElements<T>()
    ensures ElementsOf<T>([]) == {}
  {
  }

  lemma HitsOfAll(A: set<int>, l: Labelling, M: nat, L: nat)
    requires Tiles(l, M, L) && forall r :: r in A ==> 0 <= r < L
    ensures IntSum(M, Hits(A, l)) == |A|
  {
    HitsOfPrefix(A, l, M, L, M);
    assert l.idx[..l.offs[M]] == l.idx;
    forall r | r in A ensures r in ElementsOf(l.idx) {
      PermHits(l.idx, L, r);
    }
    assert A * ElementsOf(l.idx) == A;
  }

  function RowCounts(x: Labelling, y: Labelling, i: int): int -> int {
    j => Count(x, y, i, j)
  }

  function RowTotals(x: Labelling, y: Labelling, b: nat): int -> int {
    i => IntSum(b, RowCounts(x, y, i))
  }

  lemma CountSymmetric(x: Labelling, y: Labelling, i: int, j: int)
    ensures Count(x, y, i, j) == Count(y, x, j, i)
  {
    assert CellSet(x, i) * CellSet(y, j) == CellSet(y, j) * CellSet(x, i);
  }

  /** The counts of X cell i over all Y cells add up to the size of that cell. */
  lemma CountsConserveCell(x: Labelling, y: Labelling, a: nat, b: nat, L: nat, i: nat)
    requires Tiles(x, a, L) && Tiles(y, b, L) && i < a
    ensures IntSum(b, RowCounts(x, y, i)) == |Cell(x, i)| == x.offs[i + 1] - x.offs[i]
  {
    CellFacts(x, a, L, i);
    HitsOfAll(CellSet(x, i), y, b, L);
    IntSumExt(b, RowCounts(x, y, i), Hits(CellSet(x, i), y));
  }

  lemma CellWithin(l: Labelling, i: int)
    ensures ElementsOf(l.idx) * CellSet(l, i) == CellSet(l, i)
  {
  }

  /** And over the whole table they add up to the number of samples. */
  lemma CountsConserveAll(x: Labelling, y: Labelling, a: nat, b: nat, L: nat)
    requires Tiles(x, a, L) && Tiles(y, b, L)
    ensures IntSum(a, RowTotals(x, y, b)) == L
  {
    hide Cell, Count, Injective;
    var all := ElementsOf(x.idx);
    InjectiveSize(x.idx);
    HitsOfAll(all, x, a, L);
    var rows := RowTotals(x, y, b);
    forall i | 0 <= i < a ensures rows(i) == Hits(all, x)(i) {
      CountsConserveCell(x, y, a, b, L, i);
      CellFacts(x, a, L, i);
      CellWithin(x, i);
    }
    IntSumExt(a, rows, Hits(all, x));
  }

  // ----- empirical frequencies -----

  /** Nj/L */
  function Freq(x: Labelling, y: Labelling, L: nat): (int, int) -> real
    requires L > 0
  {
    (i, j) => Count(x, y, i, j) as real / L as real
  }

  /** 1/q^dx/q^dy */
  function Uniform(a: nat, b: nat): real
    requires a > 0 && b > 0
  {
    1.0 / a as real / b as real
  }

  lemma UniformFacts(a: nat, b: nat)
    requires a > 0 && b > 0
    ensures Uniform(a, b) > 0.0 && Uniform(a, b) == Uniform(b, a)
    ensures a as real * (b as real * Uniform(a, b)) == 1.0
  {
  }

  function RealCounts(x: Labelling, y: Labelling): (int, int) -> real {
    (i, j) => Count(x, y, i, j) as real
  }

  lemma RealCountsTotal(x: Labelling, y: Labelling, a: nat, b: nat, L: nat)
    requires Tiles(x, a, L) && Tiles(y, b, L)
    ensures Sum2(a, b, RealCounts(x, y)) == L as real
  {
    hide Tiles, Count;
    CountsConserveAll(x, y, a, b, L);
    forall i | 0 <= i < a ensures RowSums(b, RealCounts(x, y))(i) == RowTotals(x, y, b)(i) as real {
      IntSumAsReal(b, RowCounts(x, y, i), Row(RealCounts(x, y), i));
    }
    IntSumAsReal(a, RowTotals(x, y, b), RowSums(b, RealCounts(x, y)));
  }

  /** The frequencies of the table add up to one. */
  lemma FreqTotal(x: Labelling, y: Labelling, a: nat, b: nat, L: nat)
    requires Tiles(x, a, L) && Tiles(y, b, L) && L > 0
    ensures Sum2(a, b, Freq(x, y, L)) == 1.0
  {
    hide Tiles, Count, Sum2;
    Sum2Scale(a, b, 1.0 / L as real, RealCounts(x, y), Freq(x, y, L));
    RealCountsTotal(x, y, a, b, L);
  }

  lemma UniformTotal(a: nat, b: nat, f: (int, int) -> real)
    requires a > 0 && b > 0 && forall i, j :: 0 <= i < a && 0 <= j < b ==> f(i, j) == Uniform(a, b)
    ensures Sum2(a, b, f) == 1.0
  {
    hide Uniform;
    Sum2Const(a, b, Uniform(a, b), f);
    UniformFacts(a, b);
  }
}
