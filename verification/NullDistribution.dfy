/**
 * The null distribution that shuffling gives depends on the shape of the data alone: for every
 * property of the array of statistics, equally many runs have it on any two data sets of one shape.
 */
module NullDistribution {
  import opened Permutations
  import opened EqualPartition
  import opened PartitionTheorems
  import opened Contingency
  import opened Bootstrap

  /** All lists of n elements of A. */
  ghost function Lists<T(!new)>(A: set<T>, n: nat): set<seq<T>> {
    if n == 0 then {[]} else set s, x | s in Lists(A, n - 1) && x in A :: s + [x]
  }

  lemma {:induction false} InLists<T(!new)>(A: set<T>, n: nat, s: seq<T>)
    ensures s in Lists(A, n) <==> |s| == n && forall i :: 0 <= i < n ==> s[i] in A
  {
    if n > 0 {
      if s in Lists(A, n) {
        var init, x :| init in Lists(A, n - 1) && x in A && s == init + [x];
        InLists(A, n - 1, init);
      }
      if |s| == n && forall i :: 0 <= i < n ==> s[i] in A {
        InLists(A, n - 1, s[..n - 1]);
        assert s == s[..n - 1] + [s[n - 1]];
      }
    }
  }

  ghost function Perms(L: nat): set<seq<int>> {
    set p | p in Lists(ElementsOf(Range(L)), L) && IsPerm(p, L)
  }

  lemma InPerms(L: nat, p: seq<int>)
    ensures p in Perms(L) <==> IsPerm(p, L)
  {
    InLists(ElementsOf(Range(L)), L, p);
    if IsPerm(p, L) {
      PermElements(p, L);
      forall i | 0 <= i < L ensures p[i] in ElementsOf(Range(L)) {
        assert p[i] in ElementsOf(p);
      }
    }
  }

  /** All runs of n shuffles of L samples. */
  ghost function Runs(L: nat, n: nat): set<seq<seq<int>>> {
    Lists(Perms(L), n)
  }

  lemma InRuns(L: nat, n: nat, perms: seq<seq<int>>)
    ensures perms in Runs(L, n) <==> |perms| == n && IsRun(perms, L)
  {
    InLists(Perms(L), n, perms);
    forall t | 0 <= t < |perms| ensures perms[t] in Perms(L) <==> IsPerm(perms[t], L) {
      InPerms(L, perms[t]);
    }
  }

  /** The runs of n shuffles whose array of statistics has the property. */
  ghost function RunsWith(x: Labelling, y: Labelling, a: nat, b: nat, L: nat, n: nat, good: seq<real> -> bool):
      set<seq<seq<int>>>
    requires a > 0 && b > 0 && L > 0 && |y.idx| == L
  {
    set perms | perms in Runs(L, n) && IsRun(perms, L) && good(NullStats(x, y, a, b, L, perms))
  }

  ghost function Transferred(tau: seq<int>, S: set<seq<seq<int>>>, L: nat): set<seq<seq<int>>>
    requires IsPerm(tau, L)
  {
    set perms | perms in S && IsRun(perms, L) :: Transfer(tau, perms, L)
  }

  lemma TransferInjective(tau: seq<int>, r: seq<seq<int>>, r': seq<seq<int>>, L: nat)
    requires IsPerm(tau, L) && IsRun(r, L) && IsRun(r', L) && Transfer(tau, r, L) == Transfer(tau, r', L)
    ensures r == r'
  {
    TransferBijective(tau, r, L);
    TransferBijective(tau, r', L);
  }

  lemma {:induction false} TransferredSize(tau: seq<int>, S: set<seq<seq<int>>>, L: nat)
    requires IsPerm(tau, L) && forall r :: r in S ==> IsRun(r, L)
    ensures |Transferred(tau, S, L)| == |S|
  {
    hide IsPerm, IsRun, Transfer;
    if |S| == 0 {
      assert Transferred(tau, S, L) == {};
    } else {
      var r := Member(S);
      var rest := S - {r};
      TransferredSize(tau, rest, L);
      assert Transferred(tau, S, L) == Transferred(tau, rest, L) + {Transfer(tau, r, L)};
      if Transfer(tau, r, L) in Transferred(tau, rest, L) {
        var r' :| r' in rest && IsRun(r', L) && Transfer(tau, r', L) == Transfer(tau, r, L);
        TransferInjective(tau, r, r', L);
      }
    }
  }

  lemma NoFewerRuns(x1: Labelling, y1: Labelling, x2: Labelling, y2: Labelling, a: nat, b: nat, L: nat, n: nat,
                    good: seq<real> -> bool)
    requires a > 0 && b > 0 && L > 0
    requires IsPerm(x1.idx, L) && IsPerm(y1.idx, L) && IsPerm(x2.idx, L) && IsPerm(y2.idx, L)
    requires x1.offs == x2.offs && y1.offs == y2.offs
    ensures |RunsWith(x1, y1, a, b, L, n, good)| <= |RunsWith(x2, y2, a, b, L, n, good)|
  {
    hide NullStats, Runs, Transfer, Bridge, Injective, IsRun;
    BridgeFacts(x1.idx, y1.idx, x2.idx, y2.idx, L);
    var tau := Bridge(x1.idx, y1.idx, x2.idx, y2.idx, L);
    var S, T := RunsWith(x1, y1, a, b, L, n, good), RunsWith(x2, y2, a, b, L, n, good);
    forall r | r in S && IsRun(r, L) ensures Transfer(tau, r, L) in T {
      InRuns(L, n, r);
      InRuns(L, n, Transfer(tau, r, L));
      SameNullStats(x1, y1, x2, y2, a, b, L, r);
    }
    TransferredSize(tau, S, L);
    SubsetSize(Transferred(tau, S, L), T);
  }

  /**
   * For any two data sets with the same L, dx, dy and q, any number n of shuffles and any property
   * of the array of statistics: equally many runs have it.  With the property that the threshold
   * has a given value, this is the distribution of the threshold.
   */
  lemma NullDistributionByShape(X1: Matrix, Y1: Matrix, X2: Matrix, Y2: Matrix, dx: nat, dy: nat, q: nat, n: nat,
                                good: seq<real> -> bool)
    requires q >= 1 && |X1| == |Y1| == |X2| == |Y2| > 0
    requires HasColumns(X1, dx) && HasColumns(X2, dx) && HasColumns(Y1, dy) && HasColumns(Y2, dy)
    ensures Pow(q, dx) > 0 && Pow(q, dy) > 0 && |Label(Y1, dy, q).idx| == |Label(Y2, dy, q).idx| == |X1|
    ensures |RunsWith(Label(X1, dx, q), Label(Y1, dy, q), Pow(q, dx), Pow(q, dy), |X1|, n, good)|
         == |RunsWith(Label(X2, dx, q), Label(Y2, dy, q), Pow(q, dx), Pow(q, dy), |X2|, n, good)|
  {
    hide Pow, Label, RunsWith, HasColumns, Injective;
    PowPositive(q, dx);
    PowPositive(q, dy);
    LabelShape(X1, X2, dx, q);
    LabelShape(Y1, Y2, dy, q);
    var x1, y1, x2, y2 := Label(X1, dx, q), Label(Y1, dy, q), Label(X2, dx, q), Label(Y2, dy, q);
    NoFewerRuns(x1, y1, x2, y2, Pow(q, dx), Pow(q, dy), |X1|, n, good);
    NoFewerRuns(x2, y2, x1, y1, Pow(q, dx), Pow(q, dy), |X1|, n, good);
  }
}
