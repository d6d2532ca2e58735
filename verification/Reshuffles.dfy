/**
 * What the shuffle loop can reach.  Each pass reorders what the last one left, and still every list
 * of orders of Y comes from exactly one run: the entries of the array of statistics are free of
 * each other.
 */
module Reshuffles {
  import opened Permutations
  import opened EqualPartition
  import opened PartitionTheorems
  import opened Contingency
  import opened L1Test
  import opened Bootstrap

  /** What idxY has to hold before the shuffle that makes it zs[t]. */
  ghost function Previous(idx: seq<int>, zs: seq<seq<int>>, t: nat): seq<int>
    requires t <= |zs|
  {
    if t == 0 then idx else zs[t - 1]
  }

  /** The draws that make idxY equal to zs[0], then zs[1], and so on. */
  ghost function RunFor(idx: seq<int>, zs: seq<seq<int>>): (r: seq<seq<int>>)
    requires IsPerm(idx, |idx|) && IsRun(zs, |idx|)
    ensures |r| == |zs|
  {
    seq(|zs|, t requires 0 <= t < |zs| =>
      var prev := Previous(idx, zs, t);
      InverseLaws(prev, |idx|);
      Pick(Inverse(prev, |idx|), zs[t]))
  }

  lemma RunForStep(idx: seq<int>, zs: seq<seq<int>>, t: nat)
    requires IsPerm(idx, |idx|) && IsRun(zs, |idx|) && t < |zs|
    ensures IsPerm(RunFor(idx, zs)[t], |idx|) && Pick(Previous(idx, zs, t), RunFor(idx, zs)[t]) == zs[t]
  {
    var L, prev := |idx|, Previous(idx, zs, t);
    assert IsPerm(prev, L) && IsPerm(zs[t], L);
    InverseLaws(prev, L);
    PickPerm(Inverse(prev, L), zs[t], L);
    PickAssoc(prev, Inverse(prev, L), zs[t]);
    assert Pick(Range(L), zs[t]) == zs[t];
  }

  lemma PickInjective(s: seq<int>, L: nat, p: seq<int>, p': seq<int>)
    requires IsPerm(s, L) && IsPerm(p, L) && IsPerm(p', L) && Pick(s, p) == Pick(s, p')
    ensures p == p'
  {
    forall i | 0 <= i < L ensures p[i] == p'[i] {
      assert s[p[i]] == Pick(s, p)[i] == s[p'[i]];
    }
  }

  lemma {:induction false} ShuffledByRun(idx: seq<int>, zs: seq<seq<int>>, t: nat)
    requires IsPerm(idx, |idx|) && IsRun(zs, |idx|) && t <= |zs|
    ensures IsRun(RunFor(idx, zs), |idx|)
    ensures Shuffled(idx, RunFor(idx, zs), t) == Previous(idx, zs, t)
  {
    hide RunFor, Injective;
    forall k | 0 <= k < |zs| ensures IsPerm(RunFor(idx, zs)[k], |idx|) {
      RunForStep(idx, zs, k);
    }
    if t > 0 {
      ShuffledByRun(idx, zs, t - 1);
      RunForStep(idx, zs, t - 1);
    }
  }

  /** For every list of orders there is exactly one run that makes idxY take them one after the other. */
  lemma ExactlyOneRun(idx: seq<int>, zs: seq<seq<int>>, perms: seq<seq<int>>)
    requires IsPerm(idx, |idx|) && IsRun(zs, |idx|) && IsRun(perms, |idx|) && |perms| == |zs|
    ensures IsRun(RunFor(idx, zs), |idx|)
    ensures (forall t :: 0 <= t < |zs| ==> Shuffled(idx, perms, t + 1) == zs[t]) <==> perms == RunFor(idx, zs)
  {
    hide RunFor, Injective;
    ShuffledByRun(idx, zs, 0);
    var run := RunFor(idx, zs);
    forall t | 0 <= t < |zs| ensures Shuffled(idx, run, t + 1) == zs[t] {
      ShuffledByRun(idx, zs, t + 1);
    }
    if forall t :: 0 <= t < |zs| ==> Shuffled(idx, perms, t + 1) == zs[t] {
      forall t | 0 <= t < |zs| ensures perms[t] == run[t] {
        RunForStep(idx, zs, t);
        assert t > 0 ==> Shuffled(idx, perms, t - 1 + 1) == zs[t - 1];
        assert Shuffled(idx, perms, t + 1) == Pick(Previous(idx, zs, t), perms[t]);
        PickInjective(Previous(idx, zs, t), |idx|, perms[t], run[t]);
      }
    }
  }

  // ----- the arrays of statistics -----

  /** The statistic of X against some order of the samples in the cells of Y. */
  ghost predicate StatOfSomeOrder(x: Labelling, y: Labelling, a: nat, b: nat, L: nat, v: real)
    requires a > 0 && b > 0 && L > 0
  {
    exists z :: IsPerm(z, L) && v == Statistic(x, Labelling(z, y.offs), a, b, L)
  }

  lemma StatsOfOrders(x: Labelling, y: Labelling, a: nat, b: nat, L: nat, stats: seq<real>)
      returns (perms: seq<seq<int>>)
    requires a > 0 && b > 0 && L > 0 && IsPerm(y.idx, L)
    requires forall t :: 0 <= t < |stats| ==> StatOfSomeOrder(x, y, a, b, L, stats[t])
    ensures IsRun(perms, L) && NullStats(x, y, a, b, L, perms) == stats
  {
    hide Statistic, RunFor, Injective, Shuffled;
    var zs := OrdersFor(x, y, a, b, L, stats, |stats|);
    ShuffledByRun(y.idx, zs, 0);
    perms := RunFor(y.idx, zs);
    forall t | 0 <= t < |stats| ensures NullStats(x, y, a, b, L, perms)[t] == stats[t] {
      ShuffledByRun(y.idx, zs, t + 1);
    }
  }

  lemma {:induction false} OrdersFor(x: Labelling, y: Labelling, a: nat, b: nat, L: nat, stats: seq<real>, n: nat)
      returns (zs: seq<seq<int>>)
    requires a > 0 && b > 0 && L > 0 && n <= |stats|
    requires forall t :: 0 <= t < |stats| ==> StatOfSomeOrder(x, y, a, b, L, stats[t])
    ensures IsRun(zs, L) && |zs| == n
    ensures forall t :: 0 <= t < n ==> stats[t] == Statistic(x, Labelling(zs[t], y.offs), a, b, L)
  {
    hide Statistic, Injective;
    if n == 0 {
      zs := [];
    } else {
      var init := OrdersFor(x, y, a, b, L, stats, n - 1);
      assert StatOfSomeOrder(x, y, a, b, L, stats[n - 1]);
      var z :| IsPerm(z, L) && stats[n - 1] == Statistic(x, Labelling(z, y.offs), a, b, L);
      zs := init + [z];
    }
  }

  /**
   * An array of any length is one that shuffling can leave exactly when each entry, on its own, is
   * the statistic of some order of the samples in the cells of Y.
   */
  lemma ReachableExactlyWhen(X: Matrix, dx: nat, Y: Matrix, dy: nat, q: nat, stats: seq<real>)
    requires q >= 1 && HasColumns(X, dx) && HasColumns(Y, dy) && |X| == |Y| > 0
    ensures Pow(q, dx) > 0 && Pow(q, dy) > 0
    ensures Reachable(X, dx, Y, dy, q, stats) <==>
            forall t :: 0 <= t < |stats| ==>
              StatOfSomeOrder(Label(X, dx, q), Label(Y, dy, q), Pow(q, dx), Pow(q, dy), |X|, stats[t])
  {
    hide Pow, Label, Statistic, HasColumns, Shuffled, Injective;
    PowPositive(q, dx);
    PowPositive(q, dy);
    LabelShape(Y, Y, dy, q);
    var x, y, a, b, L := Label(X, dx, q), Label(Y, dy, q), Pow(q, dx), Pow(q, dy), |X|;
    if Reachable(X, dx, Y, dy, q, stats) {
      var perms :| IsRun(perms, L) && NullStats(x, y, a, b, L, perms) == stats;
      forall t | 0 <= t < |stats| ensures StatOfSomeOrder(x, y, a, b, L, stats[t]) {
        ShuffledPerm(y.idx, perms, t + 1);
        assert stats[t] == Statistic(x, Labelling(Shuffled(y.idx, perms, t + 1), y.offs), a, b, L);
      }
    }
    if forall t :: 0 <= t < |stats| ==> StatOfSomeOrder(x, y, a, b, L, stats[t]) {
      var perms := StatsOfOrders(x, y, a, b, L, stats);
    }
  }
}
