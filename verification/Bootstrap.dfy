/**
 * The bootstrap threshold of the L1 test, and why it may be stored under the shape of the data:
 * the null statistics that shuffling Y can reach do not depend on the data.
 * A run is the list of permutations that `randperm` returned.
 */
module Bootstrap {
  import opened Permutations
  import opened StableSort
  import opened EqualPartition
  import opened PartitionTheorems
  import opened Contingency
  import opened L1Test
  import opened Relabelling

  datatype Option<T> = None | Some(value: T)

  ghost predicate IsRun(perms: seq<seq<int>>, L: nat) {
    forall t :: 0 <= t < |perms| ==> IsPerm(perms[t], L)
  }

  /** idxY after t shuffles; each one reorders what the last one left. */
  ghost function Shuffled(idx: seq<int>, perms: seq<seq<int>>, t: nat): (r: seq<int>)
    requires IsRun(perms, |idx|) && t <= |perms|
    ensures |r| == |idx|
  {
    if t == 0 then idx else Pick(Shuffled(idx, perms, t - 1), perms[t - 1])
  }

  /** l1DistArr after the loop */
  ghost function NullStats(x: Labelling, y: Labelling, a: nat, b: nat, L: nat, perms: seq<seq<int>>): (r: seq<real>)
    requires a > 0 && b > 0 && L > 0 && |y.idx| == L && IsRun(perms, L)
    ensures |r| == |perms|
  {
    seq(|perms|, t requires 0 <= t < |perms| =>
      Statistic(x, Labelling(Shuffled(y.idx, perms, t + 1), y.offs), a, b, L))
  }

  /** MATLAB's round: to the nearest integer, halves away from zero. */
  function RoundHalfAway(v: real): int {
    if v >= 0.0 then (v + 0.5).Floor else -(-v + 0.5).Floor
  }

  /** The nearest integer; a half goes away from zero, and the sign does not matter. */
  lemma RoundIsNearest(v: real)
    ensures -0.5 <= RoundHalfAway(v) as real - v <= 0.5
    ensures RoundHalfAway(v) as real - v == -0.5 ==> v < 0.0
    ensures RoundHalfAway(v) as real - v == 0.5 ==> v >= 0.0
    ensures RoundHalfAway(-v) == -RoundHalfAway(v)
  {
    if v == 0.0 {
      assert (v + 0.5).Floor == 0;
    }
  }

  /** round((1-alpha)*params.shuff) */
  function RankIndex(alpha: real, shuff: nat): int {
    RoundHalfAway((1.0 - alpha) * shuff as real)
  }

  function Sorted(s: seq<real>): (r: seq<real>)
    ensures |r| == |s|
  {
    Pick(s, SortIndex(s))
  }

  /** The order statistic that becomes the threshold; an index outside 1..n is an error. */
  function Threshold(stats: seq<real>, alpha: real): Option<real> {
    var k := RankIndex(alpha, |stats|);
    if 1 <= k <= |stats| then Some(Sorted(stats)[k - 1]) else None
  }

  lemma ThresholdIs(stats: seq<real>, alpha: real)
    ensures var k := RankIndex(alpha, |stats|);
            Threshold(stats, alpha) == if 1 <= k <= |stats| then Some(Sorted(stats)[k - 1]) else None
  {
  }

  /** Below the threshold in sorted order no statistic exceeds it, and none above it is smaller. */
  lemma ThresholdIsOrderStatistic(stats: seq<real>, alpha: real)
    requires Threshold(stats, alpha).Some?
    ensures var v, k := Threshold(stats, alpha).value, RankIndex(alpha, |stats|);
            exists p :: IsPerm(p, |stats|)
              && (forall i :: 0 <= i < k ==> stats[p[i]] <= v)
              && (forall i :: k - 1 <= i < |stats| ==> stats[p[i]] >= v)
              && stats[p[k - 1]] == v
  {
    var v, k := Threshold(stats, alpha).value, RankIndex(alpha, |stats|);
    SortIndexIsStableSort(stats);
    var p := SortIndex(stats);
    assert stats[p[k - 1]] == v;
    forall i | 0 <= i < |stats|
      ensures (i < k ==> stats[p[i]] <= v) && (k - 1 <= i ==> stats[p[i]] >= v)
    {
      assert i < k - 1 ==> Before(stats, p[i], p[k - 1]);
      assert k - 1 < i ==> Before(stats, p[k - 1], p[i]);
    }
  }

  // ----- the program -----

  /** The file name carries the number of samples, the columns of X and the parts per column. */
  datatype FileKey = FileKey(L: nat, dx: nat, q: nat)
  datatype Saved = Saved(thresh: real, l1DistArr: seq<real>)

  /** What a file was computed with although its name does not say so. */
  datatype Origin = Origin(dy: nat, alpha: real)

  class ThresholdFiles {
    var files: map<FileKey, Saved>
    ghost var origin: map<FileKey, Origin>

    constructor ()
      ensures files == map[] && origin == map[]
    {
      files, origin := map[], map[];
    }

    /** The shuffle loop. */
    method Shuffle(x: Labelling, y: Labelling, a: nat, b: nat, perms: seq<seq<int>>) returns (l1DistArr: seq<real>)
      requires a > 0 && b > 0 && |x.idx| == |y.idx| > 0 && IsRun(perms, |y.idx|)
      ensures l1DistArr == NullStats(x, y, a, b, |x.idx|, perms)
    {
      hide Statistic;
      var L := |x.idx|;
      var idxY := y.idx;
      l1DistArr := [];
      for whichSh := 0 to |perms|
        invariant |l1DistArr| == whichSh && idxY == Shuffled(y.idx, perms, whichSh)
        invariant forall t :: 0 <= t < whichSh ==> l1DistArr[t] == NullStats(x, y, a, b, L, perms)[t]
      {
        idxY := Pick(idxY, perms[whichSh]);
        var testStat := Accumulate(x, Labelling(idxY, y.offs), a, b, L);
        l1DistArr := l1DistArr + [testStat];
      }
    }

    method GetBootThresh(x: Labelling, y: Labelling, dx: nat, dy: nat, alpha: real, q: nat, bootForce: bool,
                         perms: seq<seq<int>>)
        returns (thresh: Option<real>)
      requires q >= 1 && |x.idx| == |y.idx| > 0 && IsRun(perms, |y.idx|)
      modifies this
      ensures Pow(q, dx) > 0 && Pow(q, dy) > 0
      ensures var key, stats := FileKey(|x.idx|, dx, q), NullStats(x, y, Pow(q, dx), Pow(q, dy), |x.idx|, perms);
              if key in old(files) && !bootForce then
                thresh == Some(old(files)[key].thresh) && files == old(files) && origin == old(origin)
              else
                && thresh == Threshold(stats, alpha)
                && if thresh.Some? then
                     && files == old(files)[key := Saved(thresh.value, Sorted(stats))]
                     && origin == old(origin)[key := Origin(dy, alpha)]
                   else files == old(files) && origin == old(origin)
    {
      hide *;
      PowPositive(q, dx);
      PowPositive(q, dy);
      var key := FileKey(|x.idx|, dx, q);
      if key !in files || bootForce {
        var l1DistArr := Shuffle(x, y, Pow(q, dx), Pow(q, dy), perms);
        var k := RankIndex(alpha, |perms|);
        ThresholdIs(l1DistArr, alpha);
        assert |l1DistArr| == |perms|;
        l1DistArr := Sorted(l1DistArr);
        if k < 1 || |perms| < k {
          return None;
        }
        thresh := Some(l1DistArr[k - 1]);
        files := files[key := Saved(l1DistArr[k - 1], l1DistArr)];
        origin := origin[key := Origin(dy, alpha)];
      } else {
        thresh := Some(files[key].thresh);
      }
    }
  }

  // ----- the data does not matter, only its shape -----

  /** The renaming that carries one X index vector to the other. */
  ghost function Renaming(x1: seq<int>, x2: seq<int>, L: nat): seq<int>
    requires IsPerm(x1, L) && IsPerm(x2, L)
  {
    Pick(x2, Inverse(x1, L))
  }

  lemma RenamingFacts(x1: seq<int>, x2: seq<int>, L: nat)
    requires IsPerm(x1, L) && IsPerm(x2, L)
    ensures IsPerm(Renaming(x1, x2, L), L) && Pick(Renaming(x1, x2, L), x1) == x2
  {
  }

  /** The reordering of the second Y index vector that makes it the renamed first one. */
  ghost function Bridge(x1: seq<int>, y1: seq<int>, x2: seq<int>, y2: seq<int>, L: nat): seq<int>
    requires IsPerm(x1, L) && IsPerm(y1, L) && IsPerm(x2, L) && IsPerm(y2, L)
  {
    RenamingFacts(x1, x2, L);
    InverseLaws(y2, L);
    Pick(Inverse(y2, L), Pick(Renaming(x1, x2, L), y1))
  }

  lemma BridgeFacts(x1: seq<int>, y1: seq<int>, x2: seq<int>, y2: seq<int>, L: nat)
    requires IsPerm(x1, L) && IsPerm(y1, L) && IsPerm(x2, L) && IsPerm(y2, L)
    ensures var s, tau := Renaming(x1, x2, L), Bridge(x1, y1, x2, y2, L);
            IsPerm(tau, L) && IsPerm(s, L) && Pick(y2, tau) == Pick(s, y1)
  {
  }

  /** A run on the first data set turned into one on the second: only the first shuffle changes. */
  ghost function Transfer(tau: seq<int>, perms: seq<seq<int>>, L: nat): (r: seq<seq<int>>)
    requires IsPerm(tau, L) && IsRun(perms, L)
    ensures |r| == |perms| && IsRun(r, L)
  {
    if perms == [] then [] else
      PickPerm(tau, perms[0], L);
      [Pick(tau, perms[0])] + perms[1..]
  }

  /** Transferring is a bijection on runs: the inverse permutation undoes it, on either side. */
  lemma TransferBijective(tau: seq<int>, perms: seq<seq<int>>, L: nat)
    requires IsPerm(tau, L) && IsRun(perms, L)
    ensures IsPerm(Inverse(tau, L), L)
    ensures Transfer(Inverse(tau, L), Transfer(tau, perms, L), L) == perms
    ensures Transfer(tau, Transfer(Inverse(tau, L), perms, L), L) == perms
  {
    InverseLaws(tau, L);
    if perms != [] {
      var p, inv := perms[0], Inverse(tau, L);
      PickAssoc(inv, tau, p);
      PickAssoc(tau, inv, p);
      assert Pick(Range(L), p) == p;
    }
  }

  lemma {:induction false} ShuffledPerm(idx: seq<int>, perms: seq<seq<int>>, t: nat)
    requires IsPerm(idx, |idx|) && IsRun(perms, |idx|) && t <= |perms|
    ensures IsPerm(Shuffled(idx, perms, t), |idx|)
  {
    if t > 0 {
      ShuffledPerm(idx, perms, t - 1);
      PickPerm(Shuffled(idx, perms, t - 1), perms[t - 1], |idx|);
    }
  }

  /** Every statistic that shuffling reaches lies in [0, 2), and so does every threshold. */
  lemma NullStatsBounded(x: Labelling, y: Labelling, a: nat, b: nat, L: nat, perms: seq<seq<int>>, alpha: real)
    requires a > 0 && b > 0 && L > 0 && Tiles(x, a, L) && Tiles(y, b, L) && IsRun(perms, L)
    ensures forall t :: 0 <= t < |perms| ==> 0.0 <= NullStats(x, y, a, b, L, perms)[t] < 2.0
    ensures var thresh := Threshold(NullStats(x, y, a, b, L, perms), alpha); thresh.Some? ==> 0.0 <= thresh.value < 2.0
  {
    hide Statistic, Shuffled, RankIndex, SortIndex;
    var stats := NullStats(x, y, a, b, L, perms);
    forall t | 0 <= t < |perms| ensures 0.0 <= stats[t] < 2.0 {
      ShuffledPerm(y.idx, perms, t + 1);
      StatisticBounds(x, Labelling(Shuffled(y.idx, perms, t + 1), y.offs), a, b, L);
    }
  }

  /** From the first shuffle on, the second run holds the renamed indices of the first. */
  lemma {:induction false} RunsStayRenamed(
      s: seq<int>, tau: seq<int>, y1: seq<int>, y2: seq<int>, perms: seq<seq<int>>, t: nat)
    requires var L := |y1|; IsPerm(s, L) && IsPerm(tau, L) && IsPerm(y1, L) && IsPerm(y2, L) && IsRun(perms, L)
    requires Pick(y2, tau) == Pick(s, y1) && 1 <= t <= |perms|
    ensures IsPerm(Shuffled(y1, perms, t), |y1|)
    ensures Shuffled(y2, Transfer(tau, perms, |y1|), t) == Pick(s, Shuffled(y1, perms, t))
  {
    ShuffledPerm(y1, perms, t);
    ShuffledPerm(y1, perms, t - 1);
    var prev, p := Shuffled(y1, perms, t - 1), perms[t - 1];
    PickAssoc(s, prev, p);
    if t == 1 {
      PickAssoc(y2, tau, p);
      assert Shuffled(y2, Transfer(tau, perms, |y1|), 1) == Pick(y2, Pick(tau, p));
    } else {
      RunsStayRenamed(s, tau, y1, y2, perms, t - 1);
      assert Transfer(tau, perms, |y1|)[t - 1] == p;
    }
  }

  lemma SameStatAt(x1: Labelling, y1: Labelling, x2: Labelling, y2: Labelling, a: nat, b: nat, L: nat,
                   perms: seq<seq<int>>, t: nat)
    requires a > 0 && b > 0 && L > 0 && IsRun(perms, L) && 1 <= t <= |perms|
    requires IsPerm(x1.idx, L) && IsPerm(y1.idx, L) && IsPerm(x2.idx, L) && IsPerm(y2.idx, L)
    requires x1.offs == x2.offs && y1.offs == y2.offs
    ensures var tau := Bridge(x1.idx, y1.idx, x2.idx, y2.idx, L);
            && IsPerm(tau, L)
            && Statistic(x2, Labelling(Shuffled(y2.idx, Transfer(tau, perms, L), t), y2.offs), a, b, L)
               == Statistic(x1, Labelling(Shuffled(y1.idx, perms, t), y1.offs), a, b, L)
  {
    hide Statistic, Bridge, Transfer, Shuffled, Renaming;
    BridgeFacts(x1.idx, y1.idx, x2.idx, y2.idx, L);
    RenamingFacts(x1.idx, x2.idx, L);
    var s, tau := Renaming(x1.idx, x2.idx, L), Bridge(x1.idx, y1.idx, x2.idx, y2.idx, L);
    RunsStayRenamed(s, tau, y1.idx, y2.idx, perms, t);
    var y' := Labelling(Shuffled(y1.idx, perms, t), y1.offs);
    StatisticRelabelled(s, x1, y', a, b, L);
    assert Relabel(s, x1) == x2;
    assert Relabel(s, y') == Labelling(Shuffled(y2.idx, Transfer(tau, perms, L), t), y2.offs);
  }

  /** The transferred run fills l1DistArr with exactly the same statistics. */
  lemma SameNullStats(x1: Labelling, y1: Labelling, x2: Labelling, y2: Labelling, a: nat, b: nat, L: nat,
                      perms: seq<seq<int>>)
    requires a > 0 && b > 0 && L > 0 && IsRun(perms, L)
    requires IsPerm(x1.idx, L) && IsPerm(y1.idx, L) && IsPerm(x2.idx, L) && IsPerm(y2.idx, L)
    requires x1.offs == x2.offs && y1.offs == y2.offs
    ensures var tau := Bridge(x1.idx, y1.idx, x2.idx, y2.idx, L);
            IsPerm(tau, L) && NullStats(x2, y2, a, b, L, Transfer(tau, perms, L)) == NullStats(x1, y1, a, b, L, perms)
  {
    hide Statistic, Bridge, Transfer, Shuffled, Injective;
    BridgeFacts(x1.idx, y1.idx, x2.idx, y2.idx, L);
    var tau := Bridge(x1.idx, y1.idx, x2.idx, y2.idx, L);
    var n1, n2 := NullStats(x1, y1, a, b, L, perms), NullStats(x2, y2, a, b, L, Transfer(tau, perms, L));
    forall t | 0 <= t < |perms| ensures n1[t] == n2[t] {
      SameStatAt(x1, y1, x2, y2, a, b, L, perms, t + 1);
    }
  }

  /** Some run of n shuffles on these samples fills l1DistArr with `stats`. */
  ghost predicate Reachable(X: Matrix, dx: nat, Y: Matrix, dy: nat, q: nat, stats: seq<real>)
    requires q >= 1 && HasColumns(X, dx) && HasColumns(Y, dy) && |X| == |Y| > 0
  {
    PowPositive(q, dx);
    PowPositive(q, dy);
    exists perms :: IsRun(perms, |X|) && |Label(Y, dy, q).idx| == |X|
      && NullStats(Label(X, dx, q), Label(Y, dy, q), Pow(q, dx), Pow(q, dy), |X|, perms) == stats
  }

  /** What is reachable from one data set is reachable from every other of the same shape. */
  lemma ReachableByShape(X1: Matrix, Y1: Matrix, X2: Matrix, Y2: Matrix, dx: nat, dy: nat, q: nat, stats: seq<real>)
    requires q >= 1 && |X1| == |Y1| == |X2| == |Y2| > 0
    requires HasColumns(X1, dx) && HasColumns(X2, dx) && HasColumns(Y1, dy) && HasColumns(Y2, dy)
    ensures Reachable(X1, dx, Y1, dy, q, stats) <==> Reachable(X2, dx, Y2, dy, q, stats)
  {
    hide Reachable;
    if Reachable(X1, dx, Y1, dy, q, stats) {
      ReachableTransfers(X1, Y1, X2, Y2, dx, dy, q, stats);
    }
    if Reachable(X2, dx, Y2, dy, q, stats) {
      ReachableTransfers(X2, Y2, X1, Y1, dx, dy, q, stats);
    }
  }

  lemma ReachableTransfers(X1: Matrix, Y1: Matrix, X2: Matrix, Y2: Matrix, dx: nat, dy: nat, q: nat, stats: seq<real>)
    requires q >= 1 && |X1| == |Y1| == |X2| == |Y2| > 0
    requires HasColumns(X1, dx) && HasColumns(X2, dx) && HasColumns(Y1, dy) && HasColumns(Y2, dy)
    requires Reachable(X1, dx, Y1, dy, q, stats)
    ensures Reachable(X2, dx, Y2, dy, q, stats)
  {
    hide Pow, Label, NullStats, HasColumns, Transfer, Bridge;
    PowPositive(q, dx);
    PowPositive(q, dy);
    LabelShape(X1, X2, dx, q);
    LabelShape(Y1, Y2, dy, q);
    var x1, y1, x2, y2 := Label(X1, dx, q), Label(Y1, dy, q), Label(X2, dx, q), Label(Y2, dy, q);
    var L, a, b := |X1|, Pow(q, dx), Pow(q, dy);
    var perms :| IsRun(perms, L) && NullStats(x1, y1, a, b, L, perms) == stats;
    SameNullStats(x1, y1, x2, y2, a, b, L, perms);
    var perms' := Transfer(Bridge(x1.idx, y1.idx, x2.idx, y2.idx, L), perms, L);
    assert NullStats(x2, y2, a, b, L, perms') == stats;
  }

  lemma LabelShape(X: Matrix, X': Matrix, dim: nat, q: nat)
    requires q >= 1 && HasColumns(X, dim) && HasColumns(X', dim) && |X| == |X'|
    ensures Label(X, dim, q).offs == Label(X', dim, q).offs
    ensures IsPerm(Label(X, dim, q).idx, |X|) && IsPerm(Label(X', dim, q).idx, |X|)
  {
    hide IdxAt, BlocksAt, Rebase, HasColumns;
    IdxIsPerm(X, dim, q, dim);
    IdxIsPerm(X', dim, q, dim);
  }

  // ----- every stored threshold is one that a fresh bootstrap on the data at hand could give -----

  ghost predicate FitsData(X: Matrix, dx: nat, Y: Matrix, dy: nat, q: nat, alpha: real, saved: Saved)
    requires q >= 1 && HasColumns(X, dx) && HasColumns(Y, dy) && |X| == |Y| > 0
  {
    exists stats :: Reachable(X, dx, Y, dy, q, stats)
      && Threshold(stats, alpha) == Some(saved.thresh) && saved.l1DistArr == Sorted(stats)
  }

  /** The file fits every data set of its shape at this level. */
  ghost predicate Justified(key: FileKey, saved: Saved, dy: nat, alpha: real) {
    && key.q >= 1 && key.L > 0
    && forall X, Y :: HasColumns(X, key.dx) && HasColumns(Y, dy) && |X| == key.L && |Y| == key.L ==>
         FitsData(X, key.dx, Y, dy, key.q, alpha, saved)
  }

  /** Every file fits all data sets of its shape, at the level and with the Y columns it was computed with. */
  ghost predicate AllJustified(files: map<FileKey, Saved>, origin: map<FileKey, Origin>) {
    forall key :: key in files ==> key in origin && Justified(key, files[key], origin[key].dy, origin[key].alpha)
  }

  /** Fitting one data set is fitting all of its shape. */
  lemma FitsOneFitsAll(X: Matrix, dx: nat, Y: Matrix, dy: nat, q: nat, alpha: real, saved: Saved)
    requires q >= 1 && HasColumns(X, dx) && HasColumns(Y, dy) && |X| == |Y| > 0
    requires FitsData(X, dx, Y, dy, q, alpha, saved)
    ensures Justified(FileKey(|X|, dx, q), saved, dy, alpha)
  {
    hide Reachable, Threshold, Sorted, HasColumns;
    var stats :| Reachable(X, dx, Y, dy, q, stats)
                 && Threshold(stats, alpha) == Some(saved.thresh) && saved.l1DistArr == Sorted(stats);
    forall X', Y' | HasColumns(X', dx) && HasColumns(Y', dy) && |X'| == |X| && |Y'| == |X|
      ensures FitsData(X', dx, Y', dy, q, alpha, saved)
    {
      ReachableByShape(X, Y, X', Y', dx, dy, q, stats);
    }
  }

  lemma RunReaches(X: Matrix, dx: nat, Y: Matrix, dy: nat, q: nat, perms: seq<seq<int>>)
    requires q >= 1 && HasColumns(X, dx) && HasColumns(Y, dy) && |X| == |Y| > 0 && IsRun(perms, |X|)
    requires Pow(q, dx) > 0 && Pow(q, dy) > 0 && |Label(Y, dy, q).idx| == |X|
    ensures Reachable(X, dx, Y, dy, q, NullStats(Label(X, dx, q), Label(Y, dy, q), Pow(q, dx), Pow(q, dy), |X|, perms))
  {
    hide Label, NullStats, Pow, HasColumns;
  }

  datatype BootOutcome = Tested(thresh: real, testStat: real) | PartitionFailed | IndexError

  /**
   * The bootstrap form of the test, for any history of the files.  Its threshold, just computed or
   * loaded, is one that shuffling any data of its L, dx and q gives, at the level and with the number
   * of Y columns of the last computation under that name.  When those are the ones asked for, it is
   * one that some run of shuffles of this very data gives.
   */
  method L1TestBoot(store: ThresholdFiles, X: Matrix, dx: nat, Y: Matrix, dy: nat, alpha: real, q: nat,
                    bootForce: bool, perms: seq<seq<int>>)
      returns (r: BootOutcome)
    requires q >= 1 && HasColumns(X, dx) && HasColumns(Y, dy) && |X| == |Y| && IsRun(perms, |X|)
    requires AllJustified(store.files, store.origin)
    modifies store
    ensures AllJustified(store.files, store.origin)
    ensures r.PartitionFailed? <==> !Computable(|X|, dx, dy, q)
    ensures r.IndexError? <==>
              && Computable(|X|, dx, dy, q)
              && (FileKey(|X|, dx, q) !in old(store.files) || bootForce)
              && !(1 <= RankIndex(alpha, |perms|) <= |perms|)
    ensures r.Tested? ==>
              var key := FileKey(|X|, dx, q);
              && |X| > 0 && r.testStat == L1Of(X, dx, Y, dy, q)
              && key in store.files && key in store.origin && r.thresh == store.files[key].thresh
              && (key !in old(store.files) || bootForce ==> store.origin[key] == Origin(dy, alpha))
              && (store.origin[key] == Origin(dy, alpha) ==>
                    exists stats :: Reachable(X, dx, Y, dy, q, stats) && Threshold(stats, alpha) == Some(r.thresh))
  {
    hide Pow, Label, Statistic, NullStats, RankIndex, Reachable, Sorted;
    var okX, x := LabelSamples(X, dx, q);
    var okY, y := LabelSamples(Y, dy, q);
    if !okX || !okY {
      return PartitionFailed;
    }
    LabelSize(X, dx, q);
    LabelSize(Y, dy, q);
    PowPositive(q, dx);
    PowPositive(q, dy);
    var testStat := Accumulate(x, y, Pow(q, dx), Pow(q, dy), |X|);
    var thresh := store.GetBootThresh(x, y, dx, dy, alpha, q, bootForce, perms);
    ghost var key := FileKey(|X|, dx, q);
    if thresh.None? {
      return IndexError;
    }
    if !(key in old(store.files) && !bootForce) {
      ghost var stats := NullStats(x, y, Pow(q, dx), Pow(q, dy), |X|, perms);
      RunReaches(X, dx, Y, dy, q, perms);
      FitsOneFitsAll(X, dx, Y, dy, q, alpha, Saved(thresh.value, Sorted(stats)));
    }
    ghost var o := store.origin[key];
    assert Justified(key, store.files[key], o.dy, o.alpha);
    assert o == Origin(dy, alpha) ==> FitsData(X, dx, Y, dy, q, alpha, store.files[key]);
    r := Tested(thresh.value, testStat);
  }

  lemma LabelSize(X: Matrix, dim: nat, q: nat)
    requires q >= 1 && HasColumns(X, dim)
    ensures |Label(X, dim, q).idx| == |X|
  {
  }
}
