/**
 * The bootstrap threshold in terms of the level and the array alone: it is the value that splits
 * the statistics at the share 1 - alpha, to within half a statistic.
 */
module ThresholdRank {
  import opened Permutations
  import opened Bootstrap

  ghost function PlacesBelow(stats: seq<real>, v: real): set<int> {
    set i | 0 <= i < |stats| && stats[i] < v
  }

  ghost function PlacesAtMost(stats: seq<real>, v: real): set<int> {
    set i | 0 <= i < |stats| && stats[i] <= v
  }

  /** The number of statistics that should lie below the threshold, before rounding, less a half. */
  function Cut(stats: seq<real>, alpha: real): real {
    (1.0 - alpha) * |stats| as real - 0.5
  }

  /** One of the statistics; no more than the cut are smaller, and more than the cut are no larger. */
  ghost predicate SplitsAt(stats: seq<real>, v: real, cut: real) {
    v in stats && |PlacesBelow(stats, v)| as real <= cut < |PlacesAtMost(stats, v)| as real
  }

  lemma RankFromCut(stats: seq<real>, alpha: real)
    ensures var k := RankIndex(alpha, |stats|);
            k >= 1 ==> (k - 1) as real <= Cut(stats, alpha) < k as real
    ensures 1 <= RankIndex(alpha, |stats|) <= |stats| <==> 0.0 <= Cut(stats, alpha) < |stats| as real
  {
  }

  lemma ThresholdSplits(stats: seq<real>, alpha: real)
    requires Threshold(stats, alpha).Some?
    ensures SplitsAt(stats, Threshold(stats, alpha).value, Cut(stats, alpha))
  {
    hide RankIndex, Cut, Sorted;
    var v, k := Threshold(stats, alpha).value, RankIndex(alpha, |stats|);
    ThresholdIsOrderStatistic(stats, alpha);
    var p :| IsPerm(p, |stats|)
             && (forall i :: 0 <= i < k ==> stats[p[i]] <= v)
             && (forall i :: k - 1 <= i < |stats| ==> stats[p[i]] >= v)
             && stats[p[k - 1]] == v;
    RankFromCut(stats, alpha);
    InjectiveSize(p[..k]);
    InjectiveSize(p[..k - 1]);
    SubsetSize(ElementsOf(p[..k]), PlacesAtMost(stats, v));
    forall i | i in PlacesBelow(stats, v) ensures i in ElementsOf(p[..k - 1]) {
      PermHits(p, |stats|, i);
      var j := IndexOf(p, i);
      assert p[..k - 1][j] == i;
    }
    SubsetSize(PlacesBelow(stats, v), ElementsOf(p[..k - 1]));
  }

  lemma SplitUnique(stats: seq<real>, v: real, w: real, cut: real)
    requires SplitsAt(stats, v, cut) && SplitsAt(stats, w, cut)
    ensures v == w
  {
    if v < w {
      SubsetSize(PlacesAtMost(stats, v), PlacesBelow(stats, w));
    } else if w < v {
      SubsetSize(PlacesAtMost(stats, w), PlacesBelow(stats, v));
    }
  }

  /** There is a threshold exactly when the cut lies inside the array, and it is the value that splits there. */
  lemma ThresholdExactlyWhen(stats: seq<real>, alpha: real, v: real)
    ensures Threshold(stats, alpha).Some? <==> 0.0 <= Cut(stats, alpha) < |stats| as real
    ensures Threshold(stats, alpha) == Some(v) <==> SplitsAt(stats, v, Cut(stats, alpha))
  {
    hide RankIndex, Cut, Sorted, SplitsAt;
    RankFromCut(stats, alpha);
    if Threshold(stats, alpha).Some? {
      ThresholdSplits(stats, alpha);
      if SplitsAt(stats, v, Cut(stats, alpha)) {
        SplitUnique(stats, v, Threshold(stats, alpha).value, Cut(stats, alpha));
      }
    } else if SplitsAt(stats, v, Cut(stats, alpha)) {
      SplitInside(stats, v, Cut(stats, alpha));
    }
  }

  lemma SplitInside(stats: seq<real>, v: real, cut: real)
    requires SplitsAt(stats, v, cut)
    ensures 0.0 <= cut < |stats| as real
  {
    InjectiveSize(Range(|stats|));
    forall i | i in PlacesAtMost(stats, v) ensures i in ElementsOf(Range(|stats|)) {
      assert Range(|stats|)[i] == i;
    }
    SubsetSize(PlacesAtMost(stats, v), ElementsOf(Range(|stats|)));
  }
}
