/** MATLAB's `[v is] = sort(x)` on a real vector: the index output of a stable ascending sort. */
module StableSort {
  import opened Permutations

  /** Row `a` comes before row `b`: smaller key, or equal keys and `a` is first. */
  predicate Before(keys: seq<real>, a: int, b: int)
    requires 0 <= a < |keys| && 0 <= b < |keys|
  {
    keys[a] < keys[b] || (keys[a] == keys[b] && a < b)
  }

  ghost predicate InOrder(keys: seq<real>, p: seq<int>) {
    && (forall i :: 0 <= i < |p| ==> 0 <= p[i] < |keys|)
    && (forall i, j :: 0 <= i < j < |p| ==> Before(keys, p[i], p[j]))
  }

  /** What MATLAB documents of the index output. */
  ghost predicate IsStableSort(keys: seq<real>, p: seq<int>) {
    IsPerm(p, |keys|) && InOrder(keys, p)
  }

  function Insert(keys: seq<real>, x: int, p: seq<int>): (r: seq<int>)
    requires 0 <= x < |keys| && forall i :: 0 <= i < |p| ==> 0 <= p[i] < |keys|
    ensures |r| == |p| + 1
    ensures forall i :: 0 <= i < |r| ==> r[i] == x || r[i] in p
  {
    if p == [] then [x]
    else
      var last := p[|p| - 1];
      if keys[last] <= keys[x] then p + [x] else Insert(keys, x, p[..|p| - 1]) + [last]
  }

  function SortFirst(keys: seq<real>, n: nat): (p: seq<int>)
    requires n <= |keys|
    ensures |p| == n
    ensures forall i :: 0 <= i < |p| ==> 0 <= p[i] < n
  {
    if n == 0 then [] else Insert(keys, n - 1, SortFirst(keys, n - 1))
  }

  function SortIndex(keys: seq<real>): (p: seq<int>)
    ensures |p| == |keys|
    ensures forall i :: 0 <= i < |p| ==> 0 <= p[i] < |keys|
  {
    SortFirst(keys, |keys|)
  }

  lemma InOrderSnoc(keys: seq<real>, p: seq<int>, x: int)
    requires InOrder(keys, p) && 0 <= x < |keys|
    requires forall i :: 0 <= i < |p| ==> Before(keys, p[i], x)
    ensures InOrder(keys, p + [x])
  {
  }

  lemma {:induction false} InsertInOrder(keys: seq<real>, x: int, p: seq<int>)
    requires 0 <= x < |keys| && InOrder(keys, p)
    requires forall i :: 0 <= i < |p| ==> p[i] < x
    ensures InOrder(keys, Insert(keys, x, p))
  {
    if p != [] {
      var init, last := p[..|p| - 1], p[|p| - 1];
      if keys[last] > keys[x] {
        InsertInOrder(keys, x, init);
        var r := Insert(keys, x, init);
        forall i | 0 <= i < |r| ensures Before(keys, r[i], last) {
          assert r[i] == x || r[i] in init;
        }
        InOrderSnoc(keys, r, last);
      } else {
        forall i | 0 <= i < |p| ensures Before(keys, p[i], x) {
          assert i < |p| - 1 ==> Before(keys, p[i], last);
        }
        InOrderSnoc(keys, p, x);
      }
    }
  }

  lemma {:induction false} SortFirstInOrder(keys: seq<real>, n: nat)
    requires n <= |keys|
    ensures InOrder(keys, SortFirst(keys, n))
  {
    hide Insert, Before;
    if n > 0 {
      SortFirstInOrder(keys, n - 1);
      InsertInOrder(keys, n - 1, SortFirst(keys, n - 1));
    }
  }

  lemma SortIndexIsStableSort(keys: seq<real>)
    ensures IsStableSort(keys, SortIndex(keys))
  {
    SortFirstInOrder(keys, |keys|);
  }

  /** Where two stable sorts first differ, the one has its entry before the other's. */
  lemma FirstDifference(keys: seq<real>, p: seq<int>, q: seq<int>, i: nat)
    requires IsStableSort(keys, p) && IsStableSort(keys, q)
    requires i < |keys| && p[..i] == q[..i] && p[i] != q[i]
    ensures Before(keys, q[i], p[i])
  {
    PermHits(q, |keys|, p[i]);
    var a := IndexOf(q, p[i]);
    assert forall k :: 0 <= k < i ==> p[..i][k] == p[k] && q[..i][k] == q[k];
    assert i < a;
  }

  /** Two stable sorts of the same keys agree on the first k places. */
  lemma {:induction false} StableSortUniqueUpTo(keys: seq<real>, p: seq<int>, q: seq<int>, k: nat)
    requires IsStableSort(keys, p) && IsStableSort(keys, q) && k <= |keys|
    ensures p[..k] == q[..k]
  {
    if k > 0 {
      StableSortUniqueUpTo(keys, p, q, k - 1);
      var i := k - 1;
      if p[i] != q[i] {
        FirstDifference(keys, p, q, i);
        FirstDifference(keys, q, p, i);
      }
      assert p[..k] == p[..i] + [p[i]] && q[..k] == q[..i] + [q[i]];
    }
  }

  /** The specification leaves no freedom, so it does not matter how `sort` is implemented. */
  lemma StableSortUnique(keys: seq<real>, p: seq<int>)
    requires IsStableSort(keys, p)
    ensures p == SortIndex(keys)
  {
    SortIndexIsStableSort(keys);
    StableSortUniqueUpTo(keys, p, SortIndex(keys), |keys|);
    assert p[..|keys|] == p && SortIndex(keys)[..|keys|] == SortIndex(keys);
  }

  /** Only the order of the keys matters to `sort`, not their values. */
  lemma SameRanksSameSort(keys: seq<real>, keys': seq<real>)
    requires |keys| == |keys'|
    requires forall a, b :: 0 <= a < |keys| && 0 <= b < |keys| ==> (keys[a] < keys[b] <==> keys'[a] < keys'[b])
    ensures SortIndex(keys) == SortIndex(keys')
  {
    SortIndexIsStableSort(keys);
    var p := SortIndex(keys);
    forall i, j | 0 <= i < j < |p| ensures Before(keys', p[i], p[j]) {
      assert Before(keys, p[i], p[j]);
    }
    StableSortUnique(keys', p);
  }
}
