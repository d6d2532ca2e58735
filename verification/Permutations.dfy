/** Permutations of 0..n-1 as sequences, and sums reindexed by them. */
module Permutations {
  import opened Sums

  ghost predicate Injective<T>(s: seq<T>) {
    forall i, j :: 0 <= i < j < |s| ==> s[i] != s[j]
  }

  /** `p` lists every number below `n` exactly once. */
  ghost predicate IsPerm(p: seq<int>, n: nat) {
    && |p| == n
    && (forall i :: 0 <= i < n ==> 0 <= p[i] < n)
    && Injective(p)
  }

  /** MATLAB's s(p): pick elements of `s` in the order that `p` says. */
  function Pick<T>(s: seq<T>, p: seq<int>): (r: seq<T>)
    requires forall i :: 0 <= i < |p| ==> 0 <= p[i] < |s|
    ensures |r| == |p|
    ensures forall i :: 0 <= i < |p| ==> r[i] == s[p[i]]
  {
    seq(|p|, i requires 0 <= i < |p| => s[p[i]])
  }

  function Range(n: nat): (r: seq<int>)
    ensures IsPerm(r, n) && forall i :: 0 <= i < n ==> r[i] == i
  {
    seq(n, i => i)
  }

  function ElementsOf<T>(s: seq<T>): set<T> {
    set x | x in s
  }

  lemma Member<T>(A: set<T>) returns (x: T)
    requires |A| > 0
    ensures x in A
  {
    x :| x in A;
  }

  lemma {:induction false} InjectiveSize<T>(s: seq<T>)
    requires Injective(s)
    ensures |ElementsOf(s)| == |s|
  {
    if s != [] {
      var init, last := s[..|s| - 1], s[|s| - 1];
      InjectiveSize(init);
      assert s == init + [last];
      assert ElementsOf(s) == ElementsOf(init) + {last};
    }
  }

  lemma SubsetSameSize<T>(a: set<T>, b: set<T>)
    requires a <= b && |a| == |b|
    ensures a == b
  {
    assert b == a + (b - a);
  }

  lemma SubsetSize<T>(A: set<T>, B: set<T>)
    requires A <= B
    ensures |A| <= |B|
  {
    assert B == A + (B - A);
  }

  /** Pigeonhole: an injective list of n numbers below n misses none. */
  lemma PermElements(p: seq<int>, n: nat)
    requires IsPerm(p, n)
    ensures ElementsOf(p) == ElementsOf(Range(n))
  {
    InjectiveSize(p);
    InjectiveSize(Range(n));
    forall x | x in ElementsOf(p) ensures x in ElementsOf(Range(n)) {
      assert Range(n)[x] == x;
    }
    SubsetSameSize(ElementsOf(p), ElementsOf(Range(n)));
  }

  lemma PermHits(p: seq<int>, n: nat, x: int)
    requires IsPerm(p, n) && 0 <= x < n
    ensures x in p
  {
    PermElements(p, n);
    assert Range(n)[x] == x;
    assert x in ElementsOf(p);
  }

  function IndexOf<T(==)>(s: seq<T>, x: T): (i: nat)
    requires x in s
    ensures i < |s| && s[i] == x
  {
    if s[0] == x then 0 else 1 + IndexOf(s[1..], x)
  }

  lemma PickPerm(s: seq<int>, p: seq<int>, n: nat)
    requires IsPerm(s, n) && IsPerm(p, n)
    ensures IsPerm(Pick(s, p), n)
  {
  }

  lemma PickAssoc<T>(s: seq<T>, p: seq<int>, q: seq<int>)
    requires |p| == |s| && forall i :: 0 <= i < |p| ==> 0 <= p[i] < |s|
    requires forall i :: 0 <= i < |q| ==> 0 <= q[i] < |p|
    ensures Pick(Pick(s, p), q) == Pick(s, Pick(p, q))
  {
  }

  /** The permutation that undoes `p`. */
  ghost function Inverse(p: seq<int>, n: nat): (r: seq<int>)
    requires IsPerm(p, n)
    ensures |r| == n
    ensures forall x :: 0 <= x < n ==> 0 <= r[x] < n && p[r[x]] == x
  {
    seq(n, x requires 0 <= x < n => PermHits(p, n, x); IndexOf(p, x))
  }

  lemma InverseLaws(p: seq<int>, n: nat)
    requires IsPerm(p, n)
    ensures IsPerm(Inverse(p, n), n)
    ensures Pick(p, Inverse(p, n)) == Range(n) == Pick(Inverse(p, n), p)
  {
  }

  /** `f` summed over the elements of a list. */
  function SumOver(s: seq<int>, f: int -> real): real {
    if s == [] then 0.0 else SumOver(s[..|s| - 1], f) + f(s[|s| - 1])
  }

  lemma {:induction false} SumOverRemove(s: seq<int>, k: nat, f: int -> real)
    requires k < |s|
    ensures SumOver(s, f) == SumOver(s[..k] + s[k + 1..], f) + f(s[k])
  {
    var rest := s[..k] + s[k + 1..];
    if k == |s| - 1 {
      assert rest == s[..|s| - 1];
    } else {
      var init := s[..|s| - 1];
      SumOverRemove(init, k, f);
      assert init[..k] + init[k + 1..] == rest[..|rest| - 1];
    }
  }

  lemma WithoutTop(p: seq<int>, n: nat, k: nat)
    requires n > 0 && IsPerm(p, n) && k < n && p[k] == n - 1
    ensures IsPerm(p[..k] + p[k + 1..], n - 1)
  {
  }

  lemma {:induction false} SumOverPerm(p: seq<int>, n: nat, f: int -> real)
    requires IsPerm(p, n)
    ensures SumOver(p, f) == Sum(n, f)
  {
    hide Injective, IndexOf;
    if n > 0 {
      PermHits(p, n, n - 1);
      var k := IndexOf(p, n - 1);
      SumOverRemove(p, k, f);
      WithoutTop(p, n, k);
      SumOverPerm(p[..k] + p[k + 1..], n - 1, f);
    }
  }

  /** Total indexing, so that a reindexed summand is a total function. */
  function At(p: seq<int>, i: int): int {
    if 0 <= i < |p| then p[i] else 0
  }

  lemma {:induction false} SumAlong(p: seq<int>, n: nat, f: int -> real, g: int -> real)
    requires n <= |p| && forall i :: 0 <= i < n ==> g(i) == f(p[i])
    ensures Sum(n, g) == SumOver(p[..n], f)
  {
    if n > 0 {
      SumAlong(p, n - 1, f, g);
      assert p[..n][..n - 1] == p[..n - 1] && p[..n][n - 1] == p[n - 1];
    }
  }

  /** A sum does not change when its index runs through a permutation. */
  lemma SumReindex(p: seq<int>, n: nat, f: int -> real, g: int -> real)
    requires IsPerm(p, n) && forall i :: 0 <= i < n ==> g(i) == f(p[i])
    ensures Sum(n, g) == Sum(n, f)
  {
    SumAlong(p, n, f, g);
    assert p[..n] == p;
    SumOverPerm(p, n, f);
  }
}
