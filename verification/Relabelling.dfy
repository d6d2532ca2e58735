/** Renaming the samples of both labellings in the same way changes no count. */
module Relabelling {
  import opened Sums
  import opened Permutations
  import opened Contingency
  import opened L1Test

  /** Sample r gets the new number s[r]. */
  function Relabel(s: seq<int>, l: Labelling): Labelling
    requires forall p :: 0 <= p < |l.idx| ==> 0 <= l.idx[p] < |s|
  {
    Labelling(Pick(s, l.idx), l.offs)
  }

  function Image(s: seq<int>, A: set<int>): set<int> {
    set r | r in A :: At(s, r)
  }

  ghost predicate Below(A: set<int>, n: nat) {
    forall r :: r in A ==> 0 <= r < n
  }

  lemma ImageWithout(s: seq<int>, n: nat, A: set<int>, r: int)
    requires IsPerm(s, n) && Below(A, n) && r in A
    ensures Image(s, A) == Image(s, A - {r}) + {At(s, r)} && At(s, r) !in Image(s, A - {r})
  {
  }

  lemma {:induction false} ImageSize(s: seq<int>, n: nat, A: set<int>)
    requires IsPerm(s, n) && Below(A, n)
    ensures |Image(s, A)| == |A|
  {
    if |A| > 0 {
      var r := Member(A);
      ImageSize(s, n, A - {r});
      ImageWithout(s, n, A, r);
    } else {
      assert Image(s, A) == {};
    }
  }

  lemma ImageIntersection(s: seq<int>, n: nat, A: set<int>, B: set<int>)
    requires IsPerm(s, n) && Below(A, n) && Below(B, n)
    ensures Image(s, A) * Image(s, B) == Image(s, A * B)
  {
  }

  lemma CellOfRelabelled(s: seq<int>, n: nat, l: Labelling, i: int)
    requires IsPerm(s, n) && IsPerm(l.idx, n)
    ensures CellSet(Relabel(s, l), i) == Image(s, CellSet(l, i)) && Below(CellSet(l, i), n)
  {
    var c, c' := Cell(l, i), Cell(Relabel(s, l), i);
    assert |c| == |c'|;
    forall k | 0 <= k < |c| ensures 0 <= c[k] < n && c'[k] == At(s, c[k]) && c'[k] in Image(s, CellSet(l, i)) {
      assert c[k] in CellSet(l, i);
    }
    forall r | r in CellSet(l, i) ensures At(s, r) in CellSet(Relabel(s, l), i) {
      var k := IndexOf(c, r);
      assert c'[k] == At(s, r);
    }
  }

  lemma CountRelabelled(s: seq<int>, n: nat, x: Labelling, y: Labelling, i: int, j: int)
    requires IsPerm(s, n) && IsPerm(x.idx, n) && IsPerm(y.idx, n)
    ensures Count(Relabel(s, x), Relabel(s, y), i, j) == Count(x, y, i, j)
  {
    hide Image, CellSet, Relabel;
    CellOfRelabelled(s, n, x, i);
    CellOfRelabelled(s, n, y, j);
    var A, B := CellSet(x, i), CellSet(y, j);
    ImageIntersection(s, n, A, B);
    ImageSize(s, n, A * B);
  }

  lemma StatisticRelabelled(s: seq<int>, x: Labelling, y: Labelling, a: nat, b: nat, L: nat)
    requires a > 0 && b > 0 && L > 0 && IsPerm(s, L) && IsPerm(x.idx, L) && IsPerm(y.idx, L)
    ensures Statistic(Relabel(s, x), Relabel(s, y), a, b, L) == Statistic(x, y, a, b, L)
  {
    hide Count, Uniform, Sum2, Relabel;
    var dev, dev' := Deviation(x, y, a, b, L), Deviation(Relabel(s, x), Relabel(s, y), a, b, L);
    forall i, j ensures dev(i, j) == dev'(i, j) {
      CountRelabelled(s, L, x, y, i, j);
      DeviationAt(x, y, a, b, L, i, j);
      DeviationAt(Relabel(s, x), Relabel(s, y), a, b, L, i, j);
    }
    Sum2Ext(a, b, dev, dev');
  }
}
