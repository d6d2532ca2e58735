/** select_same_time: the means of two series on the dates that both have. */
module DateJoin {
  import opened MonthlyBuckets

  /** Insert a date into an ascending list unless it is there. */
  function InsertKey(s: seq<int>, key: int): seq<int> {
    if s == [] || s[|s| - 1] < key then s + [key]
    else if s[|s| - 1] == key then s
    else InsertKey(s[..|s| - 1], key) + [s[|s| - 1]]
  }

  /** MATLAB's intersect: the common values, ascending and without repetition. */
  function Intersect(a: seq<int>, b: seq<int>): seq<int> {
    if a == [] then [] else
      var rest := Intersect(a[..|a| - 1], b);
      if a[|a| - 1] in b then InsertKey(rest, a[|a| - 1]) else rest
  }

  lemma {:induction false} InsertKeyFacts(s: seq<int>, key: int)
    requires StrictlyUp(s)
    ensures StrictlyUp(InsertKey(s, key))
    ensures forall x :: x in InsertKey(s, key) <==> x in s || x == key
  {
    if !(s == [] || s[|s| - 1] <= key) {
      var init, last := s[..|s| - 1], s[|s| - 1];
      InsertKeyFacts(init, key);
      var r := InsertKey(init, key);
      assert s == init + [last];
      forall i | 0 <= i < |r| ensures r[i] < last {
        assert r[i] in r;
      }
    }
  }

  lemma {:induction false} IntersectFacts(a: seq<int>, b: seq<int>)
    ensures StrictlyUp(Intersect(a, b))
    ensures forall x :: x in Intersect(a, b) <==> x in a && x in b
  {
    if a != [] {
      IntersectFacts(a[..|a| - 1], b);
      InsertKeyFacts(Intersect(a[..|a| - 1], b), a[|a| - 1]);
      assert a == a[..|a| - 1] + [a[|a| - 1]];
    }
  }

  /** MATLAB's find(s == key) */
  function Find(s: seq<int>, key: int): seq<nat> {
    if s == [] then [] else
      Find(s[..|s| - 1], key) + if s[|s| - 1] == key then [|s| - 1] else []
  }

  lemma {:induction false} FindFacts(s: seq<int>, key: int)
    ensures forall i :: i in Find(s, key) <==> 0 <= i < |s| && s[i] == key
    ensures forall i, j :: 0 <= i < j < |Find(s, key)| ==> Find(s, key)[i] < Find(s, key)[j]
    ensures forall i :: 0 <= i < |Find(s, key)| ==> Find(s, key)[i] < |s|
  {
    if s != [] {
      var n := |s| - 1;
      FindFacts(s[..n], key);
      var f := Find(s[..n], key);
      assert Find(s, key) == if s[n] == key then f + [n] else f;
      forall i ensures i in Find(s, key) <==> 0 <= i < |s| && s[i] == key {
        assert i in f <==> 0 <= i < n && s[..n][i] == key;
      }
    }
  }

  /** The date occurs exactly once. */
  ghost predicate Once(s: seq<int>, key: int) {
    exists i :: 0 <= i < |s| && s[i] == key && forall j :: 0 <= j < |s| && s[j] == key ==> j == i
  }

  lemma TwoFound(s: seq<int>, key: int)
    ensures var f := Find(s, key); |f| >= 2 ==> f[0] < f[1] < |s| && s[f[0]] == key && s[f[1]] == key
  {
    FindFacts(s, key);
    var f := Find(s, key);
    if |f| >= 2 {
      assert f[0] in f && f[1] in f;
    }
  }

  lemma FindOnce(s: seq<int>, key: int)
    ensures |Find(s, key)| == 1 <==> Once(s, key)
    ensures |Find(s, key)| == 1 ==> Find(s, key)[0] < |s| && s[Find(s, key)[0]] == key
  {
    FindFacts(s, key);
    TwoFound(s, key);
    var f := Find(s, key);
    if |f| == 1 {
      assert f[0] in f;
      forall j | 0 <= j < |s| && s[j] == key ensures j == f[0] {
        assert j in f;
      }
    }
    if Once(s, key) {
      var i :| 0 <= i < |s| && s[i] == key && forall j :: 0 <= j < |s| && s[j] == key ==> j == i;
      assert i in f;
    }
  }

  datatype Column = Column(mean1: real, mean2: real)

  /** The two means on this date. */
  ghost predicate ColumnAt(p1: seq<Param>, p2: seq<Param>, key: int, col: Column) {
    exists i, j :: 0 <= i < |p1| && 0 <= j < |p2| && ParamKey(p1[i]) == key && ParamKey(p2[j]) == key
      && col == Column(p1[i].mean, p2[j].mean)
  }

  /**
   * The program for any two series.  With no common date its output is never assigned; a date that
   * occurs twice in a series gives several values for one place of the output.
   */
  method SelectSameTime(p1: seq<Param>, p2: seq<Param>) returns (r: Result<seq<Column>>)
    ensures var common := Intersect(Keys(p1), Keys(p2));
            && (common == [] ==> r == Err(UndefinedOutput))
            && (common != [] ==>
                  (r.Ok? <==> forall k :: 0 <= k < |common| ==>
                                Once(Keys(p1), common[k]) && Once(Keys(p2), common[k])))
            && (r.Ok? ==>
                  && |r.value| == |common|
                  && forall k :: 0 <= k < |common| ==> ColumnAt(p1, p2, common[k], r.value[k]))
  {
    hide Once, Find, Intersect;
    var commonTimes := Intersect(Keys(p1), Keys(p2));
    if commonTimes == [] {
      return Err(UndefinedOutput);
    }
    var output: seq<Column> := [];
    for indexTime := 0 to |commonTimes|
      invariant |output| == indexTime
      invariant forall k :: 0 <= k < indexTime ==>
                  && Once(Keys(p1), commonTimes[k]) && Once(Keys(p2), commonTimes[k])
                  && ColumnAt(p1, p2, commonTimes[k], output[k])
    {
      var key := commonTimes[indexTime];
      var index1 := Find(Keys(p1), key);
      var index2 := Find(Keys(p2), key);
      FindOnce(Keys(p1), key);
      FindOnce(Keys(p2), key);
      if |index1| != 1 || |index2| != 1 {
        return Err(AssignmentMismatch);
      }
      output := output + [Column(p1[index1[0]].mean, p2[index2[0]].mean)];
      assert ColumnAt(p1, p2, key, output[indexTime]);
    }
    r := Ok(output);
  }

  // ----- on monthly series it is the inner join -----

  datatype Joined = Joined(key: int, col: Column)

  /** The textbook merge join of two date-ordered series. */
  function MergeJoin(p1: seq<Param>, p2: seq<Param>): seq<Joined>
    decreases |p1| + |p2|
  {
    if p1 == [] || p2 == [] then []
    else if ParamKey(p1[0]) < ParamKey(p2[0]) then MergeJoin(p1[1..], p2)
    else if ParamKey(p1[0]) > ParamKey(p2[0]) then MergeJoin(p1, p2[1..])
    else [Joined(ParamKey(p1[0]), Column(p1[0].mean, p2[0].mean))] + MergeJoin(p1[1..], p2[1..])
  }

  function JoinKeys(js: seq<Joined>): (r: seq<int>)
    ensures |r| == |js| && forall k :: 0 <= k < |js| ==> r[k] == js[k].key
  {
    seq(|js|, k requires 0 <= k < |js| => js[k].key)
  }

  function Columns(js: seq<Joined>): (r: seq<Column>)
    ensures |r| == |js| && forall k :: 0 <= k < |js| ==> r[k] == js[k].col
  {
    seq(|js|, k requires 0 <= k < |js| => js[k].col)
  }

  lemma KeysTail(p: seq<Param>)
    requires p != []
    ensures Keys(p[1..]) == Keys(p)[1..] && Keys(p) == [ParamKey(p[0])] + Keys(p[1..])
    ensures StrictlyUp(Keys(p)) ==> StrictlyUp(Keys(p[1..])) && forall x :: x in Keys(p[1..]) ==> ParamKey(p[0]) < x
  {
  }

  lemma {:induction false} MergeJoinKeys(p1: seq<Param>, p2: seq<Param>)
    requires StrictlyUp(Keys(p1)) && StrictlyUp(Keys(p2))
    ensures StrictlyUp(JoinKeys(MergeJoin(p1, p2)))
    ensures forall x :: x in JoinKeys(MergeJoin(p1, p2)) <==> x in Keys(p1) && x in Keys(p2)
    decreases |p1| + |p2|
  {
    hide StrictlyUp, ParamKey;
    if p1 == [] || p2 == [] {
      NoKeys();
    } else {
      KeysTail(p1);
      KeysTail(p2);
      var a, b := ParamKey(p1[0]), ParamKey(p2[0]);
      if a < b {
        MergeJoinKeys(p1[1..], p2);
      } else if a > b {
        MergeJoinKeys(p1, p2[1..]);
      } else {
        MergeJoinKeys(p1[1..], p2[1..]);
        var rest := MergeJoin(p1[1..], p2[1..]);
        assert JoinKeys(MergeJoin(p1, p2)) == [a] + JoinKeys(rest);
        UpCons(a, JoinKeys(rest));
      }
    }
  }

  lemma NoKeys()
    ensures Keys([]) == [] && JoinKeys([]) == [] && StrictlyUp([])
  {
  }

  lemma UpCons(x: int, s: seq<int>)
    requires StrictlyUp(s) && forall y :: y in s ==> x < y
    ensures StrictlyUp([x] + s)
  {
    assert forall j :: 0 <= j < |s| ==> s[j] in s;
  }

  lemma {:induction false} MergeJoinColumns(p1: seq<Param>, p2: seq<Param>, k: nat)
    requires k < |MergeJoin(p1, p2)|
    ensures ColumnAt(p1, p2, MergeJoin(p1, p2)[k].key, MergeJoin(p1, p2)[k].col)
    decreases |p1| + |p2|
  {
    var a, b := ParamKey(p1[0]), ParamKey(p2[0]);
    if a < b {
      MergeJoinColumns(p1[1..], p2, k);
      LiftColumn(p1, p2, 1, 0, MergeJoin(p1, p2)[k].key, MergeJoin(p1, p2)[k].col);
    } else if a > b {
      MergeJoinColumns(p1, p2[1..], k);
      LiftColumn(p1, p2, 0, 1, MergeJoin(p1, p2)[k].key, MergeJoin(p1, p2)[k].col);
    } else if k > 0 {
      MergeJoinColumns(p1[1..], p2[1..], k - 1);
      LiftColumn(p1, p2, 1, 1, MergeJoin(p1, p2)[k].key, MergeJoin(p1, p2)[k].col);
    }
  }

  lemma LiftColumn(p1: seq<Param>, p2: seq<Param>, m: nat, n: nat, key: int, col: Column)
    requires m <= |p1| && n <= |p2| && ColumnAt(p1[m..], p2[n..], key, col)
    ensures ColumnAt(p1, p2, key, col)
  {
  }

  lemma ColumnUnique(p1: seq<Param>, p2: seq<Param>, key: int, col: Column, col': Column)
    requires StrictlyUp(Keys(p1)) && StrictlyUp(Keys(p2)) && ColumnAt(p1, p2, key, col) && ColumnAt(p1, p2, key, col')
    ensures col == col'
  {
  }

  /** Any output that puts the right column on each common date is the merge join. */
  lemma OutputIsMergeJoin(p1: seq<Param>, p2: seq<Param>, output: seq<Column>)
    requires StrictlyUp(Keys(p1)) && StrictlyUp(Keys(p2))
    requires var common := Intersect(Keys(p1), Keys(p2));
             |output| == |common| && forall k :: 0 <= k < |common| ==> ColumnAt(p1, p2, common[k], output[k])
    ensures output == Columns(MergeJoin(p1, p2))
    ensures JoinKeys(MergeJoin(p1, p2)) == Intersect(Keys(p1), Keys(p2))
  {
    hide ColumnAt, MergeJoin, Intersect;
    var common, js := Intersect(Keys(p1), Keys(p2)), MergeJoin(p1, p2);
    IntersectFacts(Keys(p1), Keys(p2));
    MergeJoinKeys(p1, p2);
    SameElementsSameList(common, JoinKeys(js));
    forall k | 0 <= k < |common| ensures output[k] == js[k].col {
      MergeJoinColumns(p1, p2, k);
      assert JoinKeys(js)[k] == common[k];
      ColumnUnique(p1, p2, common[k], output[k], js[k].col);
    }
  }

  lemma UpOnce(s: seq<int>, key: int)
    requires StrictlyUp(s) && key in s
    ensures Once(s, key)
  {
  }

  /** The comparison of two bucketed series is their date-ordered inner join, whenever they share a date. */
  method JoinMonthly(s1: seq<Sample>, p1: seq<Param>, s2: seq<Sample>, p2: seq<Param>) returns (r: Result<seq<Column>>)
    requires IsMonthly(s1, p1) && IsMonthly(s2, p2)
    ensures r == if MergeJoin(p1, p2) == [] then Err(UndefinedOutput) else Ok(Columns(MergeJoin(p1, p2)))
  {
    hide ColumnAt, MergeJoin, Intersect, Once, Summarises;
    var common := Intersect(Keys(p1), Keys(p2));
    IntersectFacts(Keys(p1), Keys(p2));
    MergeJoinKeys(p1, p2);
    SameElementsSameList(common, JoinKeys(MergeJoin(p1, p2)));
    forall k | 0 <= k < |common| ensures Once(Keys(p1), common[k]) && Once(Keys(p2), common[k]) {
      assert common[k] in common;
      UpOnce(Keys(p1), common[k]);
      UpOnce(Keys(p2), common[k]);
    }
    r := SelectSameTime(p1, p2);
    if r.Ok? {
      OutputIsMergeJoin(p1, p2, r.value);
    }
  }
}
