/**
 * The samples of a measured parameter, put into one bucket per calendar month, and what makes a
 * list of monthly entries the series of the samples.
 */
module MonthlyBuckets {

  /** The calendar fields of a datetime that the program reads. */
  datatype Time = Time(year: int, month: int, hour: int)
  datatype Sample = Sample(time: Time, value: real)
  datatype Reading = NaN | Value(v: real)
  datatype Param = Param(year: int, month: int, mean: real)

  datatype Error = SizeNotEqual | NoSameMonthYear | EmptyVector | UndefinedOutput | AssignmentMismatch
  datatype Result<T> = Ok(value: T) | Err(error: Error)

  predicate ValidTime(t: Time) {
    1 <= t.month <= 12
  }

  /** Months in the order of time. */
  function Key(year: int, month: int): int {
    12 * year + month - 1
  }

  function KeyOf(s: Sample): int {
    Key(s.time.year, s.time.month)
  }

  function ParamKey(p: Param): int {
    Key(p.year, p.month)
  }

  /** Keys are in the order of the calendar, and no two months have the same one. */
  lemma KeyIsCalendarOrder(t: Time, t': Time)
    requires ValidTime(t) && ValidTime(t')
    ensures Key(t.year, t.month) < Key(t'.year, t'.month) <==>
            t.year < t'.year || (t.year == t'.year && t.month < t'.month)
    ensures Key(t.year, t.month) == Key(t'.year, t'.month) <==> t.year == t'.year && t.month == t'.month
  {
  }

  // ----- one bucket -----

  function Total(s: seq<Sample>): real {
    if s == [] then 0.0 else Total(s[..|s| - 1]) + s[|s| - 1].value
  }

  function Mean(s: seq<Sample>): real
    requires s != []
  {
    Total(s) / |s| as real
  }

  /** The constructor RelevantParameters, with its guard that all times are of one month. */
  function NewParam(s: seq<Sample>): Result<Param> {
    if s == [] then Err(EmptyVector)
    else if exists i, j :: 0 <= i < |s| && 0 <= j < |s| &&
                           (s[i].time.month != s[j].time.month || s[i].time.year != s[j].time.year)
      then Err(NoSameMonthYear)
    else Ok(Param(s[0].time.year, s[0].time.month, Mean(s)))
  }

  // ----- selections -----

  function Select(s: seq<Sample>, keep: Sample -> bool): (r: seq<Sample>)
    ensures |r| <= |s|
    ensures forall x :: x in r <==> x in s && keep(x)
  {
    if s == [] then [] else
      var last := s[|s| - 1];
      assert s == s[..|s| - 1] + [last];
      Select(s[..|s| - 1], keep) + if keep(last) then [last] else []
  }

  /** The samples of one month, in their original order. */
  function Bucket(s: seq<Sample>, key: int): seq<Sample> {
    Select(s, (x: Sample) => KeyOf(x) == key)
  }

  function OfYear(s: seq<Sample>, y: int): seq<Sample> {
    Select(s, (x: Sample) => x.time.year == y)
  }

  function OfMonth(s: seq<Sample>, m: int): seq<Sample> {
    Select(s, (x: Sample) => x.time.month == m)
  }

  lemma {:induction false} SelectTwice(s: seq<Sample>, p: Sample -> bool, q: Sample -> bool, both: Sample -> bool)
    requires forall x :: x in s ==> (both(x) <==> p(x) && q(x))
    ensures Select(Select(s, p), q) == Select(s, both)
  {
    if s != [] {
      var init, last := s[..|s| - 1], s[|s| - 1];
      SelectTwice(init, p, q, both);
      var sel := Select(init, p);
      assert last in s;
      if p(last) {
        assert (sel + [last])[..|sel|] == sel;
      } else {
        assert sel + [] == sel;
      }
    }
  }

  lemma YearThenMonth(s: seq<Sample>, y: int, m: int)
    requires (forall x :: x in s ==> ValidTime(x.time)) && 1 <= m <= 12
    ensures OfMonth(OfYear(s, y), m) == Bucket(s, Key(y, m))
  {
    SelectTwice(s, (x: Sample) => x.time.year == y, (x: Sample) => x.time.month == m,
                (x: Sample) => KeyOf(x) == Key(y, m));
  }

  /** A bucket passes the guard of the constructor. */
  lemma BucketPassesGuard(s: seq<Sample>, y: int, m: int)
    requires (forall x :: x in s ==> ValidTime(x.time)) && 1 <= m <= 12 && Bucket(s, Key(y, m)) != []
    ensures NewParam(Bucket(s, Key(y, m))) == Ok(Param(y, m, Mean(Bucket(s, Key(y, m)))))
  {
    var b := Bucket(s, Key(y, m));
    forall i | 0 <= i < |b| ensures b[i].time.year == y && b[i].time.month == m {
      assert b[i] in s && KeyOf(b[i]) == Key(y, m);
    }
  }

  /** The constructor accepts exactly the vectors that are the whole bucket of one month. */
  lemma AcceptsExactlyOneMonth(s: seq<Sample>)
    requires forall x :: x in s ==> ValidTime(x.time)
    ensures NewParam(s).Ok? <==> exists key :: s != [] && Bucket(s, key) == s
  {
    hide Mean;
    if NewParam(s).Ok? {
      var key := KeyOf(s[0]);
      forall x | x in s ensures KeyOf(x) == key {
        var i :| 0 <= i < |s| && s[i] == x;
      }
      WholeBucket(s, key);
    }
    if key :| s != [] && Bucket(s, key) == s {
      forall i | 0 <= i < |s| ensures s[i].time.year == s[0].time.year && s[i].time.month == s[0].time.month {
        assert s[i] in s && s[0] in s;
        KeyIsCalendarOrder(s[i].time, s[0].time);
      }
    }
  }

  lemma {:induction false} WholeBucket(s: seq<Sample>, key: int)
    requires forall x :: x in s ==> KeyOf(x) == key
    ensures Bucket(s, key) == s
  {
    if s != [] {
      assert s == s[..|s| - 1] + [s[|s| - 1]];
      WholeBucket(s[..|s| - 1], key);
    }
  }

  // ----- the monthly series -----

  ghost predicate StrictlyUp(s: seq<int>) {
    forall i, j :: 0 <= i < j < |s| ==> s[i] < s[j]
  }

  function Keys(ps: seq<Param>): (r: seq<int>)
    ensures |r| == |ps| && forall k :: 0 <= k < |ps| ==> r[k] == ParamKey(ps[k])
  {
    seq(|ps|, k requires 0 <= k < |ps| => ParamKey(ps[k]))
  }

  /** This entry stands for its month: a valid month that has samples, and their mean. */
  ghost predicate Summarises(p: Param, s: seq<Sample>) {
    1 <= p.month <= 12 && Bucket(s, ParamKey(p)) != [] && p.mean == Mean(Bucket(s, ParamKey(p)))
  }

  /** The series of all months before `bound`: in order, each once, none missing. */
  ghost predicate MonthlyBefore(s: seq<Sample>, ps: seq<Param>, bound: int) {
    && StrictlyUp(Keys(ps))
    && (forall k :: 0 <= k < |ps| ==> Summarises(ps[k], s) && ParamKey(ps[k]) < bound)
    && (forall x :: x in s && KeyOf(x) < bound ==> KeyOf(x) in Keys(ps))
  }

  ghost predicate IsMonthly(s: seq<Sample>, ps: seq<Param>) {
    && StrictlyUp(Keys(ps))
    && (forall k :: 0 <= k < |ps| ==> Summarises(ps[k], s))
    && (forall x :: x in s ==> KeyOf(x) in Keys(ps))
  }

  lemma NextMonth(s: seq<Sample>, ps: seq<Param>, p: Param)
    requires MonthlyBefore(s, ps, ParamKey(p)) && Summarises(p, s)
    ensures MonthlyBefore(s, ps + [p], ParamKey(p) + 1)
  {
    hide Summarises, ParamKey, KeyOf;
    var all := ps + [p];
    assert Keys(all) == Keys(ps) + [ParamKey(p)];
  }

  lemma EmptyMonths(s: seq<Sample>, ps: seq<Param>, b: int, b': int)
    requires MonthlyBefore(s, ps, b) && b <= b'
    requires forall x :: x in s ==> !(b <= KeyOf(x) < b')
    ensures MonthlyBefore(s, ps, b')
  {
  }

  // ----- the readings -----

  /** The samples whose reading is not NaN. */
  function Present(times: seq<Time>, data: seq<Reading>): (r: seq<Sample>)
    requires |times| == |data|
    ensures (forall t :: t in times ==> ValidTime(t)) ==> forall x :: x in r ==> ValidTime(x.time)
  {
    if times == [] then [] else
      var n := |times| - 1;
      assert times[n] in times;
      assert forall t :: t in times[..n] ==> t in times;
      Present(times[..n], data[..n]) + match data[n] { case NaN => [] case Value(v) => [Sample(times[n], v)] }
  }

  function HourIs(h: int): Sample -> bool {
    (x: Sample) => x.time.hour == h
  }

  function OfHour(times: seq<Time>, data: seq<Reading>, h: int): (r: (seq<Time>, seq<Reading>))
    requires |times| == |data|
    ensures |r.0| == |r.1| && forall t :: t in r.0 ==> t in times && t.hour == h
  {
    if times == [] then ([], []) else
      var n := |times| - 1;
      var rest := OfHour(times[..n], data[..n], h);
      assert times[n] in times;
      if times[n].hour == h then (rest.0 + [times[n]], rest.1 + [data[n]]) else rest
  }

  lemma SelectSnoc(s: seq<Sample>, x: Sample, keep: Sample -> bool)
    ensures Select(s + [x], keep) == Select(s, keep) + if keep(x) then [x] else []
  {
  }

  lemma PresentSnoc(times: seq<Time>, data: seq<Reading>, t: Time, d: Reading)
    requires |times| == |data|
    ensures Present(times + [t], data + [d]) ==
            Present(times, data) + match d { case NaN => [] case Value(v) => [Sample(t, v)] }
  {
  }

  lemma {:induction false} PresentOfHour(times: seq<Time>, data: seq<Reading>, h: int)
    requires |times| == |data|
    ensures var sel := OfHour(times, data, h);
            Present(sel.0, sel.1) == Select(Present(times, data), HourIs(h))
  {
    hide Present, Select;
    var keep := HourIs(h);
    if times == [] {
      NothingPresent(h);
    } else {
      var n := |times| - 1;
      var t, d := times[n], data[n];
      assert times == times[..n] + [t] && data == data[..n] + [d];
      PresentOfHour(times[..n], data[..n], h);
      var rest := OfHour(times[..n], data[..n], h);
      PresentSnoc(times[..n], data[..n], t, d);
      PresentSnoc(rest.0, rest.1, t, d);
      if d.Value? {
        SelectSnoc(Present(times[..n], data[..n]), Sample(t, d.v), keep);
        assert keep(Sample(t, d.v)) <==> t.hour == h;
      } else {
        assert Present(times, data) == Present(times[..n], data[..n]);
      }
    }
  }

  lemma NothingPresent(h: int)
    ensures Present([], []) == Select(Present([], []), HourIs(h))
  {
  }

  // ----- the series is determined, and no sample is lost or counted twice -----

  lemma Below(a: seq<int>, b: seq<int>)
    requires StrictlyUp(b) && (forall x :: x in a <==> x in b) && a != []
    ensures b != [] && a[|a| - 1] <= b[|b| - 1]
  {
    var x := a[|a| - 1];
    assert x in a;
    assert x in b;
    var j :| 0 <= j < |b| && b[j] == x;
  }

  lemma DropLast(s: seq<int>, x: int)
    requires s != [] && StrictlyUp(s)
    ensures x in s[..|s| - 1] <==> x in s && x != s[|s| - 1]
  {
  }

  lemma {:induction false} SameElementsSameList(a: seq<int>, b: seq<int>)
    requires StrictlyUp(a) && StrictlyUp(b) && forall x :: x in a <==> x in b
    ensures a == b
  {
    if a != [] {
      Below(a, b);
      Below(b, a);
      var m, n := |a| - 1, |b| - 1;
      forall x ensures x in a[..m] <==> x in b[..n] {
        DropLast(a, x);
        DropLast(b, x);
        assert x in a <==> x in b;
      }
      SameElementsSameList(a[..m], b[..n]);
      assert a == a[..m] + [a[m]] && b == b[..n] + [b[n]];
    } else if b != [] {
      Below(b, a);
    }
  }

  lemma MonthlyKeys(s: seq<Sample>, ps: seq<Param>, key: int)
    requires IsMonthly(s, ps)
    ensures key in Keys(ps) <==> exists x :: x in s && KeyOf(x) == key
  {
    if key in Keys(ps) {
      var k :| 0 <= k < |ps| && Keys(ps)[k] == key;
      assert Summarises(ps[k], s);
      var b := Bucket(s, key);
      assert b[0] in b;
      assert b[0] in s && KeyOf(b[0]) == key;
    }
  }

  /** There is only one monthly series of given samples. */
  lemma MonthlyUnique(s: seq<Sample>, ps: seq<Param>, ps': seq<Param>)
    requires IsMonthly(s, ps) && IsMonthly(s, ps')
    ensures ps == ps'
  {
    hide Summarises;
    forall key ensures key in Keys(ps) <==> key in Keys(ps') {
      MonthlyKeys(s, ps, key);
      MonthlyKeys(s, ps', key);
    }
    SameElementsSameList(Keys(ps), Keys(ps'));
    forall k | 0 <= k < |ps| ensures ps[k] == ps'[k] {
      assert Keys(ps)[k] == Keys(ps')[k];
      SummaryUnique(s, ps[k], ps'[k]);
    }
  }

  lemma SummaryUnique(s: seq<Sample>, p: Param, p': Param)
    requires Summarises(p, s) && Summarises(p', s) && ParamKey(p) == ParamKey(p')
    ensures p == p'
  {
  }

  /** The sizes of the first n buckets together. */
  function Placed(s: seq<Sample>, keys: seq<int>, n: nat): nat
    requires n <= |keys|
  {
    if n == 0 then 0 else Placed(s, keys, n - 1) + |Bucket(s, keys[n - 1])|
  }

  lemma {:induction false} PlaceOne(s: seq<Sample>, x: Sample, keys: seq<int>, n: nat)
    requires n <= |keys| && StrictlyUp(keys)
    ensures Placed(s + [x], keys, n) == Placed(s, keys, n) + if KeyOf(x) in keys[..n] then 1 else 0
  {
    if n > 0 {
      PlaceOne(s, x, keys, n - 1);
      assert (s + [x])[..|s|] == s;
      assert keys[..n] == keys[..n - 1] + [keys[n - 1]];
      assert keys[n - 1] !in keys[..n - 1];
    }
  }

  lemma {:induction false} PlacedAll(s: seq<Sample>, keys: seq<int>)
    requires StrictlyUp(keys) && forall x :: x in s ==> KeyOf(x) in keys
    ensures Placed(s, keys, |keys|) == |s|
  {
    if s == [] {
      PlacedNone(keys, |keys|);
    } else {
      var init, last := s[..|s| - 1], s[|s| - 1];
      assert s == init + [last] && last in s;
      PlacedAll(init, keys);
      PlaceOne(init, last, keys, |keys|);
      assert keys[..|keys|] == keys;
    }
  }

  lemma {:induction false} PlacedNone(keys: seq<int>, n: nat)
    requires n <= |keys|
    ensures Placed([], keys, n) == 0
  {
    if n > 0 {
      PlacedNone(keys, n - 1);
    }
  }

  /** Every sample is in exactly one bucket: the bucket sizes add up to the number of samples. */
  lemma {:induction false} BucketsConserveSamples(s: seq<Sample>, ps: seq<Param>)
    requires IsMonthly(s, ps)
    ensures Placed(s, Keys(ps), |ps|) == |s|
  {
    PlacedAll(s, Keys(ps));
  }
}
