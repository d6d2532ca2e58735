/**
 * What the mean of a month is, in terms of its readings, and the monthly series in terms of the two
 * input vectors alone.
 */
module MonthlyMeans {
  import opened Sums
  import opened Permutations
  import opened MonthlyBuckets

  // ----- one bucket -----

  function ValueAt(s: seq<Sample>): int -> real {
    i => if 0 <= i < |s| then s[i].value else 0.0
  }

  function Deviation(s: seq<Sample>, m: real): int -> real {
    i => if 0 <= i < |s| then s[i].value - m else 0.0
  }

  lemma {:induction false} TotalIsSum(s: seq<Sample>)
    ensures Total(s) == Sum(|s|, ValueAt(s))
  {
    if s != [] {
      var n := |s| - 1;
      TotalIsSum(s[..n]);
      SumExt(n, ValueAt(s[..n]), ValueAt(s));
    }
  }

  lemma DeviationSum(s: seq<Sample>, m: real)
    ensures Sum(|s|, Deviation(s, m)) == Sum(|s|, ValueAt(s)) - |s| as real * m
  {
    var c := (i: int) => m;
    SumConst(|s|, m, c);
    SumAdd(|s|, Deviation(s, m), c, ValueAt(s));
  }

  /** The mean is the one number from which the readings deviate by zero in all. */
  lemma MeanExactlyWhen(s: seq<Sample>, m: real)
    requires s != []
    ensures m == Mean(s) <==> Sum(|s|, Deviation(s, m)) == 0.0
  {
    TotalIsSum(s);
    DeviationSum(s, m);
    Quotient(Total(s), |s| as real, m);
  }

  lemma Quotient(t: real, w: real, m: real)
    requires w > 0.0
    ensures m == t / w <==> t - w * m == 0.0
  {
  }

  /** No mean lies outside the range of its readings. */
  lemma MeanBetween(s: seq<Sample>, lo: real, hi: real)
    requires s != [] && forall i :: 0 <= i < |s| ==> lo <= s[i].value <= hi
    ensures lo <= Mean(s) <= hi
  {
    hide Mean, Sum;
    var m, w, t := Mean(s), |s| as real, Sum(|s|, ValueAt(s));
    MeanExactlyWhen(s, m);
    DeviationSum(s, m);
    DeviationSum(s, lo);
    DeviationSum(s, hi);
    var zero := (i: int) => 0.0;
    SumConst(|s|, 0.0, zero);
    SumMono(|s|, zero, Deviation(s, lo));
    SumMono(|s|, Deviation(s, hi), zero);
    ByWeight(w, lo, m, hi, t);
  }

  lemma ByWeight(w: real, lo: real, m: real, hi: real, t: real)
    requires w > 0.0 && t - w * m == 0.0 && t - w * lo >= w * 0.0 && t - w * hi <= w * 0.0
    ensures lo <= m <= hi
  {
  }

  /** The order of the readings does not matter. */
  lemma MeanReordered(s: seq<Sample>, p: seq<int>)
    requires s != [] && IsPerm(p, |s|)
    ensures Mean(Pick(s, p)) == Mean(s)
  {
    TotalIsSum(s);
    TotalIsSum(Pick(s, p));
    SumReindex(p, |s|, ValueAt(s), ValueAt(Pick(s, p)));
  }

  // ----- the whole series -----

  function BucketSum(s: seq<Sample>, keys: seq<int>, n: nat): real
    requires n <= |keys|
  {
    if n == 0 then 0.0 else BucketSum(s, keys, n - 1) + Total(Bucket(s, keys[n - 1]))
  }

  lemma TotalSnoc(s: seq<Sample>, x: Sample)
    ensures Total(s + [x]) == Total(s) + x.value
  {
  }

  lemma BucketSnoc(s: seq<Sample>, x: Sample, key: int)
    ensures Bucket(s + [x], key) == Bucket(s, key) + if KeyOf(x) == key then [x] else []
  {
    SelectSnoc(s, x, (y: Sample) => KeyOf(y) == key);
  }

  lemma {:induction false} SumOne(s: seq<Sample>, x: Sample, keys: seq<int>, n: nat)
    requires n <= |keys| && StrictlyUp(keys)
    ensures BucketSum(s + [x], keys, n) == BucketSum(s, keys, n) + if KeyOf(x) in keys[..n] then x.value else 0.0
  {
    hide Bucket, Total;
    if n > 0 {
      SumOne(s, x, keys, n - 1);
      BucketSnoc(s, x, keys[n - 1]);
      TotalSnoc(Bucket(s, keys[n - 1]), x);
      assert Bucket(s, keys[n - 1]) + [] == Bucket(s, keys[n - 1]);
      assert keys[..n] == keys[..n - 1] + [keys[n - 1]];
      assert keys[n - 1] !in keys[..n - 1];
    }
  }

  lemma {:induction false} NoSum(keys: seq<int>, n: nat)
    requires n <= |keys|
    ensures BucketSum([], keys, n) == 0.0
  {
    if n > 0 {
      NoSum(keys, n - 1);
    }
  }

  lemma {:induction false} SumOfBuckets(s: seq<Sample>, keys: seq<int>)
    requires StrictlyUp(keys) && forall x :: x in s ==> KeyOf(x) in keys
    ensures BucketSum(s, keys, |keys|) == Total(s)
  {
    hide BucketSum, Bucket;
    if s == [] {
      NoSum(keys, |keys|);
    } else {
      var init, last := s[..|s| - 1], s[|s| - 1];
      assert s == init + [last] && last in s;
      SumOfBuckets(init, keys);
      SumOne(init, last, keys, |keys|);
      assert keys[..|keys|] == keys;
    }
  }

  /** The size of the bucket of entry k times its mean. */
  function Weighted(s: seq<Sample>, ps: seq<Param>): int -> real {
    k => if 0 <= k < |ps| then |Bucket(s, ParamKey(ps[k]))| as real * ps[k].mean else 0.0
  }

  lemma {:induction false} WeightedIs(s: seq<Sample>, ps: seq<Param>, n: nat)
    requires n <= |ps| && forall k :: 0 <= k < |ps| ==> Summarises(ps[k], s)
    ensures Sum(n, Weighted(s, ps)) == BucketSum(s, Keys(ps), n)
  {
    hide Bucket, Total, ParamKey;
    if n > 0 {
      WeightedIs(s, ps, n - 1);
      assert Summarises(ps[n - 1], s);
      var b := Bucket(s, ParamKey(ps[n - 1]));
      Quotient(Total(b), |b| as real, Mean(b));
    }
  }

  /** The means, each weighed with the size of its month, add up to all the readings. */
  lemma MeansConserveReadings(s: seq<Sample>, ps: seq<Param>)
    requires IsMonthly(s, ps)
    ensures Sum(|ps|, Weighted(s, ps)) == Sum(|s|, ValueAt(s))
  {
    hide Summarises, Weighted, ValueAt;
    WeightedIs(s, ps, |ps|);
    SumOfBuckets(s, Keys(ps));
    TotalIsSum(s);
  }

  // ----- in terms of the input vectors -----

  /** Reading i is not NaN, is of this month, and is one of those to keep. */
  predicate Reads(times: seq<Time>, data: seq<Reading>, keep: Time -> bool, key: int, i: int)
    requires |times| == |data|
  {
    0 <= i < |times| && data[i].Value? && keep(times[i]) && Key(times[i].year, times[i].month) == key
  }

  function Residual(times: seq<Time>, data: seq<Reading>, keep: Time -> bool, key: int, m: real): int -> real
    requires |times| == |data|
  {
    i => if Reads(times, data, keep, key, i) then data[i].v - m else 0.0
  }

  /** The month has readings, and they deviate from the mean by zero in all. */
  ghost predicate MeanOfReadings(times: seq<Time>, data: seq<Reading>, keep: Time -> bool, p: Param)
    requires |times| == |data|
  {
    && 1 <= p.month <= 12 && (exists i :: Reads(times, data, keep, ParamKey(p), i))
    && Sum(|times|, Residual(times, data, keep, ParamKey(p), p.mean)) == 0.0
  }

  /** One entry for each month that has readings to keep, in the order of time, with their mean. */
  ghost predicate IsSeriesOf(times: seq<Time>, data: seq<Reading>, keep: Time -> bool, ps: seq<Param>)
    requires |times| == |data|
  {
    && StrictlyUp(Keys(ps))
    && (forall k :: 0 <= k < |ps| ==> MeanOfReadings(times, data, keep, ps[k]))
    && (forall key, i :: Reads(times, data, keep, key, i) ==> key in Keys(ps))
  }

  /** The samples that are kept. */
  function Kept(times: seq<Time>, data: seq<Reading>, keep: Time -> bool): seq<Sample>
    requires |times| == |data|
  {
    Select(Present(times, data), (x: Sample) => keep(x.time))
  }

  lemma KeptSnoc(times: seq<Time>, data: seq<Reading>, t: Time, d: Reading, keep: Time -> bool)
    requires |times| == |data|
    ensures Kept(times + [t], data + [d], keep) ==
            Kept(times, data, keep) + if d.Value? && keep(t) then [Sample(t, d.v)] else []
  {
    hide Present, Select;
    PresentSnoc(times, data, t, d);
    if d.Value? {
      SelectSnoc(Present(times, data), Sample(t, d.v), (x: Sample) => keep(x.time));
    } else {
      assert Present(times, data) + [] == Present(times, data);
    }
  }

  lemma KeptNone(keep: Time -> bool, key: int)
    ensures Kept([], [], keep) == [] && Bucket([], key) == []
  {
  }

  lemma LastReading(times: seq<Time>, data: seq<Reading>, keep: Time -> bool, key: int, m: real, t: Time, d: Reading)
    requires |times| == |data|
    ensures var n, more := |times|, d.Value? && keep(t) && Key(t.year, t.month) == key;
            && Sum(n + 1, Residual(times + [t], data + [d], keep, key, m)) ==
               Sum(n, Residual(times, data, keep, key, m)) + (if more then d.v - m else 0.0)
            && ((exists i :: Reads(times + [t], data + [d], keep, key, i)) <==>
                more || exists i :: Reads(times, data, keep, key, i))
  {
    hide Key;
    var n, ts, ds := |times|, times + [t], data + [d];
    assert ts[n] == t && ds[n] == d;
    forall i | 0 <= i < n ensures Reads(ts, ds, keep, key, i) <==> Reads(times, data, keep, key, i) {
      assert ts[i] == times[i] && ds[i] == data[i];
    }
    SumExt(n, Residual(times, data, keep, key, m), Residual(ts, ds, keep, key, m));
    assert Reads(ts, ds, keep, key, n) <==> d.Value? && keep(t) && Key(t.year, t.month) == key;
    if i :| Reads(times, data, keep, key, i) {
      assert Reads(ts, ds, keep, key, i);
    }
    if i :| Reads(ts, ds, keep, key, i) {
      assert i < n ==> Reads(times, data, keep, key, i);
    }
  }

  /** The residuals of a month over all readings are the deviations over its bucket. */
  lemma {:induction false} ResidualSum(times: seq<Time>, data: seq<Reading>, keep: Time -> bool, key: int, m: real)
    requires |times| == |data|
    ensures var b := Bucket(Kept(times, data, keep), key);
            && Sum(|times|, Residual(times, data, keep, key, m)) == Total(b) - |b| as real * m
            && (b != [] <==> exists i :: Reads(times, data, keep, key, i))
  {
    hide Kept, Bucket, Reads, Residual, Total;
    if times == [] {
      KeptNone(keep, key);
      NoReading(keep, key);
    } else {
      var n := |times| - 1;
      var ts, ds, t, d := times[..n], data[..n], times[n], data[n];
      assert times == ts + [t] && data == ds + [d];
      ResidualSum(ts, ds, keep, key, m);
      LastReading(ts, ds, keep, key, m, t, d);
      KeptSnoc(ts, ds, t, d, keep);
      var kept := Kept(ts, ds, keep);
      if d.Value? && keep(t) {
        var x := Sample(t, d.v);
        BucketSnoc(kept, x, key);
        assert Bucket(kept, key) + [] == Bucket(kept, key);
        TotalSnoc(Bucket(kept, key), x);
        assert (|Bucket(kept, key)| + 1) as real * m == |Bucket(kept, key)| as real * m + m;
      } else {
        assert Kept(times, data, keep) == kept;
      }
    }
  }

  lemma NoReading(keep: Time -> bool, key: int)
    ensures Total([]) == 0.0 && forall i :: !Reads([], [], keep, key, i)
  {
  }

  lemma SummaryExactlyWhen(times: seq<Time>, data: seq<Reading>, keep: Time -> bool, p: Param)
    requires |times| == |data|
    ensures Summarises(p, Kept(times, data, keep)) <==> MeanOfReadings(times, data, keep, p)
  {
    hide Kept, Bucket, Reads, Residual, Total, ParamKey;
    var b := Bucket(Kept(times, data, keep), ParamKey(p));
    ResidualSum(times, data, keep, ParamKey(p), p.mean);
    if b != [] {
      Quotient(Total(b), |b| as real, p.mean);
    }
  }

  lemma KeysExactlyWhen(times: seq<Time>, data: seq<Reading>, keep: Time -> bool, key: int)
    requires |times| == |data|
    ensures (exists x :: x in Kept(times, data, keep) && KeyOf(x) == key) <==>
            exists i :: Reads(times, data, keep, key, i)
  {
    hide Kept, Reads, Residual;
    ResidualSum(times, data, keep, key, 0.0);
    var b := Bucket(Kept(times, data, keep), key);
    if b != [] {
      assert b[0] in b;
    }
  }

  /** Being the monthly series of the kept samples is being the series of the two input vectors. */
  lemma SeriesExactlyWhen(times: seq<Time>, data: seq<Reading>, keep: Time -> bool, ps: seq<Param>)
    requires |times| == |data|
    ensures IsMonthly(Kept(times, data, keep), ps) <==> IsSeriesOf(times, data, keep, ps)
  {
    hide Kept, Reads, Residual, Summarises, MeanOfReadings, StrictlyUp, KeyOf;
    var s := Kept(times, data, keep);
    forall k | 0 <= k < |ps| ensures Summarises(ps[k], s) <==> MeanOfReadings(times, data, keep, ps[k]) {
      SummaryExactlyWhen(times, data, keep, ps[k]);
    }
    if IsMonthly(s, ps) {
      forall key, i | Reads(times, data, keep, key, i) ensures key in Keys(ps) {
        KeysExactlyWhen(times, data, keep, key);
        var x :| x in s && KeyOf(x) == key;
      }
    }
    if IsSeriesOf(times, data, keep, ps) {
      forall x | x in s ensures KeyOf(x) in Keys(ps) {
        var key := KeyOf(x);
        KeysExactlyWhen(times, data, keep, key);
        var i :| Reads(times, data, keep, key, i);
      }
    }
  }

  // ----- all readings, and those of one hour -----

  function AllTimes(): Time -> bool {
    (t: Time) => true
  }

  function AtHour(h: int): Time -> bool {
    (t: Time) => t.hour == h
  }

  lemma {:induction false} SelectExt(s: seq<Sample>, p: Sample -> bool, q: Sample -> bool)
    requires forall x :: x in s ==> (p(x) <==> q(x))
    ensures Select(s, p) == Select(s, q)
  {
    if s != [] {
      assert s == s[..|s| - 1] + [s[|s| - 1]];
      SelectExt(s[..|s| - 1], p, q);
    }
  }

  lemma {:induction false} SelectAll(s: seq<Sample>, p: Sample -> bool)
    requires forall x :: x in s ==> p(x)
    ensures Select(s, p) == s
  {
    if s != [] {
      assert s == s[..|s| - 1] + [s[|s| - 1]];
      SelectAll(s[..|s| - 1], p);
    }
  }

  lemma KeptIs(times: seq<Time>, data: seq<Reading>, h: int)
    requires |times| == |data|
    ensures Kept(times, data, AllTimes()) == Present(times, data)
    ensures Kept(times, data, AtHour(h)) == Select(Present(times, data), HourIs(h))
  {
    hide Present, Select;
    var all, hour := AllTimes(), AtHour(h);
    SelectAll(Present(times, data), (x: Sample) => all(x.time));
    SelectExt(Present(times, data), (x: Sample) => hour(x.time), HourIs(h));
  }
}
