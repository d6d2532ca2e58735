/** create_array_day and create_array_hour: the loops that build the monthly series. */
module MonthlySeries {
  import opened MonthlyBuckets
  import opened MonthlyMeans

  // ----- MATLAB's min and max -----

  function Min(s: seq<int>): (m: int)
    requires s != []
    ensures m in s && forall x :: x in s ==> m <= x
  {
    if |s| == 1 then s[0] else
      var m := Min(s[..|s| - 1]);
      assert s == s[..|s| - 1] + [s[|s| - 1]];
      if m <= s[|s| - 1] then m else s[|s| - 1]
  }

  function Max(s: seq<int>): (m: int)
    requires s != []
    ensures m in s && forall x :: x in s ==> x <= m
  {
    if |s| == 1 then s[0] else
      var m := Max(s[..|s| - 1]);
      assert s == s[..|s| - 1] + [s[|s| - 1]];
      if m >= s[|s| - 1] then m else s[|s| - 1]
  }

  function Years(s: seq<Sample>): (r: seq<int>)
    ensures |r| == |s| && forall i :: 0 <= i < |s| ==> r[i] == s[i].time.year
  {
    seq(|s|, i requires 0 <= i < |s| => s[i].time.year)
  }

  function Months(s: seq<Sample>): (r: seq<int>)
    ensures |r| == |s| && forall i :: 0 <= i < |s| ==> r[i] == s[i].time.month
  {
    seq(|s|, i requires 0 <= i < |s| => s[i].time.month)
  }

  // ----- the programs -----

  /** One month of one year: a bucket with samples is summarised. */
  method AppendMonth(s: seq<Sample>, y: int, m: int, before: seq<Param>) returns (out: seq<Param>)
    requires (forall x :: x in s ==> ValidTime(x.time)) && 1 <= m <= 12 && MonthlyBefore(s, before, Key(y, m))
    ensures MonthlyBefore(s, out, Key(y, m + 1))
  {
    hide MonthlyBefore, Summarises, NewParam, OfYear, OfMonth, Bucket;
    out := before;
    var month := OfMonth(OfYear(s, y), m);
    YearThenMonth(s, y, m);
    if month != [] {
      BucketPassesGuard(s, y, m);
      var p := NewParam(month);
      assert p.Ok?;  // the guard of the constructor never trips
      SummaryOf(s, y, m);
      NextMonth(s, out, p.value);
      out := out + [p.value];
    } else {
      NoSampleInMonth(s, Key(y, m));
      EmptyMonths(s, out, Key(y, m), Key(y, m + 1));
    }
  }

  /** The months of one year. */
  method AppendYear(s: seq<Sample>, y: int, before: seq<Param>) returns (out: seq<Param>)
    requires (forall x :: x in s ==> ValidTime(x.time)) && MonthlyBefore(s, before, Key(y, 1))
    ensures MonthlyBefore(s, out, Key(y + 1, 1))
  {
    hide MonthlyBefore, OfYear;
    out := before;
    var year := OfYear(s, y);
    if year == [] {
      NoSampleInYear(s, y);
      EmptyMonths(s, before, Key(y, 1), Key(y + 1, 1));
      return;
    }
    var lo, hi := Min(Months(year)), Max(Months(year));
    MonthRange(s, y);
    SkipMonths(s, y, out, 1, lo);
    for m := lo to hi + 1
      invariant MonthlyBefore(s, out, Key(y, m))
    {
      out := AppendMonth(s, y, m, out);
    }
    SkipMonths(s, y, out, hi + 1, 13);
  }

  lemma NoSampleInYear(s: seq<Sample>, y: int)
    requires (forall x :: x in s ==> ValidTime(x.time)) && OfYear(s, y) == []
    ensures forall x :: x in s ==> !(Key(y, 1) <= KeyOf(x) < Key(y + 1, 1))
  {
  }

  lemma NoSampleInMonth(s: seq<Sample>, key: int)
    requires Bucket(s, key) == []
    ensures forall x :: x in s ==> !(key <= KeyOf(x) < key + 1)
  {
  }

  lemma MonthRange(s: seq<Sample>, y: int)
    requires (forall x :: x in s ==> ValidTime(x.time)) && OfYear(s, y) != []
    ensures var ms := Months(OfYear(s, y)); 1 <= Min(ms) <= Max(ms) <= 12
    ensures var ms := Months(OfYear(s, y));
            forall x :: x in s && x.time.year == y ==> Min(ms) <= x.time.month <= Max(ms)
  {
    var year := OfYear(s, y);
    var ms := Months(year);
    forall i | 0 <= i < |year| ensures 1 <= ms[i] <= 12 {
      assert year[i] in s;
    }
    forall x | x in s && x.time.year == y ensures Min(ms) <= x.time.month <= Max(ms) {
      assert x in year;
      var i :| 0 <= i < |year| && year[i] == x;
      assert ms[i] in ms;
    }
  }

  /** Before the first and after the last month of a year there is nothing to summarise. */
  lemma SkipMonths(s: seq<Sample>, y: int, ps: seq<Param>, from: int, to: int)
    requires (forall x :: x in s ==> ValidTime(x.time)) && MonthlyBefore(s, ps, Key(y, from))
    requires OfYear(s, y) != []
    requires var ms := Months(OfYear(s, y));
             (from == 1 && to == Min(ms)) || (from == Max(ms) + 1 && to == 13)
    ensures MonthlyBefore(s, ps, Key(y, to))
  {
    hide MonthlyBefore;
    MonthRange(s, y);
    forall x | x in s ensures !(Key(y, from) <= KeyOf(x) < Key(y, to)) {
      assert ValidTime(x.time);
    }
    EmptyMonths(s, ps, Key(y, from), Key(y, to));
  }

  lemma SummaryOf(s: seq<Sample>, y: int, m: int)
    requires 1 <= m <= 12 && Bucket(s, Key(y, m)) != []
    ensures var p := Param(y, m, Mean(Bucket(s, Key(y, m)))); Summarises(p, s) && ParamKey(p) == Key(y, m)
  {
  }

  /** The monthly part of create_array_day. */
  method CreateArrayDay(times: seq<Time>, data: seq<Reading>) returns (r: Result<seq<Param>>)
    requires forall t :: t in times ==> ValidTime(t)
    ensures r.Err? <==> |times| != |data|
    ensures r.Ok? ==> IsMonthly(Present(times, data), r.value) && IsSeriesOf(times, data, AllTimes(), r.value)
  {
    hide MonthlyBefore, Present, Key, IsMonthly, IsSeriesOf, AllTimes;
    if |times| != |data| {
      return Err(SizeNotEqual);
    }
    var s := Present(times, data);
    var out: seq<Param> := [];
    if s == [] {
      NothingToDo();
      SeriesOfAll(times, data, out);
      return Ok(out);
    }
    var lo, hi := Min(Years(s)), Max(Years(s));
    NothingBefore(s, lo);
    for y := lo to hi + 1
      invariant MonthlyBefore(s, out, Key(y, 1))
    {
      out := AppendYear(s, y, out);
    }
    AllBefore(s, out, hi);
    SeriesOfAll(times, data, out);
    r := Ok(out);
  }

  lemma SeriesOfAll(times: seq<Time>, data: seq<Reading>, ps: seq<Param>)
    requires |times| == |data| && IsMonthly(Present(times, data), ps)
    ensures IsSeriesOf(times, data, AllTimes(), ps)
  {
    hide *;
    KeptIs(times, data, 0);
    SeriesExactlyWhen(times, data, AllTimes(), ps);
  }

  lemma NothingToDo()
    ensures IsMonthly([], [])
  {
  }

  lemma NothingBefore(s: seq<Sample>, y: int)
    requires s != [] && (forall x :: x in s ==> ValidTime(x.time)) && y == Min(Years(s))
    ensures y <= Max(Years(s)) && MonthlyBefore(s, [], Key(y, 1))
  {
    forall x | x in s ensures KeyOf(x) >= Key(y, 1) {
      var i :| 0 <= i < |s| && s[i] == x;
      assert Years(s)[i] in Years(s);
    }
  }

  lemma AllBefore(s: seq<Sample>, ps: seq<Param>, y: int)
    requires s != [] && (forall x :: x in s ==> ValidTime(x.time)) && y == Max(Years(s))
    requires MonthlyBefore(s, ps, Key(y + 1, 1))
    ensures IsMonthly(s, ps)
  {
    hide Summarises;
    forall x | x in s ensures KeyOf(x) < Key(y + 1, 1) {
      var i :| 0 <= i < |s| && s[i] == x;
      assert Years(s)[i] in Years(s);
    }
  }

  /** create_array_hour: one monthly series for each hour of the day. */
  method CreateArrayHour(times: seq<Time>, data: seq<Reading>) returns (r: Result<seq<seq<Param>>>)
    requires forall t :: t in times ==> ValidTime(t)
    ensures r.Err? <==> |times| != |data|
    ensures r.Ok? ==> |r.value| == 24
    ensures r.Ok? ==> forall h :: 0 <= h < 24 ==>
                        && IsMonthly(Select(Present(times, data), HourIs(h)), r.value[h])
                        && IsSeriesOf(times, data, AtHour(h), r.value[h])
  {
    hide IsMonthly, Present, IsSeriesOf;
    if |times| != |data| {
      return Err(SizeNotEqual);
    }
    var out: seq<seq<Param>> := [];
    for indexHour := 0 to 24
      invariant |out| == indexHour
      invariant forall h :: 0 <= h < indexHour ==>
                  && IsMonthly(Select(Present(times, data), HourIs(h)), out[h])
                  && IsSeriesOf(times, data, AtHour(h), out[h])
    {
      var sel := OfHour(times, data, indexHour);
      var series := CreateArrayDay(sel.0, sel.1);
      PresentOfHour(times, data, indexHour);
      KeptIs(times, data, indexHour);
      SeriesExactlyWhen(times, data, AtHour(indexHour), series.value);
      out := out + [series.value];
    }
    r := Ok(out);
  }
}
