/** The cutover split of the daily series: the actual segment holds the
    days up to and including the cutover day, the projected segment the days
    from the cutover day on, so the cutover day itself is drawn in both. */
module Segments {
  import opened Headcount

  /** One row per day, each the day after the one before. */
  predicate Daily(series: seq<Row>) {
    forall k :: 0 <= k < |series| ==> series[k].day == series[0].day + k
  }

  /** The built series is daily. */
  lemma DensifyIsDaily(table: seq<Row>)
    requires Densify(table).Ok?
    ensures Daily(Densify(table).value)
  {
  }

  /** `series[series.index <= cutover]`. */
  function Actual(series: seq<Row>, cutover: int): (a: seq<Row>)
    ensures |a| <= |series|
  {
    if |series| == 0 then []
    else
      var rest := Actual(series[1..], cutover);
      if series[0].day <= cutover then [series[0]] + rest else rest
  }

  /** The actual segment holds exactly the rows dated on or before the
      cutover day. */
  lemma {:induction false} ActualMembers(series: seq<Row>, cutover: int)
    ensures forall row :: row in Actual(series, cutover) <==> row in series && row.day <= cutover
  {
    if |series| > 0 {
      ActualMembers(series[1..], cutover);
      assert series == [series[0]] + series[1..];
    }
  }

  /** `series[series.index >= cutover]`. */
  function Projected(series: seq<Row>, cutover: int): (p: seq<Row>)
    ensures |p| <= |series|
  {
    if |series| == 0 then []
    else
      var rest := Projected(series[1..], cutover);
      if series[0].day >= cutover then [series[0]] + rest else rest
  }

  /** The projected segment holds exactly the rows dated on or after the
      cutover day. */
  lemma {:induction false} ProjectedMembers(series: seq<Row>, cutover: int)
    ensures forall row :: row in Projected(series, cutover) <==> row in series && row.day >= cutover
  {
    if |series| > 0 {
      ProjectedMembers(series[1..], cutover);
      assert series == [series[0]] + series[1..];
    }
  }

  /** A run of consecutive rows of a daily series is daily. */
  lemma DailySlice(series: seq<Row>, i: int, j: int)
    requires Daily(series) && 0 <= i <= j <= |series|
    ensures Daily(series[i..j])
  {
    var run := series[i..j];
    forall k | 0 <= k < |run|
      ensures run[k].day == run[0].day + k
    {
      assert run[k] == series[i + k] && run[0] == series[i];
    }
  }

  /** `x` limited to `0 .. n`. */
  function Clamp(x: int, n: nat): (c: nat)
    ensures c <= n
  {
    if x < 0 then 0 else if x > n then n else x
  }

  /** On a daily series the actual segment is the prefix that ends on the
      cutover day, or on the last day when the cutover is later. */
  lemma {:induction false} ActualIsPrefix(series: seq<Row>, cutover: int)
    requires |series| > 0 && Daily(series)
    ensures Actual(series, cutover) == series[..Clamp(cutover - series[0].day + 1, |series|)]
  {
    if |series| > 1 {
      var rest := series[1..];
      DailySlice(series, 1, |series|);
      ActualIsPrefix(rest, cutover);
      if series[0].day <= cutover {
        assert series[..Clamp(cutover - series[0].day + 1, |series|)]
            == [series[0]] + rest[..Clamp(cutover - rest[0].day + 1, |rest|)];
      }
    }
  }

  /** On a daily series the projected segment is the suffix that starts on
      the cutover day, or on the first day when the cutover is earlier. */
  lemma {:induction false} ProjectedIsSuffix(series: seq<Row>, cutover: int)
    requires |series| > 0 && Daily(series)
    ensures Projected(series, cutover) == series[Clamp(cutover - series[0].day, |series|)..]
  {
    if |series| > 1 {
      var rest := series[1..];
      DailySlice(series, 1, |series|);
      ProjectedIsSuffix(rest, cutover);
      if series[0].day >= cutover {
        assert series == [series[0]] + rest;
      } else {
        assert series[Clamp(cutover - series[0].day, |series|)..]
            == rest[Clamp(cutover - rest[0].day, |rest|)..];
      }
    }
  }

  /** The two segments rebuild the series. When the cutover day lies in the
      series, the segments share exactly that day, as the same row, and the
      actual segment followed by the rest of the projected one is the whole
      series; otherwise one segment is empty and the two side by side are
      the whole series. */
  lemma SplitRebuildsSeries(series: seq<Row>, cutover: int)
    requires |series| > 0 && Daily(series)
    ensures var a, p := Actual(series, cutover), Projected(series, cutover);
            series[0].day <= cutover <= series[|series| - 1].day ==>
              && |a| > 0 && |p| > 0
              && a[|a| - 1] == p[0] == series[cutover - series[0].day]
              && a + p[1..] == series
    ensures var a, p := Actual(series, cutover), Projected(series, cutover);
            !(series[0].day <= cutover <= series[|series| - 1].day) ==>
              (a == [] || p == []) && a + p == series
  {
    var n := cutover - series[0].day;
    if 0 <= n < |series| {
      SplitInside(series, cutover);
    } else {
      ActualIsPrefix(series, cutover);
      ProjectedIsSuffix(series, cutover);
      if n < 0 {
        assert Actual(series, cutover) == [];
      } else {
        assert Projected(series, cutover) == [];
      }
    }
  }

  lemma SplitInside(series: seq<Row>, cutover: int)
    requires |series| > 0 && Daily(series)
    requires 0 <= cutover - series[0].day < |series|
    ensures var a, p := Actual(series, cutover), Projected(series, cutover);
            && |a| > 0 && |p| > 0
            && a[|a| - 1] == p[0] == series[cutover - series[0].day]
            && a + p[1..] == series
  {
    var n := cutover - series[0].day;
    ActualIsPrefix(series, cutover);
    ProjectedIsSuffix(series, cutover);
    var a, p := series[..n + 1], series[n..];
    assert p[1..] == series[n + 1..];
    assert series == a + series[n + 1..];
  }

  /** Each segment is itself a daily run, so its days ascend. */
  lemma SegmentsAreDaily(series: seq<Row>, cutover: int)
    requires |series| > 0 && Daily(series)
    ensures Daily(Actual(series, cutover))
    ensures Daily(Projected(series, cutover))
  {
    ActualIsPrefix(series, cutover);
    ProjectedIsSuffix(series, cutover);
    DailySlice(series, 0, Clamp(cutover - series[0].day + 1, |series|));
    DailySlice(series, Clamp(cutover - series[0].day, |series|), |series|);
    assert series[Clamp(cutover - series[0].day, |series|)..]
        == series[Clamp(cutover - series[0].day, |series|)..|series|];
  }
}
