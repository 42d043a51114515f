/**
 * The stacked composition report: per calendar day of the trailing week, all
 * barrages, fan-club barrages and noble barrages, and the derived "normal"
 * count, as three series in the order normal, fans, noble.
 */
module StackedReport {
  import opened Wrappers
  import opened Models
  import opened Schemas
  import Daily
  import TrendReport

  const NormalName: string := "普通弹幕"
  const FansName: string := "粉丝团弹幕"
  const NobleName: string := "贵族弹幕"

  /** `COUNT(*) FILTER (WHERE chatmsg->>'brid' = ROOM_ID)` */
  function CountFans(es: seq<Event>, roomId: string): (r: nat)
    ensures r <= |es|
  {
    if es == [] then 0 else (if IsFan(es[0], roomId) then 1 else 0) + CountFans(es[1..], roomId)
  }

  /** `COUNT(*) FILTER (WHERE chatmsg->'nc' IS NOT NULL)` */
  function CountNoble(es: seq<Event>): (r: nat)
    ensures r <= |es|
  {
    if es == [] then 0 else (if IsNoble(es[0]) then 1 else 0) + CountNoble(es[1..])
  }

  /** Events that are both fan and noble events. */
  function CountBoth(es: seq<Event>, roomId: string): nat {
    if es == [] then 0
    else (if IsFan(es[0], roomId) && IsNoble(es[0]) then 1 else 0) + CountBoth(es[1..], roomId)
  }

  /** Events that are neither fan nor noble events. */
  function CountNeither(es: seq<Event>, roomId: string): (r: nat)
    ensures r <= |es|
  {
    if es == [] then 0
    else (if !IsFan(es[0], roomId) && !IsNoble(es[0]) then 1 else 0) + CountNeither(es[1..], roomId)
  }

  /**
   * all - fans - noble counts an event that is both fan and noble twice, so it
   * equals (neither) - (both), which is negative when "both" outnumbers "neither".
   */
  lemma {:induction false} AllMinusFansMinusNoble(es: seq<Event>, roomId: string)
    ensures |es| - CountFans(es, roomId) - CountNoble(es) == CountNeither(es, roomId) - CountBoth(es, roomId)
  {
    if es != [] {
      AllMinusFansMinusNoble(es[1..], roomId);
    }
  }

  /** The derived normal count as written: all - fans - noble (routers.py:135). */
  function NormalAsWritten(es: seq<Event>, roomId: string): int {
    |es| - CountFans(es, roomId) - CountNoble(es)
  }

  /** The normal count evidently intended: barrages that are neither fan nor noble. */
  function NormalIntended(es: seq<Event>, roomId: string): nat {
    CountNeither(es, roomId)
  }

  function NormalSeries(bs: seq<Daily.Bucket>, roomId: string): seq<int> {
    seq(|bs|, i requires 0 <= i < |bs| => NormalAsWritten(bs[i].members, roomId))
  }

  function IntendedNormalSeries(bs: seq<Daily.Bucket>, roomId: string): seq<int> {
    seq(|bs|, i requires 0 <= i < |bs| => NormalIntended(bs[i].members, roomId))
  }

  function FansSeries(bs: seq<Daily.Bucket>, roomId: string): seq<int> {
    seq(|bs|, i requires 0 <= i < |bs| => CountFans(bs[i].members, roomId))
  }

  function NobleSeries(bs: seq<Daily.Bucket>): seq<int> {
    seq(|bs|, i requires 0 <= i < |bs| => CountNoble(bs[i].members))
  }

  /** The events of day x in the trailing week. */
  function DayEvents(events: seq<Event>, now: int, x: int): seq<Event> {
    Daily.OnDay(TrendReport.WeekWindow(events, now), x)
  }

  /**
   * One day's column as the report states it: fans and nobles never exceed the
   * day's total and the three values add up to it, but normal is
   * (neither) - (both), not the number of plain barrages.
   */
  predicate ColumnAsWritten(day: seq<Event>, roomId: string, normal: int, fans: int, noble: int) {
    && fans == CountFans(day, roomId) <= |day|
    && noble == CountNoble(day) <= |day|
    && normal + fans + noble == |day|
    && normal == CountNeither(day, roomId) - CountBoth(day, roomId)
  }

  /** One day's column as intended: normal counts the barrages that are neither fan nor noble. */
  predicate ColumnIntended(day: seq<Event>, roomId: string, normal: int, fans: int, noble: int) {
    && fans == CountFans(day, roomId)
    && noble == CountNoble(day)
    && 0 <= normal <= |day|
    && normal + (fans + noble - CountBoth(day, roomId)) == |day|
  }

  /** The columns of the grouped buckets describe each bucket's day of w. */
  lemma BucketColumns(w: seq<Event>, roomId: string)
    ensures forall i :: 0 <= i < |Daily.Group(w)| ==>
      ColumnAsWritten(Daily.OnDay(w, Daily.Days(Daily.Group(w))[i]), roomId,
        NormalSeries(Daily.Group(w), roomId)[i], FansSeries(Daily.Group(w), roomId)[i], NobleSeries(Daily.Group(w))[i])
    ensures forall i :: 0 <= i < |Daily.Group(w)| ==>
      ColumnIntended(Daily.OnDay(w, Daily.Days(Daily.Group(w))[i]), roomId,
        IntendedNormalSeries(Daily.Group(w), roomId)[i], FansSeries(Daily.Group(w), roomId)[i], NobleSeries(Daily.Group(w))[i])
  {
    forall i | 0 <= i < |Daily.Group(w)| {
      BucketColumn(w, roomId, i);
    }
  }

  lemma BucketColumn(w: seq<Event>, roomId: string, i: int)
    requires 0 <= i < |Daily.Group(w)|
    ensures ColumnAsWritten(Daily.OnDay(w, Daily.Days(Daily.Group(w))[i]), roomId,
      NormalSeries(Daily.Group(w), roomId)[i], FansSeries(Daily.Group(w), roomId)[i], NobleSeries(Daily.Group(w))[i])
    ensures ColumnIntended(Daily.OnDay(w, Daily.Days(Daily.Group(w))[i]), roomId,
      IntendedNormalSeries(Daily.Group(w), roomId)[i], FansSeries(Daily.Group(w), roomId)[i], NobleSeries(Daily.Group(w))[i])
  {
    var bs := Daily.Group(w);
    Daily.GroupBuckets(w);
    assert Daily.OnDay(w, Daily.Days(bs)[i]) == bs[i].members;
    AllMinusFansMinusNoble(bs[i].members, roomId);
  }

  /**
   * `get_stacked_data` as written: the trend's axis, and for each of its days
   * the normal, fan and noble counts of that day's windowed barrages.
   */
  function StackedData(events: seq<Event>, now: int, roomId: string): (r: Chart)
    ensures r.xAxis == TrendReport.TrendData(events, now).xAxis
    ensures |r.series| == 3
    ensures r.series[0].name == NormalName && r.series[1].name == FansName && r.series[2].name == NobleName
    ensures forall k :: 0 <= k < 3 ==> |r.series[k].data| == |r.xAxis.data|
    ensures forall i :: 0 <= i < |r.xAxis.data| ==>
      ColumnAsWritten(DayEvents(events, now, r.xAxis.data[i]), roomId,
                      r.series[0].data[i], r.series[1].data[i], r.series[2].data[i])
  {
    var w := TrendReport.WeekWindow(events, now);
    var bs := Daily.Group(w);
    BucketColumns(w, roomId);
    Chart(Axis(Daily.Days(bs)), [
      ChartSeries(NormalName, NormalSeries(bs, roomId)),
      ChartSeries(FansName, FansSeries(bs, roomId)),
      ChartSeries(NobleName, NobleSeries(bs))
    ])
  }

  /**
   * One barrage that is both a fan-club and a noble barrage makes the normal
   * series report -1 for its day.
   */
  lemma NegativeNormal(now: int, roomId: string)
    ensures StackedData([Event(1, "u", "n", now, Some(roomId), true)], now, roomId).series[0].data == [-1]
  {
    var e := Event(1, "u", "n", now, Some(roomId), true);
    var r := StackedData([e], now, roomId);
    var w := TrendReport.WeekWindow([e], now);
    assert w == [e];
    var d := Daily.DayOf(now);
    assert Daily.OnDay([e], d) == [e];
    Daily.DaysDetermined(w, [d]);
    assert CountNeither([e], roomId) == 0 && CountBoth([e], roomId) == 1;
  }

  /**
   * The corrected report: the normal series counts the barrages of the day that
   * are neither fan nor noble barrages; the other series are as before.
   */
  function StackedDataCorrected(events: seq<Event>, now: int, roomId: string): (r: Chart)
    ensures r.xAxis == TrendReport.TrendData(events, now).xAxis
    ensures |r.series| == 3
    ensures r.series[0].name == NormalName && r.series[1].name == FansName && r.series[2].name == NobleName
    ensures forall k :: 0 <= k < 3 ==> |r.series[k].data| == |r.xAxis.data|
    ensures forall i :: 0 <= i < |r.xAxis.data| ==>
      ColumnIntended(DayEvents(events, now, r.xAxis.data[i]), roomId,
                     r.series[0].data[i], r.series[1].data[i], r.series[2].data[i])
  {
    var w := TrendReport.WeekWindow(events, now);
    var bs := Daily.Group(w);
    BucketColumns(w, roomId);
    Chart(Axis(Daily.Days(bs)), [
      ChartSeries(NormalName, IntendedNormalSeries(bs, roomId)),
      ChartSeries(FansName, FansSeries(bs, roomId)),
      ChartSeries(NobleName, NobleSeries(bs))
    ])
  }

  /** When no barrage of the window is both fan and noble, the report as written is the corrected one. */
  lemma AgreeWithoutOverlap(events: seq<Event>, now: int, roomId: string)
    requires forall e :: e in TrendReport.WeekWindow(events, now) ==> !(IsFan(e, roomId) && IsNoble(e))
    ensures StackedData(events, now, roomId) == StackedDataCorrected(events, now, roomId)
  {
    var w := TrendReport.WeekWindow(events, now);
    var bs := Daily.Group(w);
    Daily.GroupBuckets(w);
    forall i | 0 <= i < |bs|
      ensures NormalAsWritten(bs[i].members, roomId) == NormalIntended(bs[i].members, roomId)
    {
      assert forall e :: e in bs[i].members ==> e in w;
      NoBoth(bs[i].members, roomId);
      AllMinusFansMinusNoble(bs[i].members, roomId);
    }
    assert NormalSeries(bs, roomId) == IntendedNormalSeries(bs, roomId);
  }

  lemma {:induction false} NoBoth(es: seq<Event>, roomId: string)
    requires forall e :: e in es ==> !(IsFan(e, roomId) && IsNoble(e))
    ensures CountBoth(es, roomId) == 0
  {
    if es != [] {
      assert es[0] in es;
      NoBoth(es[1..], roomId);
    }
  }

  /** On a shared axis, each day's stacked column adds up to that day's trend bar. */
  lemma StackedSumsToTrend(events: seq<Event>, now: int, roomId: string)
    ensures forall i :: 0 <= i < |TrendReport.TrendData(events, now).xAxis.data| ==>
      StackedData(events, now, roomId).series[0].data[i] + StackedData(events, now, roomId).series[1].data[i]
        + StackedData(events, now, roomId).series[2].data[i]
      == TrendReport.TrendData(events, now).series[0].data[i]
  {
  }
}
