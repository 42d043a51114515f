/**
 * The trend report: the number of barrages per calendar day over the trailing
 * week, one axis of days and one series of counts.
 */
module TrendReport {
  import opened Models
  import opened Schemas
  import Settings
  import Daily

  const SeriesName: string := "弹幕数量"

  /** The events the weekly reports aggregate: `time > now() - interval '1 week'`. */
  function WeekWindow(events: seq<Event>, now: int): seq<Event> {
    Daily.Window(events, now - Settings.Week)
  }

  function Counts(bs: seq<Daily.Bucket>): seq<int> {
    seq(|bs|, i requires 0 <= i < |bs| => |bs[i].members|)
  }

  function Sum(s: seq<int>): int {
    if s == [] then 0 else s[0] + Sum(s[1..])
  }

  /** The per-bucket counts add up to the number of bucketed events. */
  lemma {:induction false} SumCounts(bs: seq<Daily.Bucket>)
    ensures Sum(Counts(bs)) == Daily.Total(bs)
  {
    if bs != [] {
      SumCounts(bs[1..]);
      assert Counts(bs)[1..] == Counts(bs[1..]);
    }
  }

  /**
   * `get_trend_data`: one axis entry per day of the window that has events, in
   * increasing day order, and beside it that day's number of windowed events.
   */
  function TrendData(events: seq<Event>, now: int): (r: Chart)
    ensures |r.series| == 1 && r.series[0].name == SeriesName
    ensures |r.series[0].data| == |r.xAxis.data|
    ensures Daily.StrictlyIncreasing(r.xAxis.data)
    ensures forall x :: x in r.xAxis.data <==> Daily.OnDay(WeekWindow(events, now), x) != []
    ensures forall i :: 0 <= i < |r.xAxis.data| ==>
      r.series[0].data[i] == |Daily.OnDay(WeekWindow(events, now), r.xAxis.data[i])| >= 1
    ensures Sum(r.series[0].data) == |WeekWindow(events, now)|
  {
    var bs := Daily.Group(WeekWindow(events, now));
    Daily.GroupBuckets(WeekWindow(events, now));
    SumCounts(bs);
    Chart(Axis(Daily.Days(bs)), [ChartSeries(SeriesName, Counts(bs))])
  }

  /** Only events strictly inside the trailing week are counted; an empty week gives an empty chart. */
  lemma TrendWindow(events: seq<Event>, now: int)
    ensures forall e :: e in WeekWindow(events, now) <==> e in events && e.time > now - Settings.Week
    ensures WeekWindow(events, now) == [] ==>
      TrendData(events, now).xAxis.data == [] && TrendData(events, now).series[0].data == []
  {
  }
}
