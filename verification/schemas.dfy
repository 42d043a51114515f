/**
 * The response shapes of the dashboard. Day labels are kept as day numbers
 * (see Daily.DayOf); the `YYYY/MM/DD` rendering is not modelled.
 */
module Schemas {

  datatype Axis = Axis(data: seq<int>)

  datatype ChartSeries = ChartSeries(name: string, data: seq<int>)

  datatype Chart = Chart(xAxis: Axis, series: seq<ChartSeries>)

  datatype UserRanking = UserRanking(name: string, value: int)

  datatype RankingSeries = RankingSeries(name: string, data: seq<UserRanking>)

  datatype Ranking = Ranking(series: seq<RankingSeries>)
}
