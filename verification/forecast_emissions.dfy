/**
 The public entry of the chart data service: the forecast of a history,
 projected into the columns the chart draws. The history that the service
 fetches and caches is the parameter `data`.
 */
module ForecastEmissions {
  import opened Model
  import opened ChartDataService
  import opened ForecastProperties

  /** The chart columns of the forecast. The labels are the years of the kept
      records, then every year from `currentYear` through the target year; the
      other three columns are the matching fields of the forecast rows. */
  method GetForecastEmissions(data: seq<EmissionsData>, p: Form, currentYear: int)
    returns (r: ChartDataSetConfig)
    requires DivisionDefined(data, p, currentYear)
    ensures data == [] ==> r.labels == [] && r.forecastedEmissions == []
                           && r.forecastedOffset == [] && r.targetTrayectory == []
    ensures data != [] ==>
              var kept := AtOrAfter(data, p.baselineYear);
              && |r.labels| == |kept| + ForwardCount(currentYear, p.targetYear)
              && (forall j :: 0 <= j < |kept| ==> r.labels[j] == kept[j].year)
              && (forall j :: |kept| <= j < |r.labels| ==> r.labels[j] == currentYear + (j - |kept|))
    ensures var rows := GetChartData(data, p, currentYear).chartData;
            && |r.labels| == |rows|
            && |r.forecastedEmissions| == |rows| && |r.forecastedOffset| == |rows|
            && |r.targetTrayectory| == |rows|
            && forall j :: 0 <= j < |rows| ==>
                 && r.forecastedEmissions[j] == rows[j].forecastedEmissions
                 && r.forecastedOffset[j] == rows[j].forecastedOffset
                 && r.targetTrayectory[j] == rows[j].targetTrayectory
  {
    var chart := GetChartData(data, p, currentYear);
    if data != [] {
      ForecastRowYears(data, p, currentYear);
    }
    r := MapData(chart.chartData);
  }
}
