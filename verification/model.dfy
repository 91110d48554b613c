/**
 The value types exchanged by the emissions forecast: the historical records it
 reads, the parameters of the forecast form, the chart rows it produces and the
 column-wise view handed to the chart.

 Numbers are exact rationals (`real`); years are integers.
 */
module Model {

  /** A small Some/None wrapper, used where the source may find nothing. */
  datatype Option<+T> = None | Some(value: T)

  /** One observed data point: the emissions of one year. */
  datatype EmissionsData = EmissionsData(year: int, emissions: real)

  /** One row of the chart: a historical year or a simulated future year. */
  datatype ChartDataColumn = ChartDataColumn(
    year: int,
    forecastedActivity: real,
    forecastedEmissions: real,
    forecastedOffset: real,
    targetTrayectory: real)

  /** The forecast: the rows plus the accumulated offset and its price. */
  datatype ChartData = ChartData(
    totalCarbonOffset: real,
    costPerYear: real,
    chartData: seq<ChartDataColumn>)

  /** The rows split into the four parallel arrays the chart draws. */
  datatype ChartDataSetConfig = ChartDataSetConfig(
    labels: seq<int>,
    forecastedEmissions: seq<real>,
    forecastedOffset: seq<real>,
    targetTrayectory: seq<real>)

  /** The five user-chosen forecast parameters (percentages as given, not clamped). */
  datatype Form = Form(
    baselineYear: int,
    targetYear: int,
    emissionReductionTarget: real,
    increaseActivity: real,
    emissionOffsetYear: real)
}
