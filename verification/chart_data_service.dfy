/**
 The emissions forecast of the chart data service: the baseline filter, the
 linear target trajectory, the historical rows, the forward simulation with its
 lagging offset total, and the projection of rows into chart columns.

 The calendar year that the service reads from the clock is the parameter
 `currentYear` here.
 */
module ChartDataService {
  import opened Model

  /** Price of one tonne of offset, used for `costPerYear`. */
  const CostPerTonne: real := 50.0

  // ---------------------------------------------------------------------------
  // Selecting records
  // ---------------------------------------------------------------------------

  /** The records whose year is at or after `baselineYear`, in input order. */
  function AtOrAfter(data: seq<EmissionsData>, baselineYear: int): (kept: seq<EmissionsData>)
    ensures |kept| <= |data|
  {
    if data == [] then []
    else if data[0].year >= baselineYear then [data[0]] + AtOrAfter(data[1..], baselineYear)
    else AtOrAfter(data[1..], baselineYear)
  }

  /** Index of the first record of `year` at or after position `from`, if any. */
  function FindYearFrom(data: seq<EmissionsData>, year: int, from: nat): (r: Option<nat>)
    requires from <= |data|
    ensures r.Some? ==> from <= r.value < |data| && data[r.value].year == year
    ensures r.Some? ==> forall j :: from <= j < r.value ==> data[j].year != year
    ensures r.None? ==> forall j :: from <= j < |data| ==> data[j].year != year
    decreases |data| - from
  {
    if from == |data| then None
    else if data[from].year == year then Some(from)
    else FindYearFrom(data, year, from + 1)
  }

  /** The record that seeds the forward simulation: the first record of the
      baseline year, or the very first record when the baseline year is absent. */
  function Seed(data: seq<EmissionsData>, baselineYear: int): (seed: EmissionsData)
    requires data != []
  {
    match FindYearFrom(data, baselineYear, 0)
    case Some(k) => data[k]
    case None => data[0]
  }

  // ---------------------------------------------------------------------------
  // Target trajectory
  // ---------------------------------------------------------------------------

  /** Number of simulated years, `currentYear` through `targetYear` inclusive. */
  function ForwardCount(currentYear: int, targetYear: int): (n: nat)
    ensures n == 0 <==> currentYear > targetYear
    ensures currentYear <= targetYear ==> currentYear + n - 1 == targetYear
  {
    if currentYear <= targetYear then targetYear - currentYear + 1 else 0
  }

  /** The yearly decrement of the trajectory: the full reduction spread evenly
      over the years from the baseline to the target. */
  function TrajectoryDecrement(initial: real, p: Form): real
    requires p.targetYear != p.baselineYear
  {
    initial * p.emissionReductionTarget / 100.0 / (p.targetYear - p.baselineYear) as real
  }

  /** The trajectory value `offset` steps after the anchor `initial`. */
  function TrajectoryAt(initial: real, offset: int, p: Form): real
    requires p.targetYear != p.baselineYear
  {
    initial - offset as real * TrajectoryDecrement(initial, p)
  }

  /** The source divides by `targetYear - baselineYear` exactly when it builds
      at least one trajectory entry, that is, when the history is non-empty and
      some record is kept or some year is simulated. */
  predicate DivisionDefined(data: seq<EmissionsData>, p: Form, currentYear: int) {
    || data == []
    || p.targetYear != p.baselineYear
    || |AtOrAfter(data, p.baselineYear)| + ForwardCount(currentYear, p.targetYear) == 0
  }

  /** The trajectory entries of the kept records: entry `k` is keyed by the
      position `k` among the kept records. */
  function HistoricalTrajectory(initial: real, historical: nat, p: Form): (t: seq<real>)
    requires historical == 0 || p.targetYear != p.baselineYear
    ensures |t| == historical
  {
    if historical == 0 then []
    else HistoricalTrajectory(initial, historical - 1, p) + [TrajectoryAt(initial, historical - 1, p)]
  }

  /** The trajectory entries of the simulated years `year` through the target
      year: each is keyed by its calendar distance from the baseline year. */
  function ForwardTrajectory(initial: real, year: int, p: Form): (t: seq<real>)
    requires year > p.targetYear || p.targetYear != p.baselineYear
    ensures |t| == ForwardCount(year, p.targetYear)
    decreases p.targetYear - year + 1
  {
    if year > p.targetYear then []
    else [TrajectoryAt(initial, year - p.baselineYear, p)] + ForwardTrajectory(initial, year + 1, p)
  }

  /** The trajectory array: the entries of the kept records, then those of the
      simulated years. */
  function TrajectoryArray(initial: real, historical: nat, currentYear: int, p: Form): (t: seq<real>)
    requires historical + ForwardCount(currentYear, p.targetYear) == 0 || p.targetYear != p.baselineYear
    ensures |t| == historical + ForwardCount(currentYear, p.targetYear)
  {
    HistoricalTrajectory(initial, historical, p) + ForwardTrajectory(initial, currentYear, p)
  }

  // ---------------------------------------------------------------------------
  // Rows
  // ---------------------------------------------------------------------------

  /** A historical row restates the record: activity and emissions are the
      recorded emissions, and there is no offset. */
  function HistoricalRow(record: EmissionsData, trajectory: real): ChartDataColumn {
    ChartDataColumn(record.year, record.emissions, record.emissions, 0.0, trajectory)
  }

  /** The state carried from one simulated year to the next. */
  datatype Carry = Carry(activity: real, emissions: real, offset: real)

  /** The carry of a row, as the next year reads it back. */
  function CarryOf(row: ChartDataColumn): Carry {
    Carry(row.forecastedActivity, row.forecastedEmissions, row.forecastedOffset)
  }

  /** The carry before the first simulated year: activity and emissions are the
      seed's emissions, and the offset is the seed grown by the offset rate. */
  function SeedCarry(seed: real, p: Form): Carry {
    Carry(seed, seed, seed + seed * p.emissionOffsetYear / 100.0)
  }

  /** One simulated year: activity grows by the activity rate, emissions shrink
      by the offset rate, and the offset is the gap between them. */
  function Advance(last: Carry, p: Form): (next: Carry)
    ensures next.offset == next.activity - next.emissions
  {
    var activity := last.activity + last.activity * p.increaseActivity / 100.0;
    var emissions := last.emissions - last.emissions * p.emissionOffsetYear / 100.0;
    Carry(activity, emissions, activity - emissions)
  }

  /** The simulated rows and the running offset total. */
  datatype Forward = Forward(rows: seq<ChartDataColumn>, sumOffset: real)

  /** The forward loop from `year` through `targetYear`. Each step advances
      `last`, emits a row reading the trajectory at `at`, and adds the offset
      of `last` (not of the new row) to the running sum. */
  function Simulate(year: int, targetYear: int, last: Carry, sum: real, p: Form,
                    trajectory: seq<real>, at: nat): (r: Forward)
    requires at + ForwardCount(year, targetYear) <= |trajectory|
    ensures |r.rows| == ForwardCount(year, targetYear)
    ensures forall k :: 0 <= k < |r.rows| ==> r.rows[k].year == year + k
    ensures forall k :: 0 <= k < |r.rows| ==> r.rows[k].targetTrayectory == trajectory[at + k]
    ensures forall k :: 0 <= k < |r.rows| ==>
              r.rows[k].forecastedOffset == r.rows[k].forecastedActivity - r.rows[k].forecastedEmissions
    ensures year > targetYear ==> r.sumOffset == sum
    decreases targetYear - year + 1
  {
    if year > targetYear then Forward([], sum)
    else
      var next := Advance(last, p);
      var row := ChartDataColumn(year, next.activity, next.emissions, next.offset, trajectory[at]);
      var rest := Simulate(year + 1, targetYear, next, sum + last.offset, p, trajectory, at + 1);
      Forward([row] + rest.rows, rest.sumOffset)
  }

  /** The historical rows: one per kept record, reading the trajectory at the
      record's position among the kept records. */
  function RealData(kept: seq<EmissionsData>, trajectory: seq<real>): (rows: seq<ChartDataColumn>)
    requires |kept| <= |trajectory|
    ensures |rows| == |kept|
  {
    seq(|kept|, k requires 0 <= k < |kept| => HistoricalRow(kept[k], trajectory[k]))
  }

  /** The forward simulation of a non-empty history, seeded from `Seed` and
      reading the trajectory after the historical entries. */
  function ForecastForward(data: seq<EmissionsData>, p: Form, currentYear: int): (f: Forward)
    requires data != [] && DivisionDefined(data, p, currentYear)
    ensures |f.rows| == ForwardCount(currentYear, p.targetYear)
  {
    var kept := AtOrAfter(data, p.baselineYear);
    var trajectory := TrajectoryArray(data[0].emissions, |kept|, currentYear, p);
    var seed := Seed(data, p.baselineYear);
    Simulate(currentYear, p.targetYear, SeedCarry(seed.emissions, p), 0.0, p, trajectory, |kept|)
  }

  /** The whole forecast: historical rows from the baseline year, then one
      simulated row per year from `currentYear` through the target year. */
  function GetChartData(data: seq<EmissionsData>, p: Form, currentYear: int): (r: ChartData)
    requires DivisionDefined(data, p, currentYear)
    ensures r.costPerYear == r.totalCarbonOffset * CostPerTonne
    ensures data == [] ==> r.totalCarbonOffset == 0.0 && r.chartData == []
    ensures data != [] ==>
              |r.chartData| == |AtOrAfter(data, p.baselineYear)| + ForwardCount(currentYear, p.targetYear)
    ensures data != [] && currentYear > p.targetYear ==> r.totalCarbonOffset == 0.0
  {
    if data == [] then ChartData(0.0, 0.0, [])
    else
      var kept := AtOrAfter(data, p.baselineYear);
      var trajectory := TrajectoryArray(data[0].emissions, |kept|, currentYear, p);
      var forward := ForecastForward(data, p, currentYear);
      ChartData(forward.sumOffset, forward.sumOffset * CostPerTonne, RealData(kept, trajectory) + forward.rows)
  }

  // ---------------------------------------------------------------------------
  // Projection into chart columns
  // ---------------------------------------------------------------------------

  /** Splits rows into the four parallel arrays of the chart, in row order. */
  method MapData(data: seq<ChartDataColumn>) returns (r: ChartDataSetConfig)
    ensures |r.labels| == |data| && |r.forecastedEmissions| == |data|
    ensures |r.forecastedOffset| == |data| && |r.targetTrayectory| == |data|
    ensures forall i :: 0 <= i < |data| ==>
              && r.labels[i] == data[i].year
              && r.forecastedEmissions[i] == data[i].forecastedEmissions
              && r.forecastedOffset[i] == data[i].forecastedOffset
              && r.targetTrayectory[i] == data[i].targetTrayectory
  {
    var labels: seq<int> := [];
    var emissions: seq<real> := [];
    var offset: seq<real> := [];
    var trajectory: seq<real> := [];
    var i := 0;
    while i < |data|
      invariant 0 <= i <= |data|
      invariant |labels| == i && |emissions| == i && |offset| == i && |trajectory| == i
      invariant forall j :: 0 <= j < i ==>
                  && labels[j] == data[j].year
                  && emissions[j] == data[j].forecastedEmissions
                  && offset[j] == data[j].forecastedOffset
                  && trajectory[j] == data[j].targetTrayectory
    {
      labels := labels + [data[i].year];
      emissions := emissions + [data[i].forecastedEmissions];
      offset := offset + [data[i].forecastedOffset];
      trajectory := trajectory + [data[i].targetTrayectory];
      i := i + 1;
    }
    r := ChartDataSetConfig(labels, emissions, offset, trajectory);
  }
}
