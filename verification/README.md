# Emissions forecast chart data, in Dafny

This project models the forecast at the heart of the chart data service of a
small Angular application. The service takes the yearly emissions history of
an organisation and the five values of the forecast form:

- the baseline year;
- the target year;
- the reduction target, in percent;
- the yearly growth of activity, in percent;
- the yearly offset rate, in percent.

From these it builds one chart series in two parts.

- **Historical rows.** There is one row for every record of the baseline year
  or later, in input order. A historical row restates the record's emissions
  and carries no offset.
- **Simulated rows.** There is one row for every year from the current
  calendar year through the target year. Each simulated row grows the
  previous row's activity, shrinks its emissions, and records the gap between
  the two as the offset. The first simulated row starts from the first record
  of the baseline year, or from the first record when there is no such record.

Both parts read a linear target trajectory that falls from the first
record's emissions towards the reduction goal. Historical rows read it at
their position among the kept records. Simulated rows read it at their
calendar distance from the baseline year.

The service also returns a running offset total and its cost at 50 per
tonne. The total lags the rows by one year: each simulated year adds the
offset it started from, not the offset it produced. A last operation splits
the rows into the four parallel arrays that the chart draws.

Files:

- `model.dfy` (module `Model`): the records, rows, forecast and column-wise
  chart data of `src/app/model.ts`, and the five form values.
- `chart_data_service.dfy` (module `ChartDataService`): the operations.
  - `GetChartData` is the forecast. Its parts are `AtOrAfter` (the baseline
    filter), `Seed` (the first simulated row's starting record),
    `TrajectoryArray` (the trajectory), `RealData` (the historical rows) and
    `Simulate` (the forward loop as a recursive fold).
  - `MapData` is the projection into chart columns.
- `forecast_emissions.dfy` (module `ForecastEmissions`): the service's
  public entry `GetForecastEmissions`, which is the forecast followed by the
  projection. It has a module of its own, apart from `ChartDataService`,
  because its proof uses a lemma of `ForecastProperties`, which in turn
  imports `ChartDataService`.
- `forecast_properties.dfy` (module `ForecastProperties`): reference
  definitions and the lemmas relating the operations to them.
  - The reference definitions are the `n`-fold advance `Iterate`, powers
    `Pow`, repeated scaling `Compounded`, the offset sum `SumOffsets`, and
    sortedness by year.
  - The lemmas cover the filter, the seed, the recurrence and its closed
    form, the lag of the total, where the trajectory is read, and the order of
    the rows. Concrete cases on a two-record history close the file.

Numbers are exact rationals (`real`), so no rounding occurs. Years are
integers. The calendar year that the service reads from the clock is the
parameter `currentYear`.

Notes on what the code does:

- The code does not join the historical part and the simulated part into one
  contiguous run of years. Rows for the years between the last record and the
  current year are simply absent.
- The trajectory is keyed by position for historical rows and by calendar
  distance for simulated rows. It is therefore not one straight line over the
  calendar when a year is missing from the history (`ExampleSkippedYear`,
  `ForecastHistoricalPositional`).
- The code has no error result for invalid parameters. A target year equal to
  the baseline year makes it divide by zero. The model demands only that the
  division it performs is defined (`DivisionDefined`).

## Model

| member | source | states |
|---|---|---|
| ChartDataService.AtOrAfter | src/app/chart-data.service.ts:106-107 | the baseline filter never keeps more records than it is given |
| ChartDataService.FindYearFrom | src/app/chart-data.service.ts:126-128 | the search returns the first index at or after `from` whose record has the wanted year, and returns nothing exactly when no such record exists |
| ChartDataService.ForwardCount | src/app/chart-data.service.ts:121 | the loop runs zero times exactly when the current year is past the target year; otherwise its last year is the target year |
| ChartDataService.Seed | src/app/chart-data.service.ts:125-131 | no contract of its own: the seed fallback is stated by `ForecastProperties.SeedChoice` |
| ChartDataService.TrajectoryDecrement | src/app/chart-data.service.ts:88-90 | no contract of its own: the yearly decrement; `ForecastProperties.TrajectoryAtNext` and `ForecastProperties.TrajectoryAtTarget` state what it does to the trajectory |
| ChartDataService.TrajectoryAt | src/app/chart-data.service.ts:95-100 | no contract of its own: the trajectory formula at a given offset; described by `ForecastProperties.TrajectoryAtTarget`, `ForecastProperties.TrajectoryAtNext` and `ForecastProperties.TrajectoryAtEqual` |
| ChartDataService.HistoricalRow | src/app/chart-data.service.ts:108-114 | no contract of its own: the historical row of one record; described by `ForecastProperties.ForecastHistoricalRow` |
| ChartDataService.CarryOf | src/app/chart-data.service.ts:137-142 | no contract of its own: the previous row read back as the next year's carry; used by `ForecastProperties.ForecastRecurrence` |
| ChartDataService.SeedCarry | src/app/chart-data.service.ts:132-135 | no contract of its own: the carry the first simulated year starts from; described by `ForecastProperties.SeedCarryOffset` |
| ChartDataService.HistoricalTrajectory | src/app/chart-data.service.ts:82-92 | the first loop pushes one trajectory entry per kept record |
| ChartDataService.ForwardTrajectory | src/app/chart-data.service.ts:94-102 | the second loop pushes one trajectory entry per simulated year |
| ChartDataService.TrajectoryArray | src/app/chart-data.service.ts:79-102 | the trajectory array has one entry per kept record plus one per simulated year, so every read of it is in bounds |
| ChartDataService.Advance | src/app/chart-data.service.ts:144-148 | one simulated year's offset is its activity minus its emissions |
| ChartDataService.Simulate | src/app/chart-data.service.ts:116-161 | the forward loop emits one row per year, labelled by consecutive years from its first year; row `k` reads the trajectory at its start index plus `k`; each offset is activity minus emissions; with no year to simulate the sum is unchanged |
| ChartDataService.RealData | src/app/chart-data.service.ts:106-114 | there is one historical row per kept record |
| ChartDataService.ForecastForward | src/app/chart-data.service.ts:116-161 | the simulation of a non-empty history has one row per year from the current year through the target year |
| ChartDataService.GetChartData | src/app/chart-data.service.ts:62-170 | the cost is 50 times the total; an empty history gives a zero total and no rows; otherwise there are as many rows as kept records plus simulated years; with no simulated year the total is zero |
| ChartDataService.MapData | src/app/chart-data.service.ts:172-190 | the four arrays have the length of the input, and entry `i` of each is the matching field of row `i` |
| ForecastEmissions.GetForecastEmissions | src/app/chart-data.service.ts:26-37 | the chart columns of the forecast: empty for an empty history; otherwise one label per row, the kept records' years followed by every year from the current year through the target year; and for every history, the emissions, offset and trajectory columns have one entry per forecast row, entry `j` being the matching field of row `j` |
| ForecastProperties.AtOrAfterMembers | src/app/chart-data.service.ts:82-83 | a record is kept if and only if it is in the history and its year is at or after the baseline; everything is kept if and only if no year is earlier |
| ForecastProperties.AtOrAfterConcat | src/app/chart-data.service.ts:106-107 | filtering distributes over concatenation, so the kept records keep their input order |
| ForecastProperties.AtOrAfterIncreasing | src/app/chart-data.service.ts:106-107 | filtering a history sorted by year leaves it sorted |
| ForecastProperties.SeedChoice | src/app/chart-data.service.ts:125-131 | the seed is the first record of the baseline year when one exists, and the first record of the history otherwise |
| ForecastProperties.SeedCarryOffset | src/app/chart-data.service.ts:132-135 | the offset the first simulated year starts from is the seed's emissions times one plus the offset rate |
| ForecastProperties.AdvanceRates | src/app/chart-data.service.ts:144-147 | one year multiplies activity by one plus the growth rate and emissions by one minus the offset rate |
| ForecastProperties.SimulateCarries | src/app/chart-data.service.ts:121-148 | row `k` of the forward loop holds the starting carry advanced `k + 1` times |
| ForecastProperties.IterateActivity | src/app/chart-data.service.ts:137-145 | `n` advances scale activity by the growth factor `n` times over |
| ForecastProperties.IterateEmissions | src/app/chart-data.service.ts:141-147 | `n` advances scale emissions by the offset factor `n` times over |
| ForecastProperties.IterateClosedForm | src/app/chart-data.service.ts:137-147 | after `n` advances, activity is the start times the `n`-th power of the growth factor, and emissions are the start times the `n`-th power of the offset factor |
| ForecastProperties.SeedClosedForm | src/app/chart-data.service.ts:132-147 | after `n` simulated years from a seed, activity and emissions are the seed's emissions compounded `n` times |
| ForecastProperties.SimulateSum | src/app/chart-data.service.ts:118-150 | the loop's final sum adds the offset of its starting carry and of every row but the last, a lag of one year |
| ForecastProperties.HistoricalTrajectoryAt | src/app/chart-data.service.ts:84-91 | the historical trajectory entry `k` is the formula at position `k` |
| ForecastProperties.ForwardTrajectoryAt | src/app/chart-data.service.ts:94-101 | the forward trajectory entry `k` is the formula at the calendar distance of its year from the baseline year |
| ForecastProperties.ForwardTrajectoryStep | src/app/chart-data.service.ts:94-101 | consecutive forward trajectory entries differ by exactly one yearly decrement |
| ForecastProperties.ForwardTrajectoryLast | src/app/chart-data.service.ts:94-101 | the last forward trajectory entry is the anchor cut by the reduction percentage |
| ForecastProperties.TrajectoryArrayForward | src/app/chart-data.service.ts:94-102 | entry `historical + k` of the array belongs to year `currentYear + k` |
| ForecastProperties.TrajectoryArrayHistorical | src/app/chart-data.service.ts:82-92 | entry `k` below the historical count is keyed by the position `k` |
| ForecastProperties.TrajectoryAtNext | src/app/chart-data.service.ts:95-100 | one more step along the trajectory formula subtracts one decrement |
| ForecastProperties.TrajectoryAtTarget | src/app/chart-data.service.ts:95-100 | at the target year the formula is the anchor times one minus the reduction percentage |
| ForecastProperties.TrajectoryAtEqual | src/app/chart-data.service.ts:85-90 | two trajectory points agree if and only if they are the same point or the trajectory is flat |
| ForecastProperties.ForecastHistoricalRow | src/app/chart-data.service.ts:106-114 | historical row `k` has the year of the `k`-th kept record, its emissions as both activity and emissions, and a zero offset |
| ForecastProperties.ForecastHistoricalTrajectory | src/app/chart-data.service.ts:84-112 | historical row `k` reads the trajectory at position `k` |
| ForecastProperties.ForecastFirstTrajectory | src/app/chart-data.service.ts:77-112 | the first historical row's trajectory is exactly the first record's emissions |
| ForecastProperties.ForecastHistoricalCalendar | src/app/chart-data.service.ts:84-91 | when the kept years run consecutively from the baseline, each historical row's trajectory is the formula at its calendar distance from the baseline |
| ForecastProperties.ForecastHistoricalPositional | src/app/chart-data.service.ts:84-91 | when a kept record's position differs from its calendar distance, its trajectory equals the calendar value if and only if the trajectory is flat |
| ForecastProperties.ForecastForwardIndex | src/app/chart-data.service.ts:163-164 | simulated row `k` of the forecast sits right after the historical rows, at index `h + k` |
| ForecastProperties.ForecastForwardSlice | src/app/chart-data.service.ts:163-164 | the rows after the historical ones are exactly the simulated rows |
| ForecastProperties.ForecastForwardYear | src/app/chart-data.service.ts:153-154 | simulated row `k` is labelled `currentYear + k` |
| ForecastProperties.ForecastForwardTrajectory | src/app/chart-data.service.ts:153-158 | simulated row `k` reads the trajectory formula at the calendar distance of `currentYear + k` from the baseline year |
| ForecastProperties.ForecastForwardEntry | src/app/chart-data.service.ts:158 | simulated row `k` reads the forward trajectory entry `k` |
| ForecastProperties.ForecastForwardCarry | src/app/chart-data.service.ts:121-160 | simulated row `k` holds the seed carry advanced `k + 1` times |
| ForecastProperties.ForecastRecurrence | src/app/chart-data.service.ts:125-148 | the first simulated row advances the seed carry, each later one advances the row before it, and each offset is activity minus emissions |
| ForecastProperties.ForwardTotal | src/app/chart-data.service.ts:118-150 | the loop's sum is zero with no simulated year, and otherwise the seed's offset plus the offsets of every simulated row but the last |
| ForecastProperties.ForecastTotalOffset | src/app/chart-data.service.ts:118-167 | the total is zero with no simulated year, and otherwise the seed's emissions times one plus the offset rate plus the offsets of every simulated row but the last |
| ForecastProperties.ForecastTargetYearTrajectory | src/app/chart-data.service.ts:94-101 | the last row is the target year, and its trajectory is the first record's emissions cut by the reduction percentage |
| ForecastProperties.ForecastTrajectoryStep | src/app/chart-data.service.ts:94-101 | consecutive simulated rows' trajectories differ by exactly one yearly decrement |
| ForecastProperties.ForecastRowYears | src/app/chart-data.service.ts:106-164 | the row years are those of the kept records, then consecutive years from the current year |
| ForecastProperties.JoinedYearsIncreasing | src/app/chart-data.service.ts:163-164 | sorted records followed by consecutive years are sorted if and only if the last record precedes the first of those years or one part is empty |
| ForecastProperties.ForecastYearsIncreasing | src/app/chart-data.service.ts:106-164 | for a history sorted by year, the rows are sorted by year if and only if there is no kept record, no simulated year, or the last kept year precedes the current year |
| ForecastProperties.ExampleKeptAndSeed | src/app/chart-data.service.ts:125-131 | the history 2019: 500, 2020: 230 is kept whole by baseline 2019 and seeded from its 2019 record |
| ForecastProperties.ExampleFirstYear | src/app/chart-data.service.ts:132-148 | with 5% growth and a 15% offset rate, a seed of 500 gives activity 525, emissions 425 and offset 100 |
| ForecastProperties.ExampleDecrement | src/app/chart-data.service.ts:88-90 | a 50% cut of 500 from 2019 to 2030 falls by 250/11 a year |
| ForecastProperties.ExampleTrajectory | src/app/chart-data.service.ts:95-100 | on that trajectory, 2024 is five decrements below 500, and 2030 is 250 |
| ForecastProperties.ExampleSkippedYear | src/app/chart-data.service.ts:82-91 | in the history 2019: 500, 2021: 400, the 2021 record is kept at position 1; position 1 of the trajectory is 475, while the calendar distance of 2021 would give 450 (with `ForecastHistoricalTrajectory`, position 1 is what its row reads) |

## Left out

- `_getServerData`, its `BehaviorSubject` cache and the rxjs plumbing of `getForecastEmissions` (src/app/chart-data.service.ts:11-60): these are I/O and observable glue. The fetched history is the parameter `data` of `GetForecastEmissions`, and the portfolio id is not modelled.
- `getChartOptions` and its legend callback (src/app/chart-data.service.ts:192-262): this is chart presentation settings.
- All of `src/app/app.component.ts`: this is chart registration, form validation, debouncing and colours. It is not part of this model.
- The clock read `new Date().getFullYear()` (src/app/chart-data.service.ts:80): it is the parameter `currentYear`.
- `parseInt` of year strings and `toString` of year labels: years and labels are integers, so malformed year strings are out of scope.
- Floating point: numbers are exact rationals, so rounding is not modelled, and neither are the NaN and Infinity values that the unguarded divisions produce.
- GetChartData: requires `DivisionDefined`. It excludes exactly the inputs for which the source divides by zero (target year equal to baseline year with at least one trajectory entry), where the source returns NaN or Infinity, because IEEE arithmetic is not modelled.
- The expression statement at src/app/chart-data.service.ts:151: it reads the array and discards the value, so it has no effect.
