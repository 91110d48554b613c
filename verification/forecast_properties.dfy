/**
 Properties of the emissions forecast: the shape and order of the rows, the
 recurrence the simulated years follow and its closed form, the one-step lag of
 the offset total, and where the target trajectory is read.
 */
module ForecastProperties {
  import opened Model
  import opened ChartDataService

  // ---------------------------------------------------------------------------
  // Reference definitions
  // ---------------------------------------------------------------------------

  /** `x` raised to the power `n`. */
  function Pow(x: real, n: nat): real {
    if n == 0 then 1.0 else x * Pow(x, n - 1)
  }

  /** `start` multiplied by `factor`, `n` times over. */
  function Compounded(start: real, factor: real, n: nat): real {
    if n == 0 then start else Compounded(start, factor, n - 1) * factor
  }

  /** The carry after `n` simulated years starting from `c`. */
  function Iterate(c: Carry, p: Form, n: nat): Carry {
    if n == 0 then c else Advance(Iterate(c, p, n - 1), p)
  }

  /** Sum of the offsets of `rows`. */
  function SumOffsets(rows: seq<ChartDataColumn>): real {
    if rows == [] then 0.0 else rows[0].forecastedOffset + SumOffsets(rows[1..])
  }

  ghost predicate IncreasingRecordYears(data: seq<EmissionsData>) {
    forall i, j :: 0 <= i < j < |data| ==> data[i].year < data[j].year
  }

  ghost predicate IncreasingRowYears(rows: seq<ChartDataColumn>) {
    forall i, j :: 0 <= i < j < |rows| ==> rows[i].year < rows[j].year
  }

  // ---------------------------------------------------------------------------
  // The baseline filter
  // ---------------------------------------------------------------------------

  /** The kept records are exactly the records of the baseline year or later,
      and all records are kept exactly when none is earlier than the baseline. */
  lemma {:induction false} AtOrAfterMembers(data: seq<EmissionsData>, baselineYear: int)
    ensures forall x :: x in AtOrAfter(data, baselineYear) <==> x in data && x.year >= baselineYear
    ensures |AtOrAfter(data, baselineYear)| == |data| <==> forall j :: 0 <= j < |data| ==> data[j].year >= baselineYear
    decreases |data|
  {
    if data != [] {
      AtOrAfterMembers(data[1..], baselineYear);
      assert data == [data[0]] + data[1..];
      if data[0].year < baselineYear {
        assert |AtOrAfter(data, baselineYear)| < |data|;
      } else {
        assert (forall j :: 0 <= j < |data| ==> data[j].year >= baselineYear)
           <==> (forall j :: 0 <= j < |data[1..]| ==> data[1..][j].year >= baselineYear);
      }
    }
  }

  /** The seed is the first record of the baseline year when there is one, and
      the first record overall otherwise. */
  lemma SeedChoice(data: seq<EmissionsData>, baselineYear: int)
    requires data != []
    ensures var seed := Seed(data, baselineYear);
            if exists j :: 0 <= j < |data| && data[j].year == baselineYear then
              exists i :: 0 <= i < |data| && data[i] == seed && seed.year == baselineYear
                && forall j :: 0 <= j < i ==> data[j].year != baselineYear
            else seed == data[0]
  {
    var found := FindYearFrom(data, baselineYear, 0);
    if found.Some? {
      assert data[found.value] == Seed(data, baselineYear);
    }
  }

  /** Filtering distributes over concatenation, so it keeps the input order. */
  lemma {:induction false} AtOrAfterConcat(a: seq<EmissionsData>, b: seq<EmissionsData>, baselineYear: int)
    ensures AtOrAfter(a + b, baselineYear) == AtOrAfter(a, baselineYear) + AtOrAfter(b, baselineYear)
    decreases |a|
  {
    if a == [] {
      assert a + b == b;
    } else {
      assert (a + b)[1..] == a[1..] + b;
      AtOrAfterConcat(a[1..], b, baselineYear);
    }
  }

  /** Filtering sorted records leaves them sorted. */
  lemma {:induction false} AtOrAfterIncreasing(data: seq<EmissionsData>, baselineYear: int)
    requires IncreasingRecordYears(data)
    ensures IncreasingRecordYears(AtOrAfter(data, baselineYear))
    decreases |data|
  {
    if data != [] {
      var tail := data[1..];
      TailIncreasing(data);
      AtOrAfterIncreasing(tail, baselineYear);
      if data[0].year >= baselineYear {
        LaterYears(data);
        AtOrAfterMembers(tail, baselineYear);
        ConsIncreasing(data[0], AtOrAfter(tail, baselineYear));
      }
    }
  }

  /** Dropping the first record keeps the rest sorted. */
  lemma TailIncreasing(data: seq<EmissionsData>)
    requires data != [] && IncreasingRecordYears(data)
    ensures IncreasingRecordYears(data[1..])
  {
    var tail := data[1..];
    forall i, j | 0 <= i < j < |tail| ensures tail[i].year < tail[j].year {
      assert tail[i] == data[i + 1] && tail[j] == data[j + 1];
    }
  }

  /** A record before sorted records, all of later years, keeps them sorted. */
  lemma ConsIncreasing(first: EmissionsData, rest: seq<EmissionsData>)
    requires IncreasingRecordYears(rest)
    requires forall x :: x in rest ==> x.year > first.year
    ensures IncreasingRecordYears([first] + rest)
  {
    var all := [first] + rest;
    forall i, j | 0 <= i < j < |all| ensures all[i].year < all[j].year {
      assert all[j] == rest[j - 1];
      if i > 0 {
        assert all[i] == rest[i - 1];
      } else {
        assert rest[j - 1] in rest;
      }
    }
  }

  /** In sorted records, everything after the first comes in a later year. */
  lemma LaterYears(data: seq<EmissionsData>)
    requires data != [] && IncreasingRecordYears(data)
    ensures forall x :: x in data[1..] ==> x.year > data[0].year
  {
    forall x | x in data[1..] ensures x.year > data[0].year {
      var m :| 0 <= m < |data[1..]| && data[1..][m] == x;
      assert data[m + 1] == x;
    }
  }

  // ---------------------------------------------------------------------------
  // The simulation loop
  // ---------------------------------------------------------------------------

  /** Row `k` of the loop holds the carry after `k + 1` advances of `last`. */
  lemma {:induction false} SimulateCarries(year: int, targetYear: int, last: Carry, sum: real, p: Form,
                                           trajectory: seq<real>, at: nat, k: nat)
    requires at + ForwardCount(year, targetYear) <= |trajectory|
    requires k < ForwardCount(year, targetYear)
    ensures CarryOf(Simulate(year, targetYear, last, sum, p, trajectory, at).rows[k]) == Iterate(last, p, k + 1)
    decreases k
  {
    var next := Advance(last, p);
    if k > 0 {
      SimulateCarries(year + 1, targetYear, next, sum + last.offset, p, trajectory, at + 1, k - 1);
      IterateShift(last, p, k);
    }
  }

  /** Advancing once and then `n` times is advancing `n + 1` times. */
  lemma {:induction false} IterateShift(c: Carry, p: Form, n: nat)
    ensures Iterate(Advance(c, p), p, n) == Iterate(c, p, n + 1)
    decreases n
  {
    if n > 0 {
      IterateShift(c, p, n - 1);
    }
  }

  /** The loop's final sum adds the entry offset of every simulated year: the
      carry it started from, then every row but the last. */
  lemma {:induction false} SimulateSum(year: int, targetYear: int, last: Carry, sum: real, p: Form,
                                       trajectory: seq<real>, at: nat)
    requires at + ForwardCount(year, targetYear) <= |trajectory|
    ensures var r := Simulate(year, targetYear, last, sum, p, trajectory, at);
            var n := |r.rows|;
            r.sumOffset == if n == 0 then sum else sum + last.offset + SumOffsets(r.rows[..n - 1])
    decreases targetYear - year + 1
  {
    if year <= targetYear {
      var next := Advance(last, p);
      var r := Simulate(year, targetYear, last, sum, p, trajectory, at);
      var rest := Simulate(year + 1, targetYear, next, sum + last.offset, p, trajectory, at + 1);
      SimulateSum(year + 1, targetYear, next, sum + last.offset, p, trajectory, at + 1);
      var n := |r.rows|;
      if n > 1 {
        assert r.rows[..n - 1] == [r.rows[0]] + rest.rows[..n - 2];
        assert SumOffsets(r.rows[..n - 1]) == r.rows[0].forecastedOffset + SumOffsets(rest.rows[..n - 2]);
      } else {
        assert r.rows[..n - 1] == [];
      }
    }
  }

  /** Closed form of the recurrence: activity compounds the growth rate and
      emissions compound the offset rate. */
  lemma {:induction false} IterateClosedForm(c: Carry, p: Form, n: nat)
    ensures Iterate(c, p, n).activity == c.activity * Pow(1.0 + p.increaseActivity / 100.0, n)
    ensures Iterate(c, p, n).emissions == c.emissions * Pow(1.0 - p.emissionOffsetYear / 100.0, n)
  {
    IterateActivity(c, p, n);
    IterateEmissions(c, p, n);
    CompoundedPow(c.activity, 1.0 + p.increaseActivity / 100.0, n);
    CompoundedPow(c.emissions, 1.0 - p.emissionOffsetYear / 100.0, n);
  }

  /** The recurrence unrolled for activity: `n` advances compound it `n` times
      by the growth factor. */
  lemma {:induction false} IterateActivity(c: Carry, p: Form, n: nat)
    ensures Iterate(c, p, n).activity == Compounded(c.activity, 1.0 + p.increaseActivity / 100.0, n)
    decreases n
  {
    if n > 0 {
      var before := Iterate(c, p, n - 1);
      IterateActivity(c, p, n - 1);
      AdvanceRates(before, p);
      ScaleEqual(before.activity, Compounded(c.activity, 1.0 + p.increaseActivity / 100.0, n - 1), 1.0 + p.increaseActivity / 100.0);
    }
  }

  /** The recurrence unrolled for emissions: `n` advances compound them `n`
      times by the offset factor. */
  lemma {:induction false} IterateEmissions(c: Carry, p: Form, n: nat)
    ensures Iterate(c, p, n).emissions == Compounded(c.emissions, 1.0 - p.emissionOffsetYear / 100.0, n)
    decreases n
  {
    if n > 0 {
      var before := Iterate(c, p, n - 1);
      IterateEmissions(c, p, n - 1);
      AdvanceRates(before, p);
      ScaleEqual(before.emissions, Compounded(c.emissions, 1.0 - p.emissionOffsetYear / 100.0, n - 1), 1.0 - p.emissionOffsetYear / 100.0);
    }
  }

  /** Compounding `n` times is multiplying by the `n`-th power. */
  lemma {:induction false} CompoundedPow(start: real, factor: real, n: nat)
    ensures Compounded(start, factor, n) == start * Pow(factor, n)
    decreases n
  {
    if n > 0 {
      CompoundedPow(start, factor, n - 1);
      CompoundStep(start, Compounded(start, factor, n - 1), Compounded(start, factor, n), factor, Pow(factor, n - 1));
    }
  }

  /** The closed form from a seed: after `n` simulated years, activity and
      emissions are the seed compounded `n` times. */
  lemma SeedClosedForm(seed: real, p: Form, n: nat)
    ensures Iterate(SeedCarry(seed, p), p, n).activity == seed * Pow(1.0 + p.increaseActivity / 100.0, n)
    ensures Iterate(SeedCarry(seed, p), p, n).emissions == seed * Pow(1.0 - p.emissionOffsetYear / 100.0, n)
  {
    IterateClosedForm(SeedCarry(seed, p), p, n);
  }

  /** One simulated year scales activity by the growth factor and emissions by
      the offset factor. */
  lemma AdvanceRates(last: Carry, p: Form)
    ensures Advance(last, p).activity == last.activity * (1.0 + p.increaseActivity / 100.0)
    ensures Advance(last, p).emissions == last.emissions * (1.0 - p.emissionOffsetYear / 100.0)
  {
  }

  /** The seed offset is the seed scaled by one plus the offset rate. */
  lemma SeedCarryOffset(seed: real, p: Form)
    ensures SeedCarry(seed, p).offset == seed * (1.0 + p.emissionOffsetYear / 100.0)
  {
  }

  /** Equal values scaled by the same factor stay equal. */
  lemma ScaleEqual(a: real, b: real, factor: real)
    requires a == b
    ensures a * factor == b * factor
  {
  }

  /** One compounding step: if `before` is `start` compounded by `power` and
      `after` is `before` times `factor`, then `after` is `start` compounded by
      `factor * power`. */
  lemma CompoundStep(start: real, before: real, after: real, factor: real, power: real)
    requires before == start * power && after == before * factor
    ensures after == start * (factor * power)
  {
  }

  // ---------------------------------------------------------------------------
  // The forecast
  // ---------------------------------------------------------------------------

  /** Entry `k` of the kept records' trajectory is the value `k` steps along. */
  lemma {:induction false} HistoricalTrajectoryAt(initial: real, historical: nat, p: Form, k: nat)
    requires p.targetYear != p.baselineYear && k < historical
    ensures HistoricalTrajectory(initial, historical, p)[k] == TrajectoryAt(initial, k, p)
    decreases historical
  {
    if k < historical - 1 {
      HistoricalTrajectoryAt(initial, historical - 1, p, k);
    }
  }

  /** Entry `k` of the simulated years' trajectory from `year` belongs to year
      `year + k` and is keyed by that year's distance from the baseline. */
  lemma {:induction false} ForwardTrajectoryAt(initial: real, year: int, p: Form, k: nat)
    requires p.targetYear != p.baselineYear && k < ForwardCount(year, p.targetYear)
    ensures ForwardTrajectory(initial, year, p)[k] == TrajectoryAt(initial, year + k - p.baselineYear, p)
    decreases k
  {
    if k > 0 {
      ForwardTrajectoryAt(initial, year + 1, p, k - 1);
    }
  }

  /** Consecutive simulated years are one decrement apart on the trajectory. */
  lemma ForwardTrajectoryStep(initial: real, year: int, p: Form, k: nat)
    requires p.targetYear != p.baselineYear && k + 1 < ForwardCount(year, p.targetYear)
    ensures ForwardTrajectory(initial, year, p)[k + 1]
            == ForwardTrajectory(initial, year, p)[k] - TrajectoryDecrement(initial, p)
  {
    ForwardTrajectoryAt(initial, year, p, k);
    ForwardTrajectoryAt(initial, year, p, k + 1);
    TrajectoryAtNext(initial, year + k - p.baselineYear, p);
  }

  /** The last forward entry, that of the target year, is the anchor cut by
      the reduction percentage. */
  lemma ForwardTrajectoryLast(initial: real, year: int, p: Form)
    requires p.targetYear != p.baselineYear && year <= p.targetYear
    ensures var t := ForwardTrajectory(initial, year, p);
            t[|t| - 1] == initial * (1.0 - p.emissionReductionTarget / 100.0)
  {
    var n := ForwardCount(year, p.targetYear);
    ForwardTrajectoryAt(initial, year, p, n - 1);
    TrajectoryAtTarget(initial, p);
  }

  /** Entry `historical + k` of the trajectory array belongs to year
      `currentYear + k` and is keyed by that year's distance from the baseline. */
  lemma TrajectoryArrayForward(initial: real, historical: nat, currentYear: int, p: Form, k: nat)
    requires p.targetYear != p.baselineYear
    requires k < ForwardCount(currentYear, p.targetYear)
    ensures TrajectoryArray(initial, historical, currentYear, p)[historical + k]
            == TrajectoryAt(initial, currentYear + k - p.baselineYear, p)
  {
    ForwardTrajectoryAt(initial, currentYear, p, k);
  }

  /** Entry `k < historical` of the trajectory array is keyed by the position `k`. */
  lemma TrajectoryArrayHistorical(initial: real, historical: nat, currentYear: int, p: Form, k: nat)
    requires p.targetYear != p.baselineYear
    requires k < historical
    ensures TrajectoryArray(initial, historical, currentYear, p)[k] == TrajectoryAt(initial, k, p)
  {
    HistoricalTrajectoryAt(initial, historical, p, k);
  }

  /** A non-empty history's forecast is its historical rows followed by the
      forward simulation, whose running sum is the total. */
  lemma ForecastParts(data: seq<EmissionsData>, p: Form, currentYear: int)
    requires DivisionDefined(data, p, currentYear)
    requires data != []
    ensures var r := GetChartData(data, p, currentYear);
            var kept := AtOrAfter(data, p.baselineYear);
            var forward := ForecastForward(data, p, currentYear);
            && r.chartData == RealData(kept, TrajectoryArray(data[0].emissions, |kept|, currentYear, p)) + forward.rows
            && r.totalCarbonOffset == forward.sumOffset
  {
  }

  /** Historical row `k` restates the `k`-th kept record: its year, its
      emissions as both activity and emissions, and no offset. */
  lemma ForecastHistoricalRow(data: seq<EmissionsData>, p: Form, currentYear: int, k: nat)
    requires DivisionDefined(data, p, currentYear)
    requires data != [] && k < |AtOrAfter(data, p.baselineYear)|
    ensures var row := GetChartData(data, p, currentYear).chartData[k];
            var record := AtOrAfter(data, p.baselineYear)[k];
            && row.year == record.year
            && row.forecastedEmissions == record.emissions
            && row.forecastedActivity == record.emissions
            && row.forecastedOffset == 0.0
  {
    ForecastParts(data, p, currentYear);
  }

  /** The trajectory of historical row `k` is keyed by the position `k`, not by
      the record's year. */
  lemma ForecastHistoricalTrajectory(data: seq<EmissionsData>, p: Form, currentYear: int, k: nat)
    requires DivisionDefined(data, p, currentYear)
    requires data != [] && k < |AtOrAfter(data, p.baselineYear)|
    ensures p.targetYear != p.baselineYear
    ensures GetChartData(data, p, currentYear).chartData[k].targetTrayectory
            == TrajectoryAt(data[0].emissions, k, p)
  {
    var kept := AtOrAfter(data, p.baselineYear);
    ForecastParts(data, p, currentYear);
    TrajectoryArrayHistorical(data[0].emissions, |kept|, currentYear, p, k);
  }

  /** The first historical row sits exactly on the anchor, `data[0].emissions`. */
  lemma ForecastFirstTrajectory(data: seq<EmissionsData>, p: Form, currentYear: int)
    requires DivisionDefined(data, p, currentYear)
    requires data != [] && AtOrAfter(data, p.baselineYear) != []
    ensures GetChartData(data, p, currentYear).chartData[0].targetTrayectory == data[0].emissions
  {
    ForecastHistoricalTrajectory(data, p, currentYear, 0);
  }

  /** The `k`-th simulated row of a forecast is the `k`-th row of its forward
      simulation. */
  lemma ForecastForwardIndex(data: seq<EmissionsData>, p: Form, currentYear: int, k: nat)
    requires DivisionDefined(data, p, currentYear)
    requires data != [] && k < ForwardCount(currentYear, p.targetYear)
    ensures GetChartData(data, p, currentYear).chartData[|AtOrAfter(data, p.baselineYear)| + k]
            == ForecastForward(data, p, currentYear).rows[k]
  {
    ForecastParts(data, p, currentYear);
  }

  /** Simulated row `k` is labelled `currentYear + k`. */
  lemma ForecastForwardYear(data: seq<EmissionsData>, p: Form, currentYear: int, k: nat)
    requires DivisionDefined(data, p, currentYear)
    requires data != [] && k < ForwardCount(currentYear, p.targetYear)
    ensures GetChartData(data, p, currentYear).chartData[|AtOrAfter(data, p.baselineYear)| + k].year
            == currentYear + k
  {
    ForecastForwardIndex(data, p, currentYear, k);
  }

  /** Simulated row `k` reads the trajectory at its calendar distance from the
      baseline year. */
  lemma ForecastForwardTrajectory(data: seq<EmissionsData>, p: Form, currentYear: int, k: nat)
    requires DivisionDefined(data, p, currentYear)
    requires data != [] && k < ForwardCount(currentYear, p.targetYear)
    ensures p.targetYear != p.baselineYear
    ensures GetChartData(data, p, currentYear).chartData[|AtOrAfter(data, p.baselineYear)| + k].targetTrayectory
            == TrajectoryAt(data[0].emissions, currentYear + k - p.baselineYear, p)
  {
    var kept := AtOrAfter(data, p.baselineYear);
    ForecastForwardIndex(data, p, currentYear, k);
    TrajectoryArrayForward(data[0].emissions, |kept|, currentYear, p, k);
  }

  /** Simulated row `k` reads entry `k` of the forward part of the trajectory. */
  lemma ForecastForwardEntry(data: seq<EmissionsData>, p: Form, currentYear: int, k: nat)
    requires DivisionDefined(data, p, currentYear)
    requires data != [] && k < ForwardCount(currentYear, p.targetYear)
    ensures p.targetYear != p.baselineYear
    ensures GetChartData(data, p, currentYear).chartData[|AtOrAfter(data, p.baselineYear)| + k].targetTrayectory
            == ForwardTrajectory(data[0].emissions, currentYear, p)[k]
  {
    ForecastForwardIndex(data, p, currentYear, k);
  }

  /** Simulated row `k` holds the seed carry advanced `k + 1` times. */
  lemma ForecastForwardCarry(data: seq<EmissionsData>, p: Form, currentYear: int, k: nat)
    requires DivisionDefined(data, p, currentYear)
    requires data != [] && k < ForwardCount(currentYear, p.targetYear)
    ensures CarryOf(GetChartData(data, p, currentYear).chartData[|AtOrAfter(data, p.baselineYear)| + k])
            == Iterate(SeedCarry(Seed(data, p.baselineYear).emissions, p), p, k + 1)
  {
    var kept := AtOrAfter(data, p.baselineYear);
    var trajectory := TrajectoryArray(data[0].emissions, |kept|, currentYear, p);
    var seed := SeedCarry(Seed(data, p.baselineYear).emissions, p);
    ForecastForwardIndex(data, p, currentYear, k);
    SimulateCarries(currentYear, p.targetYear, seed, 0.0, p, trajectory, |kept|, k);
  }

  /** The recurrence between consecutive simulated rows: the first advances the
      seed carry, every later one advances the row before it, and each row's
      offset is its activity minus its emissions. */
  lemma ForecastRecurrence(data: seq<EmissionsData>, p: Form, currentYear: int, k: nat)
    requires DivisionDefined(data, p, currentYear)
    requires data != [] && k < ForwardCount(currentYear, p.targetYear)
    ensures var h := |AtOrAfter(data, p.baselineYear)|;
            var rows := GetChartData(data, p, currentYear).chartData;
            var seed := Seed(data, p.baselineYear).emissions;
            && (k == 0 ==> CarryOf(rows[h]) == Advance(SeedCarry(seed, p), p))
            && (k > 0 ==> CarryOf(rows[h + k]) == Advance(CarryOf(rows[h + k - 1]), p))
            && rows[h + k].forecastedOffset == rows[h + k].forecastedActivity - rows[h + k].forecastedEmissions
  {
    ForecastForwardCarry(data, p, currentYear, k);
    if k > 0 {
      ForecastForwardCarry(data, p, currentYear, k - 1);
    }
  }

  /** The offset total lags the rows by one year: it is the seed grown by the
      offset rate plus the offsets of every simulated row except the last, and
      zero when no year is simulated. */
  lemma ForecastTotalOffset(data: seq<EmissionsData>, p: Form, currentYear: int)
    requires DivisionDefined(data, p, currentYear)
    requires data != []
    ensures var r := GetChartData(data, p, currentYear);
            var h := |AtOrAfter(data, p.baselineYear)|;
            var n := ForwardCount(currentYear, p.targetYear);
            var seed := Seed(data, p.baselineYear).emissions;
            r.totalCarbonOffset ==
              if n == 0 then 0.0
              else seed * (1.0 + p.emissionOffsetYear / 100.0) + SumOffsets(r.chartData[h..h + n - 1])
  {
    var h := |AtOrAfter(data, p.baselineYear)|;
    var n := ForwardCount(currentYear, p.targetYear);
    var r := GetChartData(data, p, currentYear);
    var forward := ForecastForward(data, p, currentYear);
    ForwardTotal(data, p, currentYear);
    ForecastParts(data, p, currentYear);
    if n > 0 {
      ForecastForwardSlice(data, p, currentYear);
      assert r.chartData[h..h + n - 1] == forward.rows[..n - 1];
    }
  }

  /** The running sum of the forward simulation of a non-empty history. */
  lemma ForwardTotal(data: seq<EmissionsData>, p: Form, currentYear: int)
    requires DivisionDefined(data, p, currentYear)
    requires data != []
    ensures var f := ForecastForward(data, p, currentYear);
            var n := |f.rows|;
            var seed := Seed(data, p.baselineYear).emissions;
            f.sumOffset ==
              if n == 0 then 0.0
              else seed * (1.0 + p.emissionOffsetYear / 100.0) + SumOffsets(f.rows[..n - 1])
  {
    var kept := AtOrAfter(data, p.baselineYear);
    var trajectory := TrajectoryArray(data[0].emissions, |kept|, currentYear, p);
    var seed := Seed(data, p.baselineYear).emissions;
    SimulateSum(currentYear, p.targetYear, SeedCarry(seed, p), 0.0, p, trajectory, |kept|);
    SeedCarryOffset(seed, p);
  }

  /** The simulated rows of a forecast, as a slice, are its forward simulation. */
  lemma ForecastForwardSlice(data: seq<EmissionsData>, p: Form, currentYear: int)
    requires DivisionDefined(data, p, currentYear)
    requires data != []
    ensures var h := |AtOrAfter(data, p.baselineYear)|;
            var r := GetChartData(data, p, currentYear);
            r.chartData[h..] == ForecastForward(data, p, currentYear).rows
  {
    ForecastParts(data, p, currentYear);
  }

  /** The last simulated row, the target year, reaches the reduction goal:
      the anchor cut by the reduction percentage. */
  lemma ForecastTargetYearTrajectory(data: seq<EmissionsData>, p: Form, currentYear: int)
    requires DivisionDefined(data, p, currentYear)
    requires data != [] && currentYear <= p.targetYear
    ensures var r := GetChartData(data, p, currentYear);
            r.chartData[|r.chartData| - 1].year == p.targetYear
            && r.chartData[|r.chartData| - 1].targetTrayectory
               == data[0].emissions * (1.0 - p.emissionReductionTarget / 100.0)
  {
    var n := ForwardCount(currentYear, p.targetYear);
    ForecastForwardYear(data, p, currentYear, n - 1);
    ForecastForwardEntry(data, p, currentYear, n - 1);
    ForwardTrajectoryLast(data[0].emissions, currentYear, p);
  }

  /** The trajectory formula evaluated at the target year. */
  lemma TrajectoryAtTarget(initial: real, p: Form)
    requires p.targetYear != p.baselineYear
    ensures TrajectoryAt(initial, p.targetYear - p.baselineYear, p) == initial * (1.0 - p.emissionReductionTarget / 100.0)
  {
    var d := (p.targetYear - p.baselineYear) as real;
    var cut := initial * p.emissionReductionTarget / 100.0;
    assert d * (cut / d) == cut;
  }

  /** Equal steps: each simulated row's trajectory is one decrement below the
      previous simulated row's. */
  lemma ForecastTrajectoryStep(data: seq<EmissionsData>, p: Form, currentYear: int, k: nat)
    requires DivisionDefined(data, p, currentYear)
    requires data != [] && k + 1 < ForwardCount(currentYear, p.targetYear)
    ensures p.targetYear != p.baselineYear
    ensures var h := |AtOrAfter(data, p.baselineYear)|;
            var rows := GetChartData(data, p, currentYear).chartData;
            rows[h + k + 1].targetTrayectory
              == rows[h + k].targetTrayectory - TrajectoryDecrement(data[0].emissions, p)
  {
    ForecastForwardEntry(data, p, currentYear, k);
    ForecastForwardEntry(data, p, currentYear, k + 1);
    ForwardTrajectoryStep(data[0].emissions, currentYear, p, k);
  }

  /** One more step along the trajectory subtracts one decrement. */
  lemma TrajectoryAtNext(initial: real, offset: int, p: Form)
    requires p.targetYear != p.baselineYear
    ensures TrajectoryAt(initial, offset + 1, p) == TrajectoryAt(initial, offset, p) - TrajectoryDecrement(initial, p)
  {
    var d := TrajectoryDecrement(initial, p);
    assert (offset + 1) as real * d == offset as real * d + d;
  }

  /** When the kept records are exactly the consecutive years from the baseline,
      the positional key of a historical row equals its calendar distance from
      the baseline year. */
  lemma ForecastHistoricalCalendar(data: seq<EmissionsData>, p: Form, currentYear: int, k: nat)
    requires DivisionDefined(data, p, currentYear)
    requires data != []
    requires var kept := AtOrAfter(data, p.baselineYear);
             forall j :: 0 <= j < |kept| ==> kept[j].year == p.baselineYear + j
    requires k < |AtOrAfter(data, p.baselineYear)|
    ensures p.targetYear != p.baselineYear
    ensures var row := GetChartData(data, p, currentYear).chartData[k];
            row.targetTrayectory == TrajectoryAt(data[0].emissions, row.year - p.baselineYear, p)
  {
    ForecastHistoricalRow(data, p, currentYear, k);
    ForecastHistoricalTrajectory(data, p, currentYear, k);
  }

  /** Conversely, a historical row whose position differs from its calendar
      distance to the baseline year reads a different trajectory value than
      that distance would give, unless the trajectory is flat. */
  lemma ForecastHistoricalPositional(data: seq<EmissionsData>, p: Form, currentYear: int, k: nat)
    requires DivisionDefined(data, p, currentYear)
    requires data != [] && k < |AtOrAfter(data, p.baselineYear)|
    requires AtOrAfter(data, p.baselineYear)[k].year - p.baselineYear != k
    ensures p.targetYear != p.baselineYear
    ensures var row := GetChartData(data, p, currentYear).chartData[k];
            row.targetTrayectory == TrajectoryAt(data[0].emissions, row.year - p.baselineYear, p)
            <==> TrajectoryDecrement(data[0].emissions, p) == 0.0
  {
    ForecastHistoricalRow(data, p, currentYear, k);
    ForecastHistoricalTrajectory(data, p, currentYear, k);
    var year := AtOrAfter(data, p.baselineYear)[k].year;
    TrajectoryAtEqual(data[0].emissions, k, year - p.baselineYear, p);
  }

  /** Two points of the trajectory agree exactly when they are the same point
      or the trajectory is flat. */
  lemma TrajectoryAtEqual(initial: real, a: int, b: int, p: Form)
    requires p.targetYear != p.baselineYear
    ensures TrajectoryAt(initial, a, p) == TrajectoryAt(initial, b, p)
            <==> a == b || TrajectoryDecrement(initial, p) == 0.0
  {
    var d := TrajectoryDecrement(initial, p);
    assert TrajectoryAt(initial, a, p) - TrajectoryAt(initial, b, p) == (b - a) as real * d;
    if a != b && d != 0.0 {
      assert (b - a) as real * d != 0.0;
    }
  }

  /** With records sorted by year, the rows are sorted by year exactly when the
      last kept year comes before the first simulated year (or one part is empty). */
  lemma ForecastYearsIncreasing(data: seq<EmissionsData>, p: Form, currentYear: int)
    requires DivisionDefined(data, p, currentYear)
    requires data != [] && IncreasingRecordYears(data)
    ensures var kept := AtOrAfter(data, p.baselineYear);
            IncreasingRowYears(GetChartData(data, p, currentYear).chartData)
            <==> (kept == [] || currentYear > p.targetYear || kept[|kept| - 1].year < currentYear)
  {
    AtOrAfterIncreasing(data, p.baselineYear);
    ForecastRowYears(data, p, currentYear);
    JoinedYearsIncreasing(GetChartData(data, p, currentYear).chartData, AtOrAfter(data, p.baselineYear),
                          currentYear, ForwardCount(currentYear, p.targetYear));
  }

  /** The years of the rows: those of the kept records, then consecutive years
      from `currentYear`. */
  lemma ForecastRowYears(data: seq<EmissionsData>, p: Form, currentYear: int)
    requires DivisionDefined(data, p, currentYear)
    requires data != []
    ensures var kept := AtOrAfter(data, p.baselineYear);
            var rows := GetChartData(data, p, currentYear).chartData;
            && (forall j :: 0 <= j < |kept| ==> rows[j].year == kept[j].year)
            && (forall j :: |kept| <= j < |rows| ==> rows[j].year == currentYear + (j - |kept|))
  {
    var kept := AtOrAfter(data, p.baselineYear);
    var h := |kept|;
    var rows := GetChartData(data, p, currentYear).chartData;
    forall j | 0 <= j < h ensures rows[j].year == kept[j].year {
      ForecastHistoricalRow(data, p, currentYear, j);
    }
    forall j | h <= j < |rows| ensures rows[j].year == currentYear + (j - h) {
      ForecastForwardYear(data, p, currentYear, j - h);
    }
  }

  /** Rows made of sorted records followed by `n` consecutive years from
      `first` are sorted by year exactly when the last record precedes `first`,
      or one of the two parts is empty. */
  lemma JoinedYearsIncreasing(rows: seq<ChartDataColumn>, kept: seq<EmissionsData>, first: int, n: nat)
    requires IncreasingRecordYears(kept) && |rows| == |kept| + n
    requires forall j :: 0 <= j < |kept| ==> rows[j].year == kept[j].year
    requires forall j :: |kept| <= j < |rows| ==> rows[j].year == first + (j - |kept|)
    ensures IncreasingRowYears(rows) <==> (kept == [] || n == 0 || kept[|kept| - 1].year < first)
  {
    var h := |kept|;
    if kept == [] || n == 0 || kept[h - 1].year < first {
      forall i, j | 0 <= i < j < |rows| ensures rows[i].year < rows[j].year {
        if j < h {
          assert rows[i].year == kept[i].year && rows[j].year == kept[j].year;
        } else if i >= h {
          assert rows[i].year == first + (i - h) && rows[j].year == first + (j - h);
        } else {
          assert rows[j].year == first + (j - h);
          assert rows[i].year == kept[i].year;
          assert i == h - 1 || kept[i].year < kept[h - 1].year;
        }
      }
    } else {
      assert rows[h - 1].year == kept[h - 1].year;
      assert rows[h].year == first;
    }
  }

  // ---------------------------------------------------------------------------
  // Concrete cases
  // ---------------------------------------------------------------------------

  /** The two-record fixture kept whole by the 2019 baseline, seeded from its
      first record. */
  lemma ExampleKeptAndSeed(data: seq<EmissionsData>)
    requires data == [EmissionsData(2019, 500.0), EmissionsData(2020, 230.0)]
    ensures AtOrAfter(data, 2019) == data
    ensures Seed(data, 2019) == data[0]
  {
    AtOrAfterMembers(data, 2019);
    var kept := AtOrAfter(data, 2019);
    assert kept == data by {
      assert kept[0] in data && kept[1] in data;
      AtOrAfterIncreasing(data, 2019);
    }
    SeedChoice(data, 2019);
  }

  /** The fixture's first simulated year from a seed of 500. */
  lemma ExampleFirstYear(p: Form)
    requires p == Form(2019, 2030, 50.0, 5.0, 15.0)
    ensures Advance(SeedCarry(500.0, p), p) == Carry(525.0, 425.0, 100.0)
  {
    assert 500.0 * p.increaseActivity / 100.0 == 25.0;
    assert 500.0 * p.emissionOffsetYear / 100.0 == 75.0;
  }

  /** The yearly decrement of the fixture's trajectory. */
  lemma ExampleDecrement(p: Form)
    requires p == Form(2019, 2030, 50.0, 5.0, 15.0)
    ensures TrajectoryDecrement(500.0, p) == 250.0 / 11.0
  {
    assert (p.targetYear - p.baselineYear) as real == 11.0;
    assert 500.0 * p.emissionReductionTarget / 100.0 == 250.0;
  }

  /** The fixture's trajectory: five decrements below 500 in 2024, keyed by
      the calendar distance from 2019, and half of 500 in the target year. */
  lemma ExampleTrajectory(p: Form)
    requires p == Form(2019, 2030, 50.0, 5.0, 15.0)
    ensures TrajectoryAt(500.0, 2024 - 2019, p) == 500.0 - 5.0 * (250.0 / 11.0)
    ensures TrajectoryAt(500.0, 2030 - 2019, p) == 250.0
  {
    ExampleDecrement(p);
    TrajectoryAtTarget(500.0, p);
  }

  /** A history with 2020 missing: its 2021 record is kept at position 1, and
      the trajectory value at position 1 differs from the one at the calendar
      distance 2 of 2021 from the 2019 baseline. */
  lemma ExampleSkippedYear(data: seq<EmissionsData>, p: Form)
    requires data == [EmissionsData(2019, 500.0), EmissionsData(2021, 400.0)]
    requires p == Form(2019, 2029, 50.0, 0.0, 0.0)
    ensures AtOrAfter(data, p.baselineYear) == data
    ensures TrajectoryAt(data[0].emissions, 1, p) == 475.0
    ensures TrajectoryAt(data[0].emissions, data[1].year - p.baselineYear, p) == 450.0
  {
    AtOrAfterMembers(data, 2019);
    var kept := AtOrAfter(data, 2019);
    assert kept == data by {
      assert kept[0] in data && kept[1] in data;
      AtOrAfterIncreasing(data, 2019);
    }
    assert TrajectoryDecrement(500.0, p) == 25.0;
  }
}
