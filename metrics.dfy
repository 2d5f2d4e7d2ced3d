/** The metrics aggregator: the department × month × metric projection of
    the primary table and the monthly totals across departments. */
module Metrics {
  import opened Values
  import opened Sheets
  import opened Columns

  /** The three metrics of a month, in column order: completed tasks
      ("完成任务数"), deliverables ("输出物") and reviews ("审签数"). */
  datatype Metric = CompletedTasks | Deliverables | Reviews

  /** `self.metrics`: the metric bound to each of a month's three columns. */
  const MetricOrder: seq<Metric> := [CompletedTasks, Deliverables, Reviews]

  /** The column of metric `k` relative to its month header. */
  function Offset(k: Metric): (i: nat)
    ensures i < |MetricOrder| && MetricOrder[i] == k
  {
    match k
    case CompletedTasks => 0
    case Deliverables => 1
    case Reviews => 2
  }

  lemma MetricOrderComplete()
    ensures forall k: Metric :: k in MetricOrder
  {
    forall k: Metric ensures k in MetricOrder {
      assert MetricOrder[Offset(k)] == k;
    }
  }

  /** One month of one department: metric -> cell value. */
  type MonthMetrics = map<Metric, Value>

  /** `processed_data`: department -> month number -> metrics. */
  type ProcessedData = map<Value, map<nat, MonthMetrics>>

  /** `monthly_stats`: month number -> metric -> total. */
  type MonthlyStats = map<nat, map<Metric, real>>

  /** An empty cell is stored as 0; any other cell, text included, is
      stored as it is. */
  function Zeroed(v: Value): (r: Value)
    ensures v == Missing ==> r == Num(0.0)
    ensures v != Missing ==> r == v
    ensures r != Missing
  {
    if v == Missing then Num(0.0) else v
  }

  /** The metrics of one month read from row `r`, its header at column
      `idx`: each metric from its own column of the triple. */
  function MetricsAt(t: Table, r: nat, idx: nat): (e: MonthMetrics)
    ensures forall k: Metric :: k in e && e[k] == Zeroed(Cell(t, r, idx + Offset(k)))
  {
    MetricOrderComplete();
    map k: Metric | k in MetricOrder :: Zeroed(Cell(t, r, idx + Offset(k)))
  }

  /** The loop `for i, metric in enumerate(self.metrics)` for one month. */
  method ReadMetrics(t: Table, r: nat, idx: nat) returns (e: MonthMetrics)
    ensures e == MetricsAt(t, r, idx)
  {
    e := map[];
    for i := 0 to |MetricOrder|
      invariant forall k: Metric :: k in e <==> Offset(k) < i
      invariant forall k: Metric :: k in e ==> e[k] == Zeroed(Cell(t, r, idx + Offset(k)))
    {
      var k := MetricOrder[i];
      e := e[k := Zeroed(Cell(t, r, idx + i))];
    }
  }

  /** The months of one department whose rows are `rows`: empty when it
      has no row, otherwise every bound month read from its first row. */
  function DeptEntry(t: Table, rows: seq<nat>, bindings: map<nat, nat>): map<nat, MonthMetrics>
  {
    if rows == [] then map[]
    else map n | n in bindings :: MetricsAt(t, rows[0], bindings[n])
  }

  /** `processed_data` after `_process_summary_data`: one entry per
      department. */
  function Processed(t: Table, dc: nat, depts: seq<Value>, bindings: map<nat, nat>): ProcessedData
  {
    map d | d in depts :: DeptEntry(t, RowsOf(t, dc, d), bindings)
  }

  /** The projection has one entry per department, over bound months only. */
  lemma ProcessedShape(t: Table, dc: nat, depts: seq<Value>, bindings: map<nat, nat>)
    ensures forall d :: d in Processed(t, dc, depts, bindings) <==> d in depts
    ensures forall d, m :: d in Processed(t, dc, depts, bindings) && m in Processed(t, dc, depts, bindings)[d] ==> m in bindings
  {
    var p := Processed(t, dc, depts, bindings);
    forall d, m | d in p && m in p[d] ensures m in bindings {
      assert p[d] == DeptEntry(t, RowsOf(t, dc, d), bindings);
    }
  }

  /** The loop over the sorted months for one department whose first row
      is `r0`. */
  method ReadDepartment(t: Table, r0: nat, bindings: map<nat, nat>, months: seq<nat>)
    returns (e: map<nat, MonthMetrics>)
    requires forall n :: n in months <==> n in bindings
    ensures e == map n | n in bindings :: MetricsAt(t, r0, bindings[n])
  {
    e := map[];
    for i := 0 to |months|
      invariant forall n :: n in e <==> n in months[..i]
      invariant forall n :: n in e ==> n in bindings && e[n] == MetricsAt(t, r0, bindings[n])
    {
      var n := months[i];
      var metrics := ReadMetrics(t, r0, bindings[n]);
      e := e[n := metrics];
    }
    assert months[..|months|] == months;
  }

  /** The months of a department with a row are the bound months, each
      read from its first row. */
  lemma DeptEntryKeys(t: Table, rows: seq<nat>, bindings: map<nat, nat>)
    requires rows != []
    ensures DeptEntry(t, rows, bindings).Keys == bindings.Keys
  {
  }

  lemma DeptEntryMonth(t: Table, rows: seq<nat>, bindings: map<nat, nat>, n: nat)
    requires n in bindings && rows != []
    ensures n in DeptEntry(t, rows, bindings)
    ensures DeptEntry(t, rows, bindings)[n] == MetricsAt(t, rows[0], bindings[n])
  {
  }

  lemma MetricsAtReads(t: Table, r: nat, idx: nat, k: Metric)
    ensures k in MetricsAt(t, r, idx) && MetricsAt(t, r, idx)[k] == Zeroed(Cell(t, r, idx + Offset(k)))
  {
  }

  /** A department with a row has every bound month, each metric read from
      the first row. */
  lemma DeptEntryReads(t: Table, rows: seq<nat>, bindings: map<nat, nat>, n: nat, k: Metric)
    requires n in bindings && rows != []
    ensures var e := DeptEntry(t, rows, bindings);
      && e.Keys == bindings.Keys && k in e[n]
      && e[n][k] == Zeroed(Cell(t, rows[0], bindings[n] + Offset(k)))
  {
    DeptEntryKeys(t, rows, bindings);
    DeptEntryMonth(t, rows, bindings, n);
    MetricsAtReads(t, rows[0], bindings[n], k);
  }

  lemma ProjectionReadsFirstRow(t: Table, dc: nat, all: seq<Value>, d: Value, bindings: map<nat, nat>, n: nat, k: Metric)
    requires d in all && n in bindings && RowsOf(t, dc, d) != []
    ensures var p := Processed(t, dc, all, bindings);
      && d in p && p[d].Keys == bindings.Keys
      && p[d][n][k] == Zeroed(Cell(t, RowsOf(t, dc, d)[0], bindings[n] + Offset(k)))
  {
    DeptEntryReads(t, RowsOf(t, dc, d), bindings, n, k);
    assert Processed(t, dc, all, bindings)[d] == DeptEntry(t, RowsOf(t, dc, d), bindings);
  }

  /** Every department of the primary table has a row: it gets every bound
      month, read from the row where the department first appears. */
  lemma EveryDepartmentProjected(t: Table, dc: nat, d: Value, bindings: map<nat, nat>, n: nat, k: Metric)
    requires d in UniqueNonMissing(Column(t, dc)) && n in bindings
    ensures var p := Processed(t, dc, UniqueNonMissing(Column(t, dc)), bindings);
      && d in p && p[d].Keys == bindings.Keys && d in Column(t, dc)
      && p[d][n][k] == Zeroed(Cell(t, IndexOf(Column(t, dc), d), bindings[n] + Offset(k)))
  {
    DepartmentHasRows(t, dc, d);
    ProjectionReadsFirstRow(t, dc, UniqueNonMissing(Column(t, dc)), d, bindings, n, k);
  }

  /** A value from `{int, float}` that is not NaN counts in a total;
      anything else counts 0. */
  function NumericPart(v: Value): real
  {
    if v.Num? then v.x else 0.0
  }

  /** What department `d` adds to the total of metric `k` in month `m`. */
  function Contribution(p: ProcessedData, d: Value, m: nat, k: Metric): real
  {
    if d in p && m in p[d] && k in p[d][m] then NumericPart(p[d][m][k]) else 0.0
  }

  /** The total of metric `k` in month `m` over the departments `depts`. */
  function MonthlySum(p: ProcessedData, depts: seq<Value>, m: nat, k: Metric): real
  {
    if depts == [] then 0.0
    else MonthlySum(p, depts[..|depts| - 1], m, k) + Contribution(p, depts[|depts| - 1], m, k)
  }

  /** `monthly_stats[m]`: every metric's total, starting from 0. */
  function MonthStats(p: ProcessedData, depts: seq<Value>, m: nat): (s: map<Metric, real>)
    ensures forall k: Metric :: k in s
  {
    MetricOrderComplete();
    map k: Metric | k in MetricOrder :: MonthlySum(p, depts, m, k)
  }

  lemma MonthStatsTotal(p: ProcessedData, depts: seq<Value>, m: nat, k: Metric)
    ensures MonthStats(p, depts, m)[k] == MonthlySum(p, depts, m, k)
  {
  }

  /** `monthly_stats` after `_calculate_monthly_stats`: nothing changes
      when `processed_data` is empty; otherwise each known month gets fresh
      totals and entries of other months are kept. */
  function StatsAfter(before: MonthlyStats, months: seq<nat>, p: ProcessedData, depts: seq<Value>): MonthlyStats
  {
    if |p| == 0 then before
    else before + map m | m in months :: MonthStats(p, depts, m)
  }

  /** Processing the same projection twice leaves the same totals: the
      second pass rewrites the same months with the same values. */
  lemma StatsAfterIdempotent(before: MonthlyStats, months: seq<nat>, p: ProcessedData, depts: seq<Value>)
    ensures StatsAfter(StatsAfter(before, months, p, depts), months, p, depts) == StatsAfter(before, months, p, depts)
  {
  }

  /** The loop over the departments that accumulates one month's totals. */
  method MonthTotals(p: ProcessedData, depts: seq<Value>, m: nat) returns (s: map<Metric, real>)
    ensures s == MonthStats(p, depts, m)
  {
    MetricOrderComplete();
    s := map k: Metric | k in MetricOrder :: 0.0;
    for i := 0 to |depts|
      invariant forall k: Metric :: k in s && s[k] == MonthlySum(p, depts[..i], m, k)
    {
      assert depts[..i + 1][..i] == depts[..i];
      s := AddContribution(s, p, depts[i], m);
    }
    assert depts[..|depts|] == depts;
  }

  /** The loop over the metrics of one department's month: each numeric
      value is added to its metric's total. */
  method AddContribution(s: map<Metric, real>, p: ProcessedData, d: Value, m: nat) returns (r: map<Metric, real>)
    requires forall k: Metric :: k in s
    ensures forall k: Metric :: k in r && r[k] == s[k] + Contribution(p, d, m, k)
  {
    r := s;
    if d in p && m in p[d] {
      for j := 0 to |MetricOrder|
        invariant forall k: Metric :: k in r
        invariant forall k: Metric :: r[k] == s[k] + (if Offset(k) < j then Contribution(p, d, m, k) else 0.0)
      {
        var k := MetricOrder[j];
        if k in p[d][m] {
          var v := p[d][m][k];
          if v.Num? {
            r := r[k := r[k] + v.x];
          }
        }
      }
    }
  }

  /** Totals split over a concatenation of department lists. */
  lemma {:induction false} MonthlySumAppend(p: ProcessedData, a: seq<Value>, b: seq<Value>, m: nat, k: Metric)
    ensures MonthlySum(p, a + b, m, k) == MonthlySum(p, a, m, k) + MonthlySum(p, b, m, k)
    decreases |b|
  {
    if b == [] {
      assert a + b == a;
    } else {
      var b' := b[..|b| - 1];
      assert (a + b)[..|a + b| - 1] == a + b';
      MonthlySumAppend(p, a, b', m, k);
    }
  }

  /** The sum over departments of the numeric value of each department's
      first-row cell in column `col` (empty and text cells count 0). */
  function FirstRowCellSum(t: Table, dc: nat, depts: seq<Value>, col: nat): real
  {
    if depts == [] then 0.0
    else
      var d := depts[|depts| - 1];
      var rows := RowsOf(t, dc, d);
      FirstRowCellSum(t, dc, depts[..|depts| - 1], col)
        + (if rows == [] then 0.0 else NumericPart(Cell(t, rows[0], col)))
  }

  /** What one department adds to a monthly total is the numeric value
      of its first-row cell in the metric's column. */
  lemma ContributionIsFirstRowCell(t: Table, dc: nat, all: seq<Value>, bindings: map<nat, nat>,
                                   d: Value, m: nat, k: Metric)
    requires m in bindings && d in all
    ensures var rows := RowsOf(t, dc, d);
      Contribution(Processed(t, dc, all, bindings), d, m, k)
        == if rows == [] then 0.0 else NumericPart(Cell(t, rows[0], bindings[m] + Offset(k)))
  {
    var rows := RowsOf(t, dc, d);
    assert Processed(t, dc, all, bindings)[d] == DeptEntry(t, rows, bindings);
    if rows != [] {
      DeptEntryReads(t, rows, bindings, m, k);
    }
  }

  /** The monthly total of metric `k` is the sum, over departments, of the
      numeric first-row cell in that metric's column of the month. */
  lemma {:induction false} TotalsAreColumnSums(t: Table, dc: nat, all: seq<Value>, depts: seq<Value>,
                                              bindings: map<nat, nat>, m: nat, k: Metric)
    requires m in bindings
    requires forall d :: d in depts ==> d in all
    ensures MonthlySum(Processed(t, dc, all, bindings), depts, m, k)
         == FirstRowCellSum(t, dc, depts, bindings[m] + Offset(k))
  {
    if depts != [] {
      var pre := depts[..|depts| - 1];
      assert forall d :: d in pre ==> d in depts;
      TotalsAreColumnSums(t, dc, all, pre, bindings, m, k);
      ContributionIsFirstRowCell(t, dc, all, bindings, depts[|depts| - 1], m, k);
    }
  }

  /** A department missing from `processed_data` adds nothing: the total
      over a list is the total over the departments that are present. */
  lemma {:induction false} AbsentDepartmentsAddNothing(p: ProcessedData, depts: seq<Value>, d: Value, m: nat, k: Metric)
    requires d !in p
    ensures MonthlySum(p, depts + [d], m, k) == MonthlySum(p, depts, m, k)
  {
    assert (depts + [d])[..|depts|] == depts;
  }
}
