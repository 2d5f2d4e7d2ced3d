/** The `DataProcessor` object: the loaded tables and the lookup structures
    that processing rebuilds, and the operations that load, process and
    query them. */
module Processor {
  import opened Values
  import opened Sheets
  import opened Columns
  import opened Metrics
  import opened Rates
  import opened Queries

  /** `dept_month_values`: department -> month -> the averages found for it. */
  type PendingRates = map<Value, map<nat, seq<real>>>

  function MeanValue(o: Outcome<Option<real>>): Option<real>
  {
    match o
    case Ok(v) => v
    case TypeError => None
  }

  function OptList(o: Option<real>): (vs: seq<real>)
    ensures |vs| <= 1
  {
    match o
    case None => []
    case Some(x) => [x]
  }

  /** Twelve empty lists: a department's entry before any column is read. */
  function EmptyLists(): map<nat, seq<real>>
  {
    map n | n in Year :: []
  }

  /** `values.append(avg)` for each month of `ms`, when there is an average. */
  function Appended(lists: map<nat, seq<real>>, ms: set<nat>, mean: Option<real>): (r: map<nat, seq<real>>)
    ensures r.Keys == lists.Keys
  {
    map n | n in lists :: if n in ms && mean.Some? then lists[n] + [mean.value] else lists[n]
  }

  /** A department's lists once every month before `next` has been read:
      the month's rate, when it has one, and nothing for later months. */
  function StageLists(t: Table, dc: nat, d: Value, parse: string -> Option<real>, next: nat): map<nat, seq<real>>
  {
    map n | n in Year :: if n < next then OptList(RateOr(t, dc, d, n, parse)) else []
  }

  /** The lists of all departments at a stage. */
  function Stage(t: Table, dc: nat, depts: seq<Value>, parse: string -> Option<real>, next: nat): PendingRates
  {
    map d | d in depts :: StageLists(t, dc, d, parse, next)
  }

  /** No department's mean raises for the months before `next`. */
  predicate NoRaiseBefore(t: Table, dc: nat, depts: seq<Value>, parse: string -> Option<real>, next: nat)
  {
    forall i, n :: 0 <= i < |depts| && 1 <= n < next ==> !RateFor(t, dc, depts[i], n, parse).TypeError?
  }

  lemma StageStart(t: Table, dc: nat, d: Value, parse: string -> Option<real>)
    ensures EmptyLists() == StageLists(t, dc, d, parse, 1)
  {
  }

  /** Months without a located rate column add nothing to the lists. */
  lemma StageSkip(t: Table, dc: nat, d: Value, parse: string -> Option<real>, lo: nat, hi: nat)
    requires lo <= hi
    requires forall n :: lo <= n < hi ==> RateColumnFor(t, n).None?
    ensures StageLists(t, dc, d, parse, lo) == StageLists(t, dc, d, parse, hi)
  {
    var a, b := StageLists(t, dc, d, parse, lo), StageLists(t, dc, d, parse, hi);
    forall n | n in Year ensures a[n] == b[n] {
      if lo <= n < hi {
        assert RateOr(t, dc, d, n, parse) == None;
      }
    }
  }

  /** Reading the column `c` shared by the months `lo .. hi - 1` appends the
      department's mean to each of those months. */
  lemma StageAdvance(t: Table, dc: nat, d: Value, parse: string -> Option<real>, lo: nat, hi: nat, ms: set<nat>, c: nat)
    requires lo <= hi
    requires forall n: nat :: n in ms <==> lo <= n < hi
    requires forall n :: lo <= n < hi ==> RateColumnFor(t, n) == Some(c)
    requires !DeptMean(t, dc, d, c, parse).TypeError?
    ensures Appended(StageLists(t, dc, d, parse, lo), ms, MeanValue(DeptMean(t, dc, d, c, parse)))
         == StageLists(t, dc, d, parse, hi)
  {
    var mean := MeanValue(DeptMean(t, dc, d, c, parse));
    var a := Appended(StageLists(t, dc, d, parse, lo), ms, mean);
    var b := StageLists(t, dc, d, parse, hi);
    forall n | n in Year ensures a[n] == b[n] {
      if lo <= n < hi {
        assert RateOr(t, dc, d, n, parse) == mean;
      }
    }
  }

  /** The search for month `n`'s rate column: its header ("1~2月" for
      months 1 and 2), then the window after it. */
  method LocateRateColumn(t: Table, n: nat) returns (c: Option<nat>)
    ensures c == RateColumnFor(t, n)
  {
    var header: Option<nat>;
    if n <= 2 {
      header := FindColumn(t.headers, CombinedMarker);
    } else {
      header := FindColumn(t.headers, MonthName(n));
    }
    if header.None? {
      return None;
    }
    c := FindRateColumn(t, header.value);
  }

  /** The lists after the mean of column `c` was appended, for each
      department of `depts`, to the months `ms`. */
  function WithMeans(t: Table, dc: nat, depts: seq<Value>, c: nat, ms: set<nat>,
                     parse: string -> Option<real>, pending: PendingRates): (r: PendingRates)
    ensures r.Keys == pending.Keys
  {
    map d | d in pending ::
      if d in depts then Appended(pending[d], ms, MeanValue(DeptMean(t, dc, d, c, parse))) else pending[d]
  }

  /** `m` agrees with `target` on the keys in `done` and with `base`
      elsewhere. */
  ghost predicate Overwritten<K, V>(m: map<K, V>, target: map<K, V>, done: set<K>, base: map<K, V>)
  {
    && m.Keys == base.Keys && target.Keys == base.Keys && done <= m.Keys
    && (forall k :: k in done ==> m[k] == target[k])
    && (forall k :: k in m && k !in done ==> m[k] == base[k])
  }

  lemma OverwriteOne<K, V>(m: map<K, V>, target: map<K, V>, done: set<K>, base: map<K, V>, k: K)
    requires Overwritten(m, target, done, base) && k in target
    ensures Overwritten(m[k := target[k]], target, done + {k}, base)
  {
  }

  lemma OverwriteAll<K, V>(m: map<K, V>, target: map<K, V>, done: set<K>, base: map<K, V>)
    requires Overwritten(m, target, done, base)
    requires forall k :: k in target && k !in done ==> target[k] == base[k]
    ensures m == target
  {
  }

  /** The loop over the departments for one located column: each
      department's mean is appended to the months `ms`; a mean that raises
      stops the loop. */
  method AppendMeans(t: Table, dc: nat, depts: seq<Value>, c: nat, ms: set<nat>,
                     parse: string -> Option<real>, pending: PendingRates)
    returns (out: PendingRates, raised: bool)
    requires Distinct(depts)
    requires forall d :: d in depts ==> d in pending
    ensures raised <==> exists i :: 0 <= i < |depts| && DeptMean(t, dc, depts[i], c, parse).TypeError?
    ensures !raised ==> out == WithMeans(t, dc, depts, c, ms, parse, pending)
  {
    ghost var target := WithMeans(t, dc, depts, c, ms, parse, pending);
    ghost var done: set<Value> := {};
    out := pending;
    for i := 0 to |depts|
      invariant forall j :: 0 <= j < i ==> !DeptMean(t, dc, depts[j], c, parse).TypeError?
      invariant Overwritten(out, target, done, pending)
      invariant forall j :: 0 <= j < i ==> depts[j] in done
      invariant forall j :: i <= j < |depts| ==> depts[j] !in done
    {
      var d := depts[i];
      var r := DepartmentMean(t, dc, d, c, parse);
      if r.TypeError? {
        return out, true;
      }
      assert out[d] == pending[d];
      OverwriteOne(out, target, done, pending, d);
      out := out[d := Appended(out[d], ms, r.value)];
      done := done + {d};
    }
    OverwriteAll(out, target, done, pending);
    raised := false;
  }

  /** The lists hold every month before `next`, and no mean of those
      months raised. */
  ghost predicate StageOk(t: Table, dc: nat, depts: seq<Value>, parse: string -> Option<real>,
                          pending: PendingRates, next: nat)
  {
    pending == Stage(t, dc, depts, parse, next) && NoRaiseBefore(t, dc, depts, parse, next)
  }

  /** `ms` is the set of months `lo .. hi - 1`. */
  ghost predicate Span(ms: set<nat>, lo: nat, hi: nat)
  {
    forall n: nat :: n in ms <==> lo <= n < hi
  }

  /** The months `lo .. hi - 1` share the rate column of `lo`. */
  predicate SharedColumn(t: Table, lo: nat, hi: nat)
  {
    forall n :: lo <= n < hi ==> RateColumnFor(t, n) == RateColumnFor(t, lo)
  }

  /** One stage of the extraction: the column shared by the months
      `lo .. hi - 1` is located and, when found, read for every department. */
  method ReadStage(t: Table, dc: nat, depts: seq<Value>, parse: string -> Option<real>,
                   pending: PendingRates, lo: nat, hi: nat, ms: set<nat>)
    returns (out: PendingRates, raised: bool)
    requires Distinct(depts)
    requires 1 <= lo < hi <= 13
    requires Span(ms, lo, hi) && SharedColumn(t, lo, hi)
    requires StageOk(t, dc, depts, parse, pending, lo)
    ensures raised ==> Raises(t, dc, depts, parse)
    ensures !raised ==> StageOk(t, dc, depts, parse, out, hi)
  {
    var col := LocateRateColumn(t, lo);
    if col.None? {
      forall d | d in depts ensures pending[d] == StageLists(t, dc, d, parse, hi) {
        StageSkip(t, dc, d, parse, lo, hi);
      }
      assert pending == Stage(t, dc, depts, parse, hi);
      return pending, false;
    }
    out, raised := AppendMeans(t, dc, depts, col.value, ms, parse, pending);
    if raised {
      ghost var i :| 0 <= i < |depts| && DeptMean(t, dc, depts[i], col.value, parse).TypeError?;
      assert RateFor(t, dc, depts[i], lo, parse).TypeError?;
      return;
    }
    forall j | 0 <= j < |depts| ensures out[depts[j]] == StageLists(t, dc, depts[j], parse, hi) {
      StageAdvance(t, dc, depts[j], parse, lo, hi, ms, col.value);
    }
    assert out == Stage(t, dc, depts, parse, hi);
  }

  /** No mean raises before month 13: nothing raises at all. */
  lemma NoRaiseAtAll(t: Table, dc: nat, depts: seq<Value>, parse: string -> Option<real>)
    requires NoRaiseBefore(t, dc, depts, parse, 13)
    ensures !Raises(t, dc, depts, parse)
  {
  }

  /** The lists before any column is read. */
  lemma StageOkAtStart(t: Table, dc: nat, depts: seq<Value>, parse: string -> Option<real>)
    ensures StageOk(t, dc, depts, parse, map d | d in depts :: EmptyLists(), 1)
  {
    forall d | d in depts ensures EmptyLists() == StageLists(t, dc, d, parse, 1) {
      StageStart(t, dc, d, parse);
    }
  }

  /** The months 3 to 12, each read from the column near its own header. */
  method ReadMonthStages(t: Table, dc: nat, depts: seq<Value>, parse: string -> Option<real>, start: PendingRates)
    returns (pending: PendingRates, raised: bool)
    requires Distinct(depts)
    requires StageOk(t, dc, depts, parse, start, 3)
    ensures raised ==> Raises(t, dc, depts, parse)
    ensures !raised ==> StageOk(t, dc, depts, parse, pending, 13)
  {
    pending := start;
    for n := 3 to 13
      invariant StageOk(t, dc, depts, parse, pending, n)
    {
      assert SharedColumn(t, n, n + 1) && Span({n}, n, n + 1);
      pending, raised := ReadStage(t, dc, depts, parse, pending, n, n + 1, {n});
      if raised {
        return;
      }
    }
    raised := false;
  }

  /** `dept_month_values` after every column was read, or a TypeError. */
  method ReadAllStages(t: Table, dc: nat, depts: seq<Value>, parse: string -> Option<real>)
    returns (pending: PendingRates, raised: bool)
    requires Distinct(depts)
    ensures raised <==> Raises(t, dc, depts, parse)
    ensures !raised ==> pending == Stage(t, dc, depts, parse, 13)
  {
    pending := map d | d in depts :: EmptyLists();
    StageOkAtStart(t, dc, depts, parse);
    // The combined period: one column for months 1 and 2.
    assert SharedColumn(t, 1, 3) && Span({1, 2}, 1, 3);
    pending, raised := ReadStage(t, dc, depts, parse, pending, 1, 3, {1, 2});
    if raised {
      return;
    }
    pending, raised := ReadMonthStages(t, dc, depts, parse, pending);
    if !raised {
      NoRaiseAtAll(t, dc, depts, parse);
    }
  }

  /** The loop over the departments that fills `processed_data`: every
      department gets an entry, filled from its first row when it has one. */
  method Project(t: Table, dc: nat, depts: seq<Value>, bindings: map<nat, nat>, sorted: seq<nat>)
    returns (p: ProcessedData)
    requires forall n :: n in sorted <==> n in bindings
    ensures p == Processed(t, dc, depts, bindings)
  {
    p := map[];
    for i := 0 to |depts|
      invariant forall d :: d in p <==> d in depts[..i]
      invariant forall d :: d in p ==> p[d] == DeptEntry(t, RowsOf(t, dc, d), bindings)
    {
      var d := depts[i];
      assert depts[..i + 1] == depts[..i] + [d];
      p := p[d := map[]];
      var rows := SelectRows(t, dc, d);
      if rows != [] {
        var e := ReadDepartment(t, rows[0], bindings, sorted);
        p := p[d := e];
      }
    }
    assert depts[..|depts|] == depts;
  }

  /** The lists after all stages hold each month's rate, when it has one. */
  lemma FinalStage(t: Table, dc: nat, depts: seq<Value>, parse: string -> Option<real>)
    ensures var pending := Stage(t, dc, depts, parse, 13);
      var target := map d | d in depts :: DeptRates(t, dc, d, parse);
      && target.Keys == pending.Keys
      && forall d :: d in pending ==> RowReady(pending[d], target[d])
  {
  }

  /** The loop over the months of `_calculate_monthly_stats`. */
  method AllMonthTotals(before: MonthlyStats, months: seq<nat>, p: ProcessedData, depts: seq<Value>)
    returns (stats: MonthlyStats)
    ensures stats == before + map m | m in months :: MonthStats(p, depts, m)
  {
    stats := before;
    for i := 0 to |months|
      invariant forall m :: m in stats <==> m in before || m in months[..i]
      invariant forall m :: m in stats ==> stats[m] == if m in months[..i] then MonthStats(p, depts, m) else before[m]
    {
      assert months[..i + 1] == months[..i] + [months[i]];
      var s := MonthTotals(p, depts, months[i]);
      stats := stats[months[i] := s];
    }
    assert months[..|months|] == months;
    ghost var target := before + map m | m in months :: MonthStats(p, depts, m);
    assert forall m :: m in stats <==> m in target;
    assert forall m :: m in stats ==> stats[m] == target[m];
  }

  /** A department's lists hold, for every month of the year, the month's
      rate when it has one and nothing otherwise. */
  ghost predicate RowReady(lists: map<nat, seq<real>>, target: map<nat, Option<real>>)
  {
    lists.Keys == Year && target.Keys == Year &&
    forall n :: n in Year ==> lists[n] == OptList(target[n])
  }

  /** The final loop for one department: each month with values gets
      `sum(values) / len(values)`, the others keep no data. With at most one
      value per month, that is the value itself. */
  method FinalRow(lists: map<nat, seq<real>>, ghost target: map<nat, Option<real>>)
    returns (row: map<nat, Option<real>>)
    requires RowReady(lists, target)
    ensures row == target
  {
    row := NoDataMonths();
    for n := 1 to 13
      invariant row.Keys == Year
      invariant forall m :: m in row ==> row[m] == if m < n then target[m] else None
    {
      assert n in Year;
      var values := lists[n];
      if values != [] {
        assert values == [target[n].value];
        assert Sum(values) == values[0];
        row := row[n := Some(Sum(values) / |values| as real)];
      }
    }
  }

  /** `completion_data` after the final loop over the departments. */
  method FinalRates(depts: seq<Value>, pending: PendingRates, ghost target: CompletionData)
    returns (completion: CompletionData)
    requires forall d :: d in target <==> d in depts
    requires forall d :: d in pending <==> d in depts
    requires forall d :: d in depts ==> RowReady(pending[d], target[d])
    ensures completion == target
  {
    completion := map d | d in depts :: NoDataMonths();
    ghost var base := completion;
    ghost var done: set<Value> := {};
    for i := 0 to |depts|
      invariant Overwritten(completion, target, done, base)
      invariant forall j :: 0 <= j < i ==> depts[j] in done
    {
      var d := depts[i];
      var row := FinalRow(pending[d], target[d]);
      OverwriteOne(completion, target, done, base, d);
      completion := completion[d := row];
      done := done + {d};
    }
    OverwriteAll(completion, target, done, base);
  }

  /** The fields of a `DataProcessor`, as one value. */
  datatype Snapshot = Snapshot(
    summary: Option<Table>, taskStatus: Option<Table>,
    departments: seq<Value>, months: seq<nat>, year: Option<int>,
    monthlyStats: MonthlyStats, processedData: ProcessedData, completionData: CompletionData)

  /** The state after `_process_summary_data`. */
  function AfterSummary(s: Snapshot): Snapshot
  {
    if s.summary.None? || IsEmpty(s.summary.value) then s
    else
      var t := s.summary.value;
      var depts := Departments(t);
      var ms := Months(t.headers);
      var p := Processed(t, DeptColumn(t.headers), depts, MonthBindings(t.headers));
      s.(departments := depts, months := ms, processedData := p,
         monthlyStats := StatsAfter(s.monthlyStats, ms, p, depts))
  }

  /** The year once it defaulted to `nowYear`. */
  function YearOr(year: Option<int>, nowYear: int): Option<int>
  {
    if year.None? then Some(nowYear) else year
  }

  /** The state and the result after `process_data`. */
  function AfterProcessData(s: Snapshot, parse: string -> Option<real>, nowYear: int): (Snapshot, bool)
  {
    if s.summary.None? then (s, false)
    else
      var s1 := AfterSummary(s);
      if s1.taskStatus.Some? && !IsEmpty(s1.taskStatus.value) then
        match Completion(s1.taskStatus.value, s1.departments, parse)
        case TypeError => (s1, false)
        case Ok(c) => (s1.(completionData := c, year := YearOr(s1.year, nowYear)), true)
      else (s1.(year := YearOr(s1.year, nowYear)), true)
  }

  /** Rebuilding the primary results a second time changes nothing. */
  lemma AfterSummaryIdempotent(s: Snapshot)
    ensures AfterSummary(AfterSummary(s)) == AfterSummary(s)
  {
    if s.summary.Some? && !IsEmpty(s.summary.value) {
      var t := s.summary.value;
      var depts := Departments(t);
      var ms := Months(t.headers);
      var p := Processed(t, DeptColumn(t.headers), depts, MonthBindings(t.headers));
      StatsAfterIdempotent(s.monthlyStats, ms, p, depts);
    }
  }

  /** Processing twice gives the same state and the same result as
      processing once. */
  lemma ProcessDataIdempotent(s: Snapshot, parse: string -> Option<real>, nowYear: int)
    ensures var (s1, ok) := AfterProcessData(s, parse, nowYear);
      AfterProcessData(s1, parse, nowYear) == (s1, ok)
  {
    if s.summary.Some? {
      AfterSummaryIdempotent(s);
      var s1 := AfterSummary(s);
      assert AfterSummary(s1.(year := YearOr(s1.year, nowYear))) == s1.(year := YearOr(s1.year, nowYear));
      if s1.taskStatus.Some? && !IsEmpty(s1.taskStatus.value) {
        match Completion(s1.taskStatus.value, s1.departments, parse)
        case TypeError =>
        case Ok(c) =>
          var s2 := s1.(completionData := c, year := YearOr(s1.year, nowYear));
          assert AfterSummary(s2) == s2;
      }
    }
  }

  class DataProcessor {
    /** `summary_data` and `task_status_data`: None before a load. */
    var summary: Option<Table>
    var taskStatus: Option<Table>
    var departments: seq<Value>
    /** `self.months`, as month numbers (the names are `MonthName(n)`). */
    var months: seq<nat>
    var year: Option<int>
    var monthlyStats: MonthlyStats
    var processedData: ProcessedData
    var completionData: CompletionData

    /** What processing keeps true of the state: distinct departments
        without an empty cell, ascending months, one projection entry per
        department over known months, twelve months per completion entry,
        and totals that match the projection. */
    ghost predicate Valid()
      reads this
    {
      Shape() && TotalsMatch()
    }

    /** The fields as one value. */
    function State(): (s: Snapshot)
      reads this
      ensures s.summary == summary && s.taskStatus == taskStatus && s.year == year
      ensures s.departments == departments && s.months == months
      ensures s.monthlyStats == monthlyStats && s.processedData == processedData
      ensures s.completionData == completionData
    {
      Snapshot(summary, taskStatus, departments, months, year, monthlyStats, processedData, completionData)
    }

    ghost predicate Shape()
      reads this
    {
      && Distinct(departments) && Missing !in departments
      && (forall i, j :: 0 <= i < j < |months| ==> months[i] < months[j])
      && (forall d :: d in processedData <==> d in departments)
      && (forall d, m :: d in processedData && m in processedData[d] ==> m in months)
      && (forall d :: d in completionData ==> completionData[d].Keys == Year)
    }

    ghost predicate TotalsMatch()
      reads this
    {
      |processedData| > 0 ==>
        forall m :: m in months ==> m in monthlyStats && monthlyStats[m] == MonthStats(processedData, departments, m)
    }

    constructor()
      ensures Valid()
      ensures summary == None && taskStatus == None && year == None
      ensures departments == [] && months == []
      ensures monthlyStats == map[] && processedData == map[] && completionData == map[]
    {
      summary := None;
      taskStatus := None;
      departments := [];
      months := [];
      year := None;
      monthlyStats := map[];
      processedData := map[];
      completionData := map[];
    }

    /** `load_excel`: bind the two tables of the workbook. Only a read
        failure clears them; a workbook without sheets leaves them as they
        were. */
    method LoadExcel(wb: Workbook) returns (ok: bool)
      requires Valid()
      modifies this
      ensures Valid()
      ensures ok <==> ResolveSheets(wb).Loaded?
      ensures ResolveSheets(wb).Loaded? ==>
        summary == Some(ResolveSheets(wb).primary) && taskStatus == Some(ResolveSheets(wb).secondary)
      ensures ResolveSheets(wb).NoSheets? ==> summary == old(summary) && taskStatus == old(taskStatus)
      ensures ResolveSheets(wb).ReadError? ==> summary == None && taskStatus == None
      ensures departments == old(departments) && months == old(months) && year == old(year)
      ensures monthlyStats == old(monthlyStats) && processedData == old(processedData)
      ensures completionData == old(completionData)
    {
      var r := OpenWorkbook(wb);
      match r
      case ReadError =>
        summary := None;
        taskStatus := None;
        return false;
      case NoSheets =>
        return false;
      case Loaded(primary, secondary) =>
        summary := Some(primary);
        taskStatus := Some(secondary);
        return true;
    }

    /** `_process_summary_data`: the departments, the sorted months and the
        projection are rebuilt from a non-empty primary table, then the
        monthly totals; without one nothing changes. */
    method ProcessSummary()
      requires Valid()
      modifies this
      ensures Valid()
      ensures summary == old(summary) && taskStatus == old(taskStatus)
      ensures year == old(year) && completionData == old(completionData)
      ensures old(summary).None? || IsEmpty(old(summary).value) ==>
        && departments == old(departments) && months == old(months)
        && processedData == old(processedData) && monthlyStats == old(monthlyStats)
      ensures old(summary).Some? && !IsEmpty(old(summary).value) ==>
        var t := old(summary).value;
        && departments == Departments(t)
        && months == Months(t.headers)
        && processedData == Processed(t, DeptColumn(t.headers), departments, MonthBindings(t.headers))
        && monthlyStats == StatsAfter(old(monthlyStats), months, processedData, departments)
      ensures State() == AfterSummary(old(State()))
    {
      if summary.None? || IsEmpty(summary.value) {
        return;
      }
      var t := summary.value;
      var found := FindColumn(t.headers, DeptMarker);
      var dc := if found.Some? then found.value else 0;
      var depts := CollectDepartments(t, dc);
      var bindings := BindMonths(t.headers);
      var sorted := SortedKeys(bindings.Keys);
      var p := Project(t, dc, depts, bindings, sorted);
      ProcessedShape(t, dc, depts, bindings);
      UniqueNonMissingSpec(Column(t, dc));
      departments := depts;
      months := sorted;
      processedData := p;
      assert Shape();
      CalculateMonthlyStats();
    }

    /** `_calculate_monthly_stats`: fresh totals for every known month when
        there is a projection; totals of other months are kept. */
    method CalculateMonthlyStats()
      requires Shape()
      modifies this
      ensures Valid()
      ensures monthlyStats == StatsAfter(old(monthlyStats), months, processedData, departments)
      ensures summary == old(summary) && taskStatus == old(taskStatus) && year == old(year)
      ensures departments == old(departments) && months == old(months)
      ensures processedData == old(processedData) && completionData == old(completionData)
    {
      if |processedData| == 0 {
        return;
      }
      var stats := AllMonthTotals(monthlyStats, months, processedData, departments);
      monthlyStats := stats;
    }

    /** `_process_task_status_data`: the completion rates of the current
        departments, read from a non-empty secondary table. `ok` is false
        when the call raises TypeError, and then `completion_data` is left
        as it was. */
    method ProcessTaskStatus(parse: string -> Option<real>) returns (ok: bool)
      requires Valid()
      modifies this
      ensures Valid()
      ensures summary == old(summary) && taskStatus == old(taskStatus) && year == old(year)
      ensures departments == old(departments) && months == old(months)
      ensures processedData == old(processedData) && monthlyStats == old(monthlyStats)
      ensures taskStatus.None? || IsEmpty(taskStatus.value) ==> ok && completionData == old(completionData)
      ensures taskStatus.Some? && !IsEmpty(taskStatus.value) ==>
        match Completion(taskStatus.value, departments, parse)
        case TypeError => !ok && completionData == old(completionData)
        case Ok(c) => ok && completionData == c
    {
      if taskStatus.None? || IsEmpty(taskStatus.value) {
        return true;
      }
      var r := TaskCompletion(taskStatus.value, departments, parse);
      if r.TypeError? {
        return false;
      }
      completionData := r.value;
      return true;
    }

    /** `process_data`: the primary table is processed, then a non-empty
        secondary table, then the year defaults to `nowYear` (the clock's
        current year). A TypeError from the secondary table makes it
        return false after the primary results were rebuilt, with the year
        left unset. */
    method ProcessData(parse: string -> Option<real>, nowYear: int) returns (ok: bool)
      requires Valid()
      modifies this
      ensures Valid()
      ensures summary == old(summary) && taskStatus == old(taskStatus)
      ensures old(summary).None? ==>
        && !ok && departments == old(departments) && months == old(months) && year == old(year)
        && processedData == old(processedData) && monthlyStats == old(monthlyStats)
        && completionData == old(completionData)
      ensures old(summary).Some? && IsEmpty(old(summary).value) ==>
        && departments == old(departments) && months == old(months)
        && processedData == old(processedData) && monthlyStats == old(monthlyStats)
      ensures old(summary).Some? && !IsEmpty(old(summary).value) ==>
        var t := old(summary).value;
        && departments == Departments(t)
        && months == Months(t.headers)
        && processedData == Processed(t, DeptColumn(t.headers), departments, MonthBindings(t.headers))
        && monthlyStats == StatsAfter(old(monthlyStats), months, processedData, departments)
      ensures old(summary).Some? && (taskStatus.None? || IsEmpty(taskStatus.value)) ==>
        && ok && completionData == old(completionData)
        && year == (if old(year).None? then Some(nowYear) else old(year))
      ensures old(summary).Some? && taskStatus.Some? && !IsEmpty(taskStatus.value) ==>
        match Completion(taskStatus.value, departments, parse)
        case TypeError => !ok && completionData == old(completionData) && year == old(year)
        case Ok(c) => ok && completionData == c && year == (if old(year).None? then Some(nowYear) else old(year))
      ensures (State(), ok) == AfterProcessData(old(State()), parse, nowYear)
    {
      if summary.None? {
        return false;
      }
      ProcessSummary();
      if taskStatus.Some? && !IsEmpty(taskStatus.value) {
        var done := ProcessTaskStatus(parse);
        if !done {
          return false;
        }
      }
      if year.None? {
        year := Some(nowYear);
      }
      return true;
    }

    /** `process_data` called twice: the second call returns what the
        first returned and leaves the state as the first left it. */
    method ProcessDataTwice(parse: string -> Option<real>, nowYear: int) returns (first: bool, second: bool)
      requires Valid()
      modifies this
      ensures Valid()
      ensures second == first
      ensures (State(), first) == AfterProcessData(old(State()), parse, nowYear)
    {
      ghost var s0 := State();
      first := ProcessData(parse, nowYear);
      ghost var s1 := State();
      second := ProcessData(parse, nowYear);
      ProcessDataIdempotent(s0, parse, nowYear);
      assert (s1, first) == AfterProcessData(s0, parse, nowYear);
      assert (State(), second) == AfterProcessData(s1, parse, nowYear);
    }

    /** `get_department_monthly_completion_rates(n)`: the months, one rate
        series per selected department and the selected names. */
    method GetDepartmentMonthlyCompletionRates(n: nat)
      returns (ms: seq<nat>, series: seq<seq<Option<real>>>, names: seq<Value>)
      ensures (ms, series, names) == CompletionRates(departments, months, completionData, n)
    {
      if |completionData| == 0 {
        return months, Placeholder(months, n), departments[..Min(n, |departments|)];
      }
      var avgs: seq<Entry> := [];
      for i := 0 to |departments|
        invariant avgs == Averages(departments[..i], months, completionData)
      {
        var d := departments[i];
        assert departments[..i + 1][..i] == departments[..i];
        if d in completionData {
          var avg := MeanOfKnown(completionData[d], months);
          if avg.Some? {
            avgs := avgs + [(d, avg.value)];
          }
        }
      }
      assert departments[..|departments|] == departments;
      var ranked := SortDesc(avgs);
      var top := Names(ranked[..Min(n, |ranked|)]);
      assert top == Ranked(departments, months, completionData)[..Min(n, |ranked|)];
      if |top| < n {
        var remaining := Remaining(departments, top);
        top := top + remaining[..Min(n - |top|, |remaining|)];
      }
      series := [];
      for i := 0 to |top|
        invariant |series| == i
        invariant forall a :: 0 <= a < i ==>
          (|series[a]| == |months| && forall j :: 0 <= j < |months| ==> series[a][j] == Lookup(completionData, top[a], months[j]))
      {
        var d := top[i];
        var rates: seq<Option<real>> := [];
        for j := 0 to |months|
          invariant |rates| == j
          invariant forall k :: 0 <= k < j ==> rates[k] == Lookup(completionData, d, months[k])
        {
          var m := months[j];
          var rate := if d in completionData && m in completionData[d] then completionData[d][m] else None;
          rates := rates + [rate];
        }
        series := series + [rates];
      }
      assert top == TopNames(departments, months, completionData, n);
      ghost var expected := Series(completionData, months, top);
      forall a | 0 <= a < |top| ensures series[a] == expected[a] {
        assert |series[a]| == |expected[a]|;
      }
      assert series == expected;
      return months, series, top;
    }

    /** `get_department_monthly_metrics`: the months, the departments and
        the projection (an empty projection is returned as a fresh empty
        map, which is the same value). */
    function DepartmentMonthlyMetrics(): (r: (seq<nat>, seq<Value>, ProcessedData))
      reads this
      ensures r.0 == months && r.1 == departments && r.2 == processedData
      ensures Valid() ==>
        && (forall d :: d in r.2 <==> d in r.1)
        && (forall d, m :: d in r.2 && m in r.2[d] ==> m in r.0)
    {
      if |processedData| == 0 then (months, departments, map[]) else (months, departments, processedData)
    }
  }

  /** The body of `_process_task_status`: the department column, every
      month's rates, then the final averaging, or the TypeError a mean
      raised. */
  method TaskCompletion(t: Table, depts: seq<Value>, parse: string -> Option<real>)
    returns (r: Outcome<CompletionData>)
    requires Distinct(depts)
    ensures r == Completion(t, depts, parse)
  {
    var found := FindColumn(t.headers, DeptMarker);
    var dc := if found.Some? then found.value else 0;
    assert dc == DeptColumn(t.headers);
    var pending, raised := ReadAllStages(t, dc, depts, parse);
    if raised {
      return TypeError;
    }
    FinalStage(t, dc, depts, parse);
    var completion := FinalRates(depts, pending, map d | d in depts :: DeptRates(t, dc, d, parse));
    return Ok(completion);
  }

  /** The sheet choice of `load_excel`: the named sheets, else the first
      two by position, else the only sheet with an empty secondary table. */
  method OpenWorkbook(wb: Workbook) returns (r: LoadResult)
    ensures r == ResolveSheets(wb)
  {
    match wb
    case Unreadable =>
      return ReadError;
    case Sheets(s) =>
      if HasSheet(s, PrimaryName) && HasSheet(s, SecondaryName) {
        return Loaded(SheetNamed(s, PrimaryName), SheetNamed(s, SecondaryName));
      } else if |s| >= 2 {
        return Loaded(s[0].1, s[1].1);
      } else if |s| == 1 {
        return Loaded(s[0].1, EmptyTable);
      }
      return NoSheets;
  }

  /** The average of the known rates of one department (the loop over the
      months, NaN filtered). */
  method MeanOfKnown(c: map<nat, Option<real>>, months: seq<nat>) returns (avg: Option<real>)
    ensures avg == AverageRate(c, months)
  {
    var valid: seq<real> := [];
    for j := 0 to |months|
      invariant valid == KnownRates(c, months[..j])
    {
      assert months[..j + 1][..j] == months[..j];
      var r := RateIn(c, months[j]);
      if r.Some? {
        valid := valid + [r.value];
      }
    }
    assert months[..|months|] == months;
    if valid == [] {
      return None;
    }
    return Some(Sum(valid) / |valid| as real);
  }
}
