/** The end-to-end instance of the primary table: two departments, one
    month with its three metric columns, the projection and the totals. */
module SummaryScenarios {
  import opened Values
  import opened Sheets
  import opened Columns
  import opened Metrics

  const A: Value := Text("A")
  const B: Value := Text("B")

  /** Departments A and B, each with one row of month-1 metrics. */
  function Summary(): Table
  {
    Table(["部门", "1月完成任务数", "1月输出物", "1月审签数"],
          [[A, Num(5.0), Num(2.0), Num(1.0)], [B, Num(3.0), Num(1.0), Num(0.0)]])
  }

  /** Every metric header names month 1; the department header names none. */
  lemma SummaryHeaderMonths()
    ensures HeaderMonths(Summary().headers) == [None, Some(1), Some(1), Some(1)]
  {
    var h := Summary().headers;
    assert MonthName(1) == "1月";
    assert h[1] == MonthName(1) + "完成任务数";
    assert h[2] == MonthName(1) + "输出物";
    assert h[3] == MonthName(1) + "审签数";
    MonthHeaderMatches(1, "完成任务数");
    MonthHeaderMatches(1, "输出物");
    MonthHeaderMatches(1, "审签数");
    NoSuffixNoMatch(h[0]);
    var ms := HeaderMonths(h);
    var expected: seq<Option<nat>> := [None, Some(1), Some(1), Some(1)];
    forall k | 0 <= k < |ms| ensures ms[k] == expected[k] {
      assert ms[k] == MonthMatch(h[k]);
    }
  }

  /** Only the first month header has two columns after it, so month 1 is
      bound to column 1 and the later "1月" headers are not bound. */
  lemma SummaryBindings()
    ensures MonthBindings(Summary().headers) == map[1 := 1]
    ensures Months(Summary().headers) == [1]
  {
    SummaryHeaderMonths();
    var ms := HeaderMonths(Summary().headers);
    assert !Bindable(ms, 0) && Bindable(ms, 1) && !Bindable(ms, 2) && !Bindable(ms, 3);
    assert BindPrefix(ms, 1) == map[];
    assert BindPrefix(ms, 2) == map[1 := 1];
    assert BindPrefix(ms, 3) == map[1 := 1];
    assert BindPrefix(ms, 4) == map[1 := 1];
    var keys := MonthBindings(Summary().headers).Keys;
    assert keys == {1};
    var r := SortedKeys(keys);
    assert |r| == 1 && r[0] in keys;
  }

  /** The department column is column 0 and holds A then B. */
  lemma SummaryDepartments()
    ensures DeptColumn(Summary().headers) == 0
    ensures Departments(Summary()) == [A, B]
  {
    var h := Summary().headers;
    assert DeptMarker <= h[0];
    assert Contains(h[0], DeptMarker);
    SummaryDeptColumn();
    TwoDistinct(Column(Summary(), 0));
  }

  lemma SummaryDeptColumn()
    ensures Column(Summary(), 0) == [A, B]
  {
    var col := Column(Summary(), 0);
    assert col[0] == A && col[1] == B;
  }

  lemma TwoDistinct(col: seq<Value>)
    requires col == [A, B]
    ensures UniqueNonMissing(col) == [A, B]
  {
    assert col[..1] == [A] && col[..1][..0] == [];
    assert UniqueNonMissing(col[..1]) == [A];
  }

  lemma SummaryRows()
    ensures RowsOf(Summary(), 0, A) == [0]
    ensures RowsOf(Summary(), 0, B) == [1]
  {
    var t := Summary();
    assert Cell(t, 0, 0) == A && Cell(t, 1, 0) == B;
    assert RowsBelow(t, 0, A, 1) == [0];
    assert RowsBelow(t, 0, B, 1) == [];
  }

  /** The projection holds `v` for metric `k` of month `m` of `d`. */
  predicate Holds(p: ProcessedData, d: Value, m: nat, k: Metric, v: Value)
  {
    d in p && m in p[d] && k in p[d][m] && p[d][m][k] == v
  }

  /** A department whose only row is `r` has its month-1 metric `k` read
      from row `r`, in the column `col` of that metric. */
  lemma OneDepartmentProjected(t: Table, d: Value, r: nat, k: Metric, col: nat, v: real)
    requires d in [A, B] && RowsOf(t, 0, d) == [r]
    requires col == 1 + Offset(k) && Cell(t, r, col) == Num(v)
    ensures Holds(Processed(t, 0, [A, B], map[1 := 1]), d, 1, k, Num(v))
  {
    ProjectionReadsFirstRow(t, 0, [A, B], d, map[1 := 1], 1, k);
  }

  lemma ProjectionKeys(t: Table)
    ensures Processed(t, 0, [A, B], map[1 := 1]).Keys == {A, B}
  {
  }

  /** Two departments holding `a` and `b` for metric `k` of month 1 make
      a month-1 total of `a + b`. */
  lemma TwoDepartmentsTotal(p: ProcessedData, k: Metric, a: real, b: real)
    requires Holds(p, A, 1, k, Num(a)) && Holds(p, B, 1, k, Num(b))
    ensures MonthStats(p, [A, B], 1)[k] == a + b
  {
    assert [A, B][..1] == [A] && [A][..0] == [];
    assert MonthlySum(p, [A], 1, k) == a;
    MonthStatsTotal(p, [A, B], 1, k);
  }

  /** A's only row is 0 and B's only row is 1, and their month-1 cells
      are 5, 2, 1 and 3, 1, 0. */
  predicate ExampleShape(t: Table)
  {
    && RowsOf(t, 0, A) == [0] && RowsOf(t, 0, B) == [1]
    && Cell(t, 0, 1) == Num(5.0) && Cell(t, 0, 2) == Num(2.0) && Cell(t, 0, 3) == Num(1.0)
    && Cell(t, 1, 1) == Num(3.0) && Cell(t, 1, 2) == Num(1.0) && Cell(t, 1, 3) == Num(0.0)
  }

  lemma SummaryShape()
    ensures ExampleShape(Summary())
  {
    SummaryRows();
  }

  /** Each department's month-1 metrics are the cells of its own row. */
  lemma SummaryProjection(t: Table)
    requires ExampleShape(t)
    ensures var p := Processed(t, 0, [A, B], map[1 := 1]);
      && p.Keys == {A, B}
      && Holds(p, A, 1, CompletedTasks, Num(5.0)) && Holds(p, A, 1, Deliverables, Num(2.0))
      && Holds(p, A, 1, Reviews, Num(1.0))
      && Holds(p, B, 1, CompletedTasks, Num(3.0)) && Holds(p, B, 1, Deliverables, Num(1.0))
      && Holds(p, B, 1, Reviews, Num(0.0))
  {
    ProjectionKeys(t);
    OneDepartmentProjected(t, A, 0, CompletedTasks, 1, 5.0);
    OneDepartmentProjected(t, A, 0, Deliverables, 2, 2.0);
    OneDepartmentProjected(t, A, 0, Reviews, 3, 1.0);
    OneDepartmentProjected(t, B, 1, CompletedTasks, 1, 3.0);
    OneDepartmentProjected(t, B, 1, Deliverables, 2, 1.0);
    OneDepartmentProjected(t, B, 1, Reviews, 3, 0.0);
  }

  /** The month-1 totals are 5 + 3, 2 + 1 and 1 + 0. */
  lemma SummaryTotals(t: Table)
    requires ExampleShape(t)
    ensures var s := MonthStats(Processed(t, 0, [A, B], map[1 := 1]), [A, B], 1);
      s[CompletedTasks] == 8.0 && s[Deliverables] == 3.0 && s[Reviews] == 1.0
  {
    var p := Processed(t, 0, [A, B], map[1 := 1]);
    SummaryProjection(t);
    TwoDepartmentsTotal(p, CompletedTasks, 5.0, 3.0);
    TwoDepartmentsTotal(p, Deliverables, 2.0, 1.0);
    TwoDepartmentsTotal(p, Reviews, 1.0, 0.0);
  }

  /** For the example summary sheet, the month-1 totals are 8, 3 and 1. */
  lemma SummaryExample()
    ensures var s := MonthStats(Processed(Summary(), 0, [A, B], map[1 := 1]), [A, B], 1);
      s[CompletedTasks] == 8.0 && s[Deliverables] == 3.0 && s[Reviews] == 1.0
  {
    SummaryShape();
    SummaryTotals(Summary());
  }

  /** Three departments with 2, 5 and 0 completed tasks in a month, and a
      fourth absent from the projection, total 7. */
  lemma MonthlySumExample(p: ProcessedData, c: Value, absent: Value)
    requires A in p && 3 in p[A] && CompletedTasks in p[A][3] && p[A][3][CompletedTasks] == Num(2.0)
    requires B in p && 3 in p[B] && CompletedTasks in p[B][3] && p[B][3][CompletedTasks] == Num(5.0)
    requires c in p && 3 in p[c] && CompletedTasks in p[c][3] && p[c][3][CompletedTasks] == Num(0.0)
    requires absent !in p
    ensures MonthlySum(p, [A, B, c, absent], 3, CompletedTasks) == 7.0
  {
    var ds := [A, B, c, absent];
    assert ds[..3] == [A, B, c] && ds[..3][..2] == [A, B] && ds[..2][..1] == [A] && ds[..1][..0] == [];
    AbsentDepartmentsAddNothing(p, [A, B, c], absent, 3, CompletedTasks);
    assert MonthlySum(p, [], 3, CompletedTasks) == 0.0;
    assert MonthlySum(p, [A], 3, CompletedTasks) == 2.0;
    assert MonthlySum(p, [A, B], 3, CompletedTasks) == 7.0;
    assert MonthlySum(p, [A, B, c], 3, CompletedTasks) == 7.0;
  }
}
