/** The completion-rate extractor: locating a rate column near a month
    header of the secondary table, normalising percentage encodings and
    averaging them per department. */
module Rates {
  import opened Values
  import opened Sheets
  import opened Columns

  /** The phrase of a planned-task completion-rate header ("计划任务完成率"). */
  const RateMarker: string := "计划任务完成率"
  /** The label the reader gives a column without a header. */
  const UnnamedMarker: string := "Unnamed:"
  /** The header of the combined period of months 1 and 2. */
  const CombinedMarker: string := "1~2月"
  /** How many columns, from a month header on, are searched for a rate. */
  const SearchWidth: nat := 6

  /** Column `i` holds completion rates: its header names the rate, or it
      has no header and its first-row cell names the rate. */
  predicate IsRateColumn(t: Table, i: nat)
  {
    i < |t.headers| &&
    (Contains(t.headers[i], RateMarker) ||
     (Contains(t.headers[i], UnnamedMarker) && |t.rows| > 0 &&
      Cell(t, 0, i).Text? && Contains(Cell(t, 0, i).s, RateMarker)))
  }

  /** The first rate column among positions `i` .. `end - 1`. */
  function ScanWindow(t: Table, i: nat, end: nat): (r: Option<nat>)
    ensures r.Some? ==> i <= r.value < end && IsRateColumn(t, r.value)
    ensures r.Some? ==> forall j :: i <= j < r.value ==> !IsRateColumn(t, j)
    ensures r.None? <==> forall j :: i <= j < end ==> !IsRateColumn(t, j)
    decreases end - i
  {
    if i >= end then None
    else if IsRateColumn(t, i) then Some(i)
    else ScanWindow(t, i + 1, end)
  }

  /** The end of the search window `range(start, min(start + 6, len(columns)))`. */
  function WindowEnd(t: Table, start: nat): nat
  {
    if start + SearchWidth < |t.headers| then start + SearchWidth else |t.headers|
  }

  /** The rate column of the header at `start`: the first rate column
      within six columns from it (itself included). */
  function RateColumn(t: Table, start: nat): (r: Option<nat>)
    ensures r.Some? ==> start <= r.value < start + SearchWidth && IsRateColumn(t, r.value)
    ensures r.Some? ==> forall j :: start <= j < r.value ==> !IsRateColumn(t, j)
    ensures r.None? <==> forall j :: start <= j < start + SearchWidth ==> !IsRateColumn(t, j)
  {
    ScanWindow(t, start, WindowEnd(t, start))
  }

  /** The loop over the search window, with its `break`. */
  method FindRateColumn(t: Table, start: nat) returns (r: Option<nat>)
    ensures r == RateColumn(t, start)
  {
    var end := if start + SearchWidth < |t.headers| then start + SearchWidth else |t.headers|;
    r := None;
    var i := start;
    while i < end
      invariant start <= i
      invariant forall j :: start <= j < i ==> !IsRateColumn(t, j)
    {
      var h := t.headers[i];
      if Contains(h, RateMarker) {
        assert IsRateColumn(t, i);
        r := Some(i);
        return;
      } else if Contains(h, UnnamedMarker) {
        if i < |t.headers| && |t.rows| > 0 {
          var cell := Cell(t, 0, i);
          if cell.Text? && Contains(cell.s, RateMarker) {
            assert IsRateColumn(t, i);
            r := Some(i);
            return;
          }
        }
      }
      i := i + 1;
    }
  }

  /** The header a month's rate is searched from: the combined "1~2月"
      header for months 1 and 2, the first header containing "n月" for
      the other months. */
  function MonthHeader(h: seq<string>, n: nat): Option<nat>
  {
    if n <= 2 then FirstContaining(h, CombinedMarker) else FirstContaining(h, MonthName(n))
  }

  /** The rate column of month `n`, if both its header and a rate column
      near it exist. */
  function RateColumnFor(t: Table, n: nat): Option<nat>
  {
    match MonthHeader(t.headers, n)
    case None => None
    case Some(i) => RateColumn(t, i)
  }

  /** What `valid_values` receives for a cell: a rate, or the text itself
      when it carries no percent sign. */
  datatype Collected = Rate(pct: real) | Raw(text: string)

  /** The normalisation of one cell: empty cells are skipped; text with a
      percent sign is stripped of it and parsed, and dropped when that
      fails; other text is kept as it is; numbers up to 1 are fractions
      and are scaled by 100, larger numbers are already percentages. */
  function Normalise(v: Value, parse: string -> Option<real>): (r: Option<Collected>)
    ensures v.Missing? ==> r.None?
    ensures v.Num? ==> r == Some(Rate(if v.x <= 1.0 then v.x * 100.0 else v.x))
    ensures v.Text? && !Contains(v.s, "%") ==> r == Some(Raw(v.s))
    ensures v.Text? && Contains(v.s, "%") ==>
      r == match parse(Strip(v.s, '%')) case None => None case Some(x) => Some(Rate(x))
  {
    match v
    case Missing => None
    case Num(x) => Some(Rate(if x <= 1.0 then x * 100.0 else x))
    case Text(s) =>
      if Contains(s, "%") then
        match parse(Strip(s, '%'))
        case None => None
        case Some(x) => Some(Rate(x))
      else Some(Raw(s))
  }

  /** A cell is dropped exactly when it is empty or is percent text that
      does not parse, and it is kept as text exactly when it is text
      without a percent sign; every other cell becomes a rate. */
  lemma NormaliseOutcomes(v: Value, parse: string -> Option<real>)
    ensures var r := Normalise(v, parse);
      && (r.None? <==> v.Missing? || (v.Text? && Contains(v.s, "%") && parse(Strip(v.s, '%')).None?))
      && (r.Some? && r.value.Raw? <==> PlainText(v))
      && (v.Num? ==> r.Some? && r.value.Rate?)
  {
  }

  /** The three encodings of a percentage above 1 agree: the fraction
      `x / 100`, the number `x`, and a text with a percent sign whose
      number parses as `x` all give the rate `x`. */
  lemma EncodingsAgree(x: real, s: string, parse: string -> Option<real>)
    requires 1.0 < x <= 100.0
    ensures Normalise(Num(x / 100.0), parse) == Some(Rate(x))
    ensures Normalise(Num(x), parse) == Some(Rate(x))
    ensures Contains(s, "%") && parse(Strip(s, '%')) == Some(x) ==> Normalise(Text(s), parse) == Some(Rate(x))
  {
    assert x / 100.0 <= 1.0;
    assert (x / 100.0) * 100.0 == x;
  }

  /** A cell that encodes a percentage in [0, 100]: empty, a number in
      [0, 100] (a fraction up to 1 or a percentage), or text with a
      percent sign whose number, when it parses, lies in [0, 100]. */
  predicate PercentCell(v: Value, parse: string -> Option<real>)
  {
    match v
    case Missing => true
    case Num(x) => 0.0 <= x <= 100.0
    case Text(s) =>
      Contains(s, "%") && (parse(Strip(s, '%')).Some? ==> 0.0 <= parse(Strip(s, '%')).value <= 100.0)
  }

  /** Normalising keeps the percentage range: such a cell is dropped or
      becomes a rate in [0, 100]. */
  lemma NormaliseWithinPercent(v: Value, parse: string -> Option<real>)
    requires PercentCell(v, parse)
    ensures var r := Normalise(v, parse); r.None? || (r.value.Rate? && 0.0 <= r.value.pct <= 100.0)
  {
  }

  /** `valid_values` for the rows `rows` of column `c`, in row order. */
  function Collect(t: Table, rows: seq<nat>, c: nat, parse: string -> Option<real>): (vs: seq<Collected>)
    ensures |vs| <= |rows|
  {
    if rows == [] then []
    else
      var p := Collect(t, rows[..|rows| - 1], c, parse);
      match Normalise(Cell(t, rows[|rows| - 1], c), parse)
      case None => p
      case Some(v) => p + [v]
  }

  /** Python's `sum` over `valid_values`: a text element raises TypeError. */
  function PySum(vs: seq<Collected>): (r: Outcome<real>)
    ensures r.TypeError? <==> HasRaw(vs)
  {
    if vs == [] then Ok(0.0)
    else
      match PySum(vs[..|vs| - 1])
      case TypeError => TypeError
      case Ok(s) =>
        match vs[|vs| - 1]
        case Raw(_) => TypeError
        case Rate(x) => Ok(s + x)
  }

  /** The mean completion rate of department `d` in column `c`: no value
      when it has no row or no valid value, TypeError when a kept text
      reaches the sum, the arithmetic mean otherwise. */
  function DeptMean(t: Table, dc: nat, d: Value, c: nat, parse: string -> Option<real>): Outcome<Option<real>>
  {
    var rows := RowsOf(t, dc, d);
    if rows == [] then Ok(None)
    else
      var vs := Collect(t, rows, c, parse);
      if vs == [] then Ok(None)
      else match PySum(vs)
        case TypeError => TypeError
        case Ok(s) => Ok(Some(s / |vs| as real))
  }

  /** The loop over a department's rows that fills `valid_values`. */
  method CollectRates(t: Table, rows: seq<nat>, c: nat, parse: string -> Option<real>) returns (vs: seq<Collected>)
    ensures vs == Collect(t, rows, c, parse)
  {
    vs := [];
    for i := 0 to |rows|
      invariant vs == Collect(t, rows[..i], c, parse)
    {
      assert rows[..i + 1][..i] == rows[..i];
      var v := Cell(t, rows[i], c);
      if v.Missing? {
      } else if v.Text? && Contains(v.s, "%") {
        var parsed := parse(Strip(v.s, '%'));
        if parsed.Some? {
          vs := vs + [Rate(parsed.value)];
        }
      } else if v.Num? {
        var x := v.x;
        if x <= 1.0 {
          x := x * 100.0;
        }
        vs := vs + [Rate(x)];
      } else {
        vs := vs + [Raw(v.s)];
      }
    }
    assert rows[..|rows|] == rows;
  }

  /** One department's mean for one located column, as the source computes
      it (rows, valid values, `sum(valid_values) / len(valid_values)`). */
  method DepartmentMean(t: Table, dc: nat, d: Value, c: nat, parse: string -> Option<real>)
    returns (r: Outcome<Option<real>>)
    ensures r == DeptMean(t, dc, d, c, parse)
  {
    var rows := SelectRows(t, dc, d);
    if rows == [] {
      return Ok(None);
    }
    var vs := CollectRates(t, rows, c, parse);
    if vs == [] {
      return Ok(None);
    }
    match PySum(vs)
    case TypeError => r := TypeError;
    case Ok(s) => r := Ok(Some(s / |vs| as real));
  }

  /** Some collected value is a kept text. */
  predicate HasRaw(vs: seq<Collected>)
  {
    exists i :: 0 <= i < |vs| && vs[i].Raw?
  }

  /** A cell that `valid_values` keeps as text: text without a percent sign. */
  predicate PlainText(v: Value)
  {
    v.Text? && !Contains(v.s, "%")
  }

  /** Some row among `rows` holds a plain text in column `c`. */
  predicate HasPlain(t: Table, rows: seq<nat>, c: nat)
  {
    exists j :: 0 <= j < |rows| && PlainText(Cell(t, rows[j], c))
  }

  lemma HasRawAppend(p: seq<Collected>, v: Collected)
    ensures HasRaw(p + [v]) <==> HasRaw(p) || v.Raw?
  {
    var q := p + [v];
    if HasRaw(p) {
      var i :| 0 <= i < |p| && p[i].Raw?;
      assert q[i] == p[i];
    }
    if v.Raw? {
      assert q[|p|] == v;
    }
    if HasRaw(q) {
      var i :| 0 <= i < |q| && q[i].Raw?;
      if i < |p| {
        assert p[i] == q[i];
      }
    }
  }

  lemma HasPlainLast(t: Table, rows: seq<nat>, c: nat)
    requires rows != []
    ensures HasPlain(t, rows, c) <==>
      HasPlain(t, rows[..|rows| - 1], c) || PlainText(Cell(t, rows[|rows| - 1], c))
  {
    var pre := rows[..|rows| - 1];
    if HasPlain(t, pre, c) {
      var j :| 0 <= j < |pre| && PlainText(Cell(t, pre[j], c));
      assert rows[j] == pre[j];
    }
    if HasPlain(t, rows, c) {
      var j :| 0 <= j < |rows| && PlainText(Cell(t, rows[j], c));
      if j < |pre| {
        assert pre[j] == rows[j];
      }
    }
  }

  /** A kept text is exactly a cell of the department's rows that is text
      without a percent sign. */
  lemma {:induction false} RawIffPlainText(t: Table, rows: seq<nat>, c: nat, parse: string -> Option<real>)
    ensures HasRaw(Collect(t, rows, c, parse)) <==> HasPlain(t, rows, c)
  {
    if rows != [] {
      var pre := rows[..|rows| - 1];
      var last := Cell(t, rows[|rows| - 1], c);
      RawIffPlainText(t, pre, c, parse);
      HasPlainLast(t, rows, c);
      var p := Collect(t, pre, c, parse);
      match Normalise(last, parse)
      case None =>
        assert Collect(t, rows, c, parse) == p;
      case Some(v) =>
        assert Collect(t, rows, c, parse) == p + [v];
        HasRawAppend(p, v);
    }
  }

  /** A department's mean raises exactly when one of its rows holds text
      without a percent sign in the column. */
  lemma MeanRaisesIffPlainText(t: Table, dc: nat, d: Value, c: nat, parse: string -> Option<real>)
    ensures DeptMean(t, dc, d, c, parse).TypeError? <==>
      exists j :: 0 <= j < |RowsOf(t, dc, d)| && PlainText(Cell(t, RowsOf(t, dc, d)[j], c))
  {
    var rows := RowsOf(t, dc, d);
    RawIffPlainText(t, rows, c, parse);
  }

  /** Every collected value is a rate within [lo, hi]. */
  predicate RatesWithin(vs: seq<Collected>, lo: real, hi: real)
  {
    forall i :: 0 <= i < |vs| ==> vs[i].Rate? && lo <= vs[i].pct <= hi
  }

  /** The sum of rates that all lie in [lo, hi] lies in [n * lo, n * hi]. */
  lemma {:induction false} SumWithin(vs: seq<Collected>, lo: real, hi: real)
    requires RatesWithin(vs, lo, hi)
    ensures PySum(vs).Ok?
    ensures |vs| as real * lo <= PySum(vs).value <= |vs| as real * hi
  {
    if vs != [] {
      SumWithin(vs[..|vs| - 1], lo, hi);
    }
  }

  /** When every value a department contributes is a rate in [lo, hi],
      its mean, if any, lies in [lo, hi]: averaging never leaves the range
      of the normalised values. */
  lemma MeanWithin(t: Table, dc: nat, d: Value, c: nat, parse: string -> Option<real>, lo: real, hi: real)
    requires RatesWithin(Collect(t, RowsOf(t, dc, d), c, parse), lo, hi)
    ensures DeptMean(t, dc, d, c, parse).Ok?
    ensures DeptMean(t, dc, d, c, parse).value.Some? ==> lo <= DeptMean(t, dc, d, c, parse).value.value <= hi
  {
    var rows := RowsOf(t, dc, d);
    if rows != [] {
      var vs := Collect(t, rows, c, parse);
      if vs != [] {
        AverageWithin(vs, lo, hi);
      }
    }
  }

  /** The average of rates in [lo, hi] lies in [lo, hi]. */
  lemma AverageWithin(vs: seq<Collected>, lo: real, hi: real)
    requires vs != [] && RatesWithin(vs, lo, hi)
    ensures PySum(vs).Ok? && lo <= PySum(vs).value / |vs| as real <= hi
  {
    SumWithin(vs, lo, hi);
    DivideWithin(PySum(vs).value, |vs| as real, lo, hi);
  }

  /** Rows whose cells all encode percentages in [0, 100] collect only
      rates in [0, 100]. */
  lemma {:induction false} CollectWithinPercent(t: Table, rows: seq<nat>, c: nat, parse: string -> Option<real>)
    requires forall j :: 0 <= j < |rows| ==> PercentCell(Cell(t, rows[j], c), parse)
    ensures RatesWithin(Collect(t, rows, c, parse), 0.0, 100.0)
  {
    if rows != [] {
      var pre := rows[..|rows| - 1];
      assert forall j :: 0 <= j < |pre| ==> pre[j] == rows[j];
      CollectWithinPercent(t, pre, c, parse);
      NormaliseWithinPercent(Cell(t, rows[|rows| - 1], c), parse);
    }
  }

  lemma DivideWithin(s: real, n: real, lo: real, hi: real)
    requires n > 0.0 && n * lo <= s <= n * hi
    ensures lo <= s / n <= hi
  {
    var q := s / n;
    assert q * n == s;
    assert (q - lo) * n >= 0.0;
    assert (hi - q) * n >= 0.0;
  }

  /** The rate of department `d` in month `n`. */
  function RateFor(t: Table, dc: nat, d: Value, n: nat, parse: string -> Option<real>): Outcome<Option<real>>
  {
    match RateColumnFor(t, n)
    case None => Ok(None)
    case Some(c) => DeptMean(t, dc, d, c, parse)
  }

  /** The rate that is stored when nothing raised. */
  function RateOr(t: Table, dc: nat, d: Value, n: nat, parse: string -> Option<real>): Option<real>
  {
    match RateFor(t, dc, d, n, parse)
    case Ok(v) => v
    case TypeError => None
  }

  /** Some department's mean for some month raises. */
  predicate Raises(t: Table, dc: nat, depts: seq<Value>, parse: string -> Option<real>)
  {
    exists i, n :: 0 <= i < |depts| && 1 <= n <= 12 && RateFor(t, dc, depts[i], n, parse).TypeError?
  }

  /** `completion_data`: department -> month (1..12) -> rate or no data. */
  type CompletionData = map<Value, map<nat, Option<real>>>

  /** Every month of the year with no data. */
  const Year: set<nat> := set n: nat | 1 <= n <= 12

  function NoDataMonths(): (m: map<nat, Option<real>>)
    ensures forall n: nat :: n in m <==> 1 <= n <= 12
    ensures forall n :: n in m ==> m[n] == None
  {
    map n | n in Year :: None
  }

  /** The rates of one department for every month of the year. */
  function DeptRates(t: Table, dc: nat, d: Value, parse: string -> Option<real>): map<nat, Option<real>>
  {
    map n: nat | 1 <= n <= 12 :: RateOr(t, dc, d, n, parse)
  }

  /** The outcome of `_process_task_status_data` for the departments
      `depts` of the primary table: TypeError when some mean raises,
      otherwise one entry per department with all twelve months. */
  function Completion(t: Table, depts: seq<Value>, parse: string -> Option<real>): Outcome<CompletionData>
  {
    var dc := DeptColumn(t.headers);
    if Raises(t, dc, depts, parse) then TypeError
    else Ok(map d | d in depts :: DeptRates(t, dc, d, parse))
  }

  /** Every department of the primary table gets all twelve months, found
      or not, whenever nothing raised. */
  lemma CompletionShape(t: Table, depts: seq<Value>, parse: string -> Option<real>, d: Value)
    requires Completion(t, depts, parse).Ok?
    ensures var c := Completion(t, depts, parse).value;
      && (d in c <==> d in depts)
      && (d in c ==> forall n: nat :: n in c[d] <==> 1 <= n <= 12)
  {
  }

  /** The combined "1~2月" mean is assigned to both month 1 and month 2. */
  lemma CombinedPeriodShared(t: Table, depts: seq<Value>, parse: string -> Option<real>, d: Value)
    requires Completion(t, depts, parse).Ok? && d in depts
    ensures Completion(t, depts, parse).value[d][1] == Completion(t, depts, parse).value[d][2]
  {
    var dc := DeptColumn(t.headers);
    assert RateColumnFor(t, 1) == RateColumnFor(t, 2);
    assert DeptRates(t, dc, d, parse)[1] == RateOr(t, dc, d, 1, parse);
    assert DeptRates(t, dc, d, parse)[2] == RateOr(t, dc, d, 2, parse);
  }

  /** A month without a located rate column reports no data for every
      department; a month with one reports that column's mean. */
  lemma MonthRateSource(t: Table, depts: seq<Value>, parse: string -> Option<real>, d: Value, n: nat)
    requires Completion(t, depts, parse).Ok? && d in depts && 1 <= n <= 12
    ensures var dc := DeptColumn(t.headers);
      var rate := Completion(t, depts, parse).value[d][n];
      && (RateColumnFor(t, n).None? ==> rate.None?)
      && (RateColumnFor(t, n).Some? ==> Ok(rate) == DeptMean(t, dc, d, RateColumnFor(t, n).value, parse))
  {
    var dc := DeptColumn(t.headers);
    assert DeptRates(t, dc, d, parse)[n] == RateOr(t, dc, d, n, parse);
    if RateColumnFor(t, n).Some? {
      var i :| 0 <= i < |depts| && depts[i] == d;
      assert !RateFor(t, dc, depts[i], n, parse).TypeError?;
    }
  }

  /** The extraction fails exactly when, for some month with a located
      rate column, some department has a row whose cell there is text
      without a percent sign. */
  lemma CompletionFailsIffPlainText(t: Table, depts: seq<Value>, parse: string -> Option<real>)
    ensures var dc := DeptColumn(t.headers);
      Completion(t, depts, parse).TypeError? <==>
        exists i, n :: 0 <= i < |depts| && 1 <= n <= 12 && RateColumnFor(t, n).Some? &&
          exists j :: 0 <= j < |RowsOf(t, dc, depts[i])| &&
            PlainText(Cell(t, RowsOf(t, dc, depts[i])[j], RateColumnFor(t, n).value))
  {
    var dc := DeptColumn(t.headers);
    forall i, n | 0 <= i < |depts| && 1 <= n <= 12 && RateColumnFor(t, n).Some?
      ensures RateFor(t, dc, depts[i], n, parse).TypeError? <==>
        exists j :: 0 <= j < |RowsOf(t, dc, depts[i])| &&
          PlainText(Cell(t, RowsOf(t, dc, depts[i])[j], RateColumnFor(t, n).value))
    {
      MeanRaisesIffPlainText(t, dc, depts[i], RateColumnFor(t, n).value, parse);
    }
  }
  /** Every located rate column of the table holds only cells that encode
      percentages in [0, 100]. */
  ghost predicate PercentColumns(t: Table, parse: string -> Option<real>)
  {
    forall n: nat, r: nat :: 1 <= n <= 12 && RateColumnFor(t, n).Some? ==>
      PercentCell(Cell(t, r, RateColumnFor(t, n).value), parse)
  }

  /** With percentage cells in the located columns, a department's rate
      for a month is found without error and lies in [0, 100]. */
  lemma RateWithinPercent(t: Table, dc: nat, d: Value, n: nat, parse: string -> Option<real>)
    requires PercentColumns(t, parse) && 1 <= n <= 12
    ensures RateFor(t, dc, d, n, parse).Ok?
    ensures RateFor(t, dc, d, n, parse).value.Some? ==> 0.0 <= RateFor(t, dc, d, n, parse).value.value <= 100.0
  {
    if RateColumnFor(t, n).Some? {
      var c := RateColumnFor(t, n).value;
      var rows := RowsOf(t, dc, d);
      assert forall j :: 0 <= j < |rows| ==> PercentCell(Cell(t, rows[j], c), parse);
      CollectWithinPercent(t, rows, c, parse);
      MeanWithin(t, dc, d, c, parse, 0.0, 100.0);
    }
  }

  /** The completion table of such a sheet is built without error, and
      every rate it holds lies in [0, 100]: averaging never leaves the
      range of the normalised cells. */
  lemma CompletionWithinPercent(t: Table, depts: seq<Value>, parse: string -> Option<real>)
    requires PercentColumns(t, parse)
    ensures Completion(t, depts, parse).Ok?
    ensures forall d: Value, n: nat :: d in depts && 1 <= n <= 12 && Completion(t, depts, parse).value[d][n].Some? ==>
      0.0 <= Completion(t, depts, parse).value[d][n].value <= 100.0
  {
    var dc := DeptColumn(t.headers);
    forall i, n | 0 <= i < |depts| && 1 <= n <= 12
      ensures !RateFor(t, dc, depts[i], n, parse).TypeError?
    {
      RateWithinPercent(t, dc, depts[i], n, parse);
    }
    var c: CompletionData := Completion(t, depts, parse).value;
    forall d: Value, n: nat | d in depts && 1 <= n <= 12 && c[d][n].Some?
      ensures 0.0 <= c[d][n].value <= 100.0
    {
      RateWithinPercent(t, dc, d, n, parse);
      assert c[d] == DeptRates(t, dc, d, parse);
      assert c[d][n] == RateOr(t, dc, d, n, parse);
    }
  }
}
