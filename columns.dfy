/** Column classification: header searches, the department column and its
    distinct values, the rows of one department, the month-to-column
    bindings of the primary table and the sorted month list. */
module Columns {
  import opened Values
  import opened Sheets

  /** The marker a department header contains ("部门"). */
  const DeptMarker: string := "部门"

  /** The first header, in column order, that contains `marker`. */
  function FirstContaining(h: seq<string>, marker: string): (r: Option<nat>)
    ensures r.Some? ==> r.value < |h| && Contains(h[r.value], marker)
    ensures r.Some? ==> forall j :: 0 <= j < r.value ==> !Contains(h[j], marker)
    ensures r.None? <==> forall j :: 0 <= j < |h| ==> !Contains(h[j], marker)
  {
    if |h| == 0 then None
    else if Contains(h[0], marker) then Some(0)
    else match FirstContaining(h[1..], marker)
      case None => None
      case Some(i) => Some(i + 1)
  }

  /** The loop `for col in columns: if marker in col: break`. */
  method FindColumn(h: seq<string>, marker: string) returns (r: Option<nat>)
    ensures r == FirstContaining(h, marker)
  {
    r := None;
    var i := 0;
    while i < |h|
      invariant 0 <= i <= |h|
      invariant forall j :: 0 <= j < i ==> !Contains(h[j], marker)
    {
      if Contains(h[i], marker) {
        r := Some(i);
        return;
      }
      i := i + 1;
    }
  }

  /** The department column: the first header containing the marker, or
      column 0 when none does. */
  function DeptColumn(h: seq<string>): nat
  {
    match FirstContaining(h, DeptMarker)
    case Some(i) => i
    case None => 0
  }

  /** The department column is never a later column than a header that
      carries the marker, and it is column 0 when no header carries it. */
  lemma DeptColumnIsFirstMarked(h: seq<string>, j: nat)
    requires j < |h|
    ensures Contains(h[j], DeptMarker) ==> DeptColumn(h) <= j && Contains(h[DeptColumn(h)], DeptMarker)
    ensures (forall k :: 0 <= k < |h| ==> !Contains(h[k], DeptMarker)) ==> DeptColumn(h) == 0
  {
  }

  /** Column `c` of `t`, one cell per row. */
  function Column(t: Table, c: nat): (col: seq<Value>)
    ensures |col| == |t.rows|
    ensures forall r :: 0 <= r < |col| ==> col[r] == Cell(t, r, c)
  {
    seq(|t.rows|, r requires 0 <= r < |t.rows| => Cell(t, r, c))
  }

  /** The position of the first occurrence of `v` in `s`. */
  function IndexOf(s: seq<Value>, v: Value): (i: nat)
    requires v in s
    ensures i < |s| && s[i] == v
    ensures forall k :: 0 <= k < i ==> s[k] != v
  {
    if s[0] == v then 0 else 1 + IndexOf(s[1..], v)
  }

  predicate Distinct(s: seq<Value>)
  {
    forall i, j :: 0 <= i < j < |s| ==> s[i] != s[j]
  }

  /** `col.dropna().unique()`: the distinct non-empty values in order of
      first appearance. */
  function UniqueNonMissing(col: seq<Value>): seq<Value>
  {
    if |col| == 0 then []
    else
      var p := UniqueNonMissing(col[..|col| - 1]);
      var v := col[|col| - 1];
      if v == Missing || v in p then p else p + [v]
  }

  /** The list holds each non-empty value of the column exactly once. */
  lemma {:induction false} UniqueNonMissingMembers(col: seq<Value>)
    ensures var r := UniqueNonMissing(col);
      && Distinct(r) && Missing !in r
      && (forall v :: v in r <==> v in col && v != Missing)
  {
    if |col| > 0 {
      var pre := col[..|col| - 1];
      var v := col[|col| - 1];
      UniqueNonMissingMembers(pre);
      assert col == pre + [v];
    }
  }

  /** The list is in order of first appearance in the column. */
  lemma {:induction false} UniqueNonMissingOrder(col: seq<Value>)
    ensures var r := UniqueNonMissing(col);
      && (forall v :: v in r ==> v in col)
      && (forall i, j :: 0 <= i < j < |r| ==> IndexOf(col, r[i]) < IndexOf(col, r[j]))
  {
    UniqueNonMissingMembers(col);
    if |col| > 0 {
      var pre := col[..|col| - 1];
      var p := UniqueNonMissing(pre);
      var v := col[|col| - 1];
      UniqueNonMissingOrder(pre);
      UniqueNonMissingMembers(pre);
      FirstSeenPrefix(col, p);
      if v != Missing && v !in p {
        IndexOfUnique(col, v, |col| - 1);
        var r := p + [v];
        forall i, j | 0 <= i < j < |r| ensures IndexOf(col, r[i]) < IndexOf(col, r[j]) {
          assert r[i] == p[i];
          if j < |p| {
            assert r[j] == p[j];
          }
        }
      }
    }
  }

  /** Both halves: each non-empty value once, in order of first
      appearance. */
  lemma UniqueNonMissingSpec(col: seq<Value>)
    ensures var r := UniqueNonMissing(col);
      && Distinct(r) && Missing !in r
      && (forall v :: v in r <==> v in col && v != Missing)
      && (forall i, j :: 0 <= i < j < |r| ==> IndexOf(col, r[i]) < IndexOf(col, r[j]))
  {
    UniqueNonMissingMembers(col);
    UniqueNonMissingOrder(col);
  }

  /** Values of the prefix keep their first index in the whole column. */
  lemma FirstSeenPrefix(col: seq<Value>, p: seq<Value>)
    requires |col| > 0
    requires forall v :: v in p ==> v in col[..|col| - 1]
    ensures forall v :: v in p ==> v in col && IndexOf(col, v) == IndexOf(col[..|col| - 1], v)
  {
    forall v | v in p
      ensures v in col && IndexOf(col, v) == IndexOf(col[..|col| - 1], v)
    {
      var pre := col[..|col| - 1];
      var i := IndexOf(pre, v);
      assert col[i] == v;
      assert forall k :: 0 <= k < i ==> col[k] == pre[k];
      IndexOfUnique(col, v, i);
    }
  }

  /** The first occurrence is the only position with nothing equal before it. */
  lemma {:induction false} IndexOfUnique(s: seq<Value>, v: Value, i: nat)
    requires i < |s| && s[i] == v
    requires forall k :: 0 <= k < i ==> s[k] != v
    ensures IndexOf(s, v) == i
  {
    if i > 0 {
      assert s[0] != v;
      IndexOfUnique(s[1..], v, i - 1);
    }
  }

  /** The department list: the distinct non-empty values of the
      department column, in order of first appearance. */
  function Departments(t: Table): seq<Value>
  {
    UniqueNonMissing(Column(t, DeptColumn(t.headers)))
  }

  /** The loop that collects the distinct non-empty values of column `c`. */
  method CollectDepartments(t: Table, c: nat) returns (depts: seq<Value>)
    ensures depts == UniqueNonMissing(Column(t, c))
  {
    var col := Column(t, c);
    depts := [];
    var r := 0;
    while r < |t.rows|
      invariant 0 <= r <= |t.rows|
      invariant depts == UniqueNonMissing(col[..r])
    {
      var v := Cell(t, r, c);
      assert col[..r + 1][..r] == col[..r];
      if v != Missing && v !in depts {
        depts := depts + [v];
      }
      r := r + 1;
    }
    assert col[..r] == col;
  }

  /** pandas' element-wise `column == v`: an empty cell equals nothing. */
  predicate Matches(cell: Value, v: Value)
  {
    cell != Missing && cell == v
  }

  /** The rows among the first `n` whose cell in column `c` equals `v`,
      in row order. */
  function RowsBelow(t: Table, c: nat, v: Value, n: nat): seq<nat>
    requires n <= |t.rows|
  {
    if n == 0 then []
    else
      var p := RowsBelow(t, c, v, n - 1);
      if Matches(Cell(t, n - 1, c), v) then p + [n - 1] else p
  }

  /** The selected rows are exactly the matching rows below `n`, in
      increasing order. */
  lemma {:induction false} RowsBelowSpec(t: Table, c: nat, v: Value, n: nat)
    requires n <= |t.rows|
    ensures var rows := RowsBelow(t, c, v, n);
      && (forall i :: 0 <= i < |rows| ==> rows[i] < n && Matches(Cell(t, rows[i], c), v))
      && (forall i, j :: 0 <= i < j < |rows| ==> rows[i] < rows[j])
      && (forall r :: 0 <= r < n && Matches(Cell(t, r, c), v) ==> r in rows)
  {
    if n > 0 {
      RowsBelowSpec(t, c, v, n - 1);
    }
  }

  /** `t[t[col] == v]`: the rows of department `v`, in row order. */
  function RowsOf(t: Table, c: nat, v: Value): seq<nat>
  {
    RowsBelow(t, c, v, |t.rows|)
  }

  /** A distinct value of the department column has at least one row, and
      its first row is the row where it first appears. */
  lemma {:induction false} DepartmentHasRows(t: Table, c: nat, v: Value)
    requires v in UniqueNonMissing(Column(t, c))
    ensures RowsOf(t, c, v) != []
    ensures v in Column(t, c) && RowsOf(t, c, v)[0] == IndexOf(Column(t, c), v)
  {
    var col := Column(t, c);
    UniqueNonMissingSpec(col);
    var i := IndexOf(col, v);
    assert Matches(Cell(t, i, c), v);
    var rows := RowsOf(t, c, v);
    RowsBelowSpec(t, c, v, |t.rows|);
    assert i in rows;
    assert Cell(t, rows[0], c) == col[rows[0]];
  }

  /** The loop that selects the rows of one department. */
  method SelectRows(t: Table, c: nat, v: Value) returns (rows: seq<nat>)
    ensures rows == RowsOf(t, c, v)
  {
    rows := [];
    var r := 0;
    while r < |t.rows|
      invariant 0 <= r <= |t.rows|
      invariant rows == RowsBelow(t, c, v, r)
    {
      if Matches(Cell(t, r, c), v) {
        rows := rows + [r];
      }
      r := r + 1;
    }
  }

  /** The number of consecutive ASCII digits of `s` from position `p`. */
  function DigitRun(s: string, p: nat): (k: nat)
    requires p <= |s|
    ensures p + k <= |s|
    ensures forall q :: p <= q < p + k ==> IsDigit(s[q])
    ensures p + k < |s| ==> !IsDigit(s[p + k])
    decreases |s| - p
  {
    if p < |s| && IsDigit(s[p]) then 1 + DigitRun(s, p + 1) else 0
  }

  /** `(\d+)月` matches at position `p`: a digit run starts there and the
      month suffix follows it. */
  predicate MatchAt(s: string, p: nat)
  {
    p < |s| && IsDigit(s[p]) && p + DigitRun(s, p) < |s| && s[p + DigitRun(s, p)] == MonthSuffix
  }

  /** The integer read from the digit run of a match at `p`. */
  function MatchValue(s: string, p: nat): nat
    requires MatchAt(s, p)
  {
    DecimalValue(s[p..p + DigitRun(s, p)])
  }

  /** `re.search(r'(\d+)月', s)` from position `p`: the leftmost match. */
  function MonthMatchFrom(s: string, p: nat): Option<nat>
    requires p <= |s|
    decreases |s| - p
  {
    if p == |s| then None
    else if MatchAt(s, p) then Some(MatchValue(s, p))
    else MonthMatchFrom(s, p + 1)
  }

  /** The search finds nothing exactly when no position matches, and
      otherwise reads the leftmost match. */
  lemma {:induction false} MonthMatchSpec(s: string, p: nat)
    requires p <= |s|
    ensures MonthMatchFrom(s, p).None? <==> forall q :: p <= q < |s| ==> !MatchAt(s, q)
    ensures forall q :: p <= q < |s| && MatchAt(s, q) && (forall q' :: p <= q' < q ==> !MatchAt(s, q')) ==>
                MonthMatchFrom(s, p) == Some(MatchValue(s, q))
    decreases |s| - p
  {
    if p < |s| && !MatchAt(s, p) {
      MonthMatchSpec(s, p + 1);
    }
  }

  /** `int(re.search(r'(\d+)月', s).group(1))`, or None without a match. */
  function MonthMatch(s: string): Option<nat>
  {
    MonthMatchFrom(s, 0)
  }

  /** A header that starts with a month name matches that month. */
  lemma MonthHeaderMatches(n: nat, rest: string)
    ensures MonthMatch(MonthName(n) + rest) == Some(n)
  {
    var d := NatToDecimal(n);
    var s := MonthName(n) + rest;
    assert s[..|d|] == d;
    DigitRunOfDecimal(s, |d|);
    assert s[|d|] == MonthSuffix;
    assert s[0..DigitRun(s, 0)] == d;
    DecimalRoundTrip(n);
  }

  lemma {:induction false} DigitRunOfDecimal(s: string, k: nat)
    requires k < |s| && !IsDigit(s[k])
    requires forall q :: 0 <= q < k ==> IsDigit(s[q])
    ensures DigitRun(s, 0) == k
  {
    DigitRunFrom(s, 0, k);
  }

  lemma {:induction false} DigitRunFrom(s: string, p: nat, k: nat)
    requires p <= k < |s| && !IsDigit(s[k])
    requires forall q :: p <= q < k ==> IsDigit(s[q])
    ensures DigitRun(s, p) == k - p
    decreases k - p
  {
    if p < k {
      DigitRunFrom(s, p + 1, k);
    }
  }

  /** A header without the month suffix matches no month. */
  lemma NoSuffixNoMatch(s: string)
    requires MonthSuffix !in s
    ensures MonthMatch(s) == None
  {
    forall q | 0 <= q < |s| ensures !MatchAt(s, q) {
      var k := q + DigitRun(s, q);
      if k < |s| {
        assert s[k] in s;
      }
    }
    MonthMatchSpec(s, 0);
  }

  /** The month number each header names, position by position. */
  function HeaderMonths(h: seq<string>): (ms: seq<Option<nat>>)
    ensures |ms| == |h|
    ensures forall k :: 0 <= k < |h| ==> ms[k] == MonthMatch(h[k])
  {
    seq(|h|, k requires 0 <= k < |h| => MonthMatch(h[k]))
  }

  /** A month header at position `k` can be bound when two more columns
      follow it. */
  predicate Bindable(ms: seq<Option<nat>>, k: nat)
  {
    k + 2 < |ms| && ms[k].Some?
  }

  /** The month-to-first-metric-column mapping built from the first `j`
      headers: each month header with two columns after it binds its
      month number to its own position, a later header overwriting an
      earlier one. */
  function BindPrefix(ms: seq<Option<nat>>, j: nat): map<nat, nat>
    requires j <= |ms|
  {
    if j == 0 then map[]
    else
      var m := BindPrefix(ms, j - 1);
      if Bindable(ms, j - 1) then m[ms[j - 1].value := j - 1] else m
  }

  /** What the bindings of the first `j` headers are: every bound month
      points at a bindable header for that month, no later bindable header
      is for the same month, and every bindable header's month is bound. */
  lemma {:induction false} BindPrefixSpec(ms: seq<Option<nat>>, j: nat)
    requires j <= |ms|
    ensures var m := BindPrefix(ms, j);
      && (forall n :: n in m ==> m[n] < j && Bindable(ms, m[n]) && ms[m[n]] == Some(n))
      && (forall n, k :: n in m && m[n] < k < j && Bindable(ms, k) ==> ms[k] != Some(n))
      && (forall k :: 0 <= k < j && Bindable(ms, k) ==> ms[k].value in m)
  {
    if j > 0 {
      BindPrefixSpec(ms, j - 1);
      var prev := BindPrefix(ms, j - 1);
      if Bindable(ms, j - 1) {
        var n0 := ms[j - 1].value;
        assert ms[j - 1] == Some(n0);
        assert BindPrefix(ms, j) == prev[n0 := j - 1];
      } else {
        assert BindPrefix(ms, j) == prev;
      }
    }
  }

  /** The month bindings of the whole header row. */
  function MonthBindings(h: seq<string>): map<nat, nat>
  {
    BindPrefix(HeaderMonths(h), |h|)
  }

  /** The loop over the headers that fills `month_metrics_mapping`. */
  method BindMonths(h: seq<string>) returns (m: map<nat, nat>)
    ensures m == MonthBindings(h)
  {
    ghost var ms := HeaderMonths(h);
    m := map[];
    var j := 0;
    while j < |h|
      invariant 0 <= j <= |h|
      invariant m == BindPrefix(ms, j)
    {
      var found := MonthMatch(h[j]);
      if found.Some? && j + 2 < |h| {
        m := m[found.value := j];
      }
      j := j + 1;
    }
  }

  /** Month `n` is bound to the last header that names it among those
      with two columns after them; headers without two more columns are
      not bound at all. */
  lemma MonthBindingIsLastHeader(h: seq<string>, n: nat)
    ensures n in MonthBindings(h) <==>
      exists k :: 0 <= k < |h| - 2 && MonthMatch(h[k]) == Some(n)
    ensures n in MonthBindings(h) ==>
      var k := MonthBindings(h)[n];
      && k + 2 < |h| && MonthMatch(h[k]) == Some(n)
      && forall q :: k < q < |h| - 2 ==> MonthMatch(h[q]) != Some(n)
  {
    var ms := HeaderMonths(h);
    BindPrefixSpec(ms, |h|);
    if exists k :: 0 <= k < |h| - 2 && MonthMatch(h[k]) == Some(n) {
      var k :| 0 <= k < |h| - 2 && MonthMatch(h[k]) == Some(n);
      assert Bindable(ms, k);
    }
  }

  /** The least element of a non-empty set of month numbers. */
  function MinOf(s: set<nat>): (m: nat)
    requires s != {}
    ensures m in s && forall x :: x in s ==> m <= x
  {
    MinExists(s);
    var m :| m in s && forall x :: x in s ==> m <= x;
    m
  }

  lemma MinExists(s: set<nat>)
    requires s != {}
    ensures exists m :: m in s && forall x :: x in s ==> m <= x
  {
    var w :| w in s;
    MinBelow(s, w);
  }

  /** A set holding `w` has a least element, found by descending from `w`. */
  lemma {:induction false} MinBelow(s: set<nat>, w: nat)
    requires w in s
    ensures exists m :: m in s && forall x :: x in s ==> m <= x
    decreases w
  {
    if exists x :: x in s && x < w {
      var x :| x in s && x < w;
      MinBelow(s, x);
    } else {
      assert forall x :: x in s ==> w <= x;
    }
  }

  /** `sorted(keys)`: the month numbers in strictly ascending order. */
  function SortedKeys(s: set<nat>): (r: seq<nat>)
    ensures forall i, j :: 0 <= i < j < |r| ==> r[i] < r[j]
    ensures forall x :: x in r <==> x in s
    ensures |r| == |s|
    decreases s
  {
    if s == {} then []
    else
      var m := MinOf(s);
      [m] + SortedKeys(s - {m})
  }

  /** The discovered months, ascending, whatever the header order. */
  function Months(h: seq<string>): seq<nat>
  {
    SortedKeys(MonthBindings(h).Keys)
  }
}
