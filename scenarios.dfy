/** Concrete instances of the rules on small tables: sheet choice, month
    ordering, percentage normalisation, the combined period, and the
    ranking with ties and padding. */
module Scenarios {
  import opened Values
  import opened Sheets
  import opened Columns
  import opened Rates
  import opened Queries

  /** Named sheets win over position; a single sheet gets an empty
      secondary table; no sheet at all is a failure. */
  lemma SheetChoiceExamples(a: Table, b: Table, c: Table)
    ensures ResolveSheets(Sheets([("Data", a), ("TaskStatus", b), ("Summary", c)])) == Loaded(c, b)
    ensures ResolveSheets(Sheets([("Data", a), ("Other", b)])) == Loaded(a, b)
    ensures ResolveSheets(Sheets([("Data", a)])) == Loaded(a, EmptyTable)
    ensures ResolveSheets(Sheets([])) == NoSheets
  {
    var s := [("Data", a), ("TaskStatus", b), ("Summary", c)];
    assert s[2].0 == PrimaryName && s[1].0 == SecondaryName;
    NamedSheetsWin(s, 2, 1);
    var s2 := [("Data", a), ("Other", b)];
    assert !HasSheet(s2, PrimaryName);
  }

  /** A text in which no position starts with the first character of
      `sub` does not contain `sub`. */
  lemma {:induction false} Absent(s: string, sub: string)
    requires |sub| > 0
    requires forall i :: 0 <= i < |s| && i + |sub| <= |s| ==> s[i] != sub[0]
    ensures !Contains(s, sub)
    decreases |s|
  {
    if |s| > 0 {
      var s' := s[1..];
      assert forall i :: 0 <= i < |s'| ==> s'[i] == s[i + 1];
      Absent(s', sub);
    }
  }

  /** A primary header row with months out of order and one month header
      too close to the end. */
  const Header: seq<string> := ["部门", "7月", "u", "v", "3月", "w", "x", "12月", "y"]

  /** The three month headers match their month; the other headers have
      no "月" and match nothing. */
  lemma HeaderCells()
    ensures MonthMatch("7月") == Some(7) && MonthMatch("3月") == Some(3) && MonthMatch("12月") == Some(12)
    ensures MonthMatch("部门") == None && MonthMatch("u") == None && MonthMatch("v") == None
    ensures MonthMatch("w") == None && MonthMatch("x") == None && MonthMatch("y") == None
  {
    assert MonthName(7) + "" == "7月" && MonthName(3) + "" == "3月" && MonthName(12) + "" == "12月";
    MonthHeaderMatches(7, "");
    MonthHeaderMatches(3, "");
    MonthHeaderMatches(12, "");
    NoSuffixNoMatch("部门");
    NoSuffixNoMatch("u");
    NoSuffixNoMatch("v");
    NoSuffixNoMatch("w");
    NoSuffixNoMatch("x");
    NoSuffixNoMatch("y");
  }

  lemma HeaderMonthsExample()
    ensures HeaderMonths(Header) == [None, Some(7), None, None, Some(3), None, None, Some(12), None]
  {
    HeaderCells();
    var ms := HeaderMonths(Header);
    var expected: seq<Option<nat>> := [None, Some(7), None, None, Some(3), None, None, Some(12), None];
    assert |ms| == |expected|;
    forall k | 0 <= k < |ms| ensures ms[k] == expected[k] {
      assert ms[k] == MonthMatch(Header[k]);
    }
  }

  /** Months 7 and 3 are bound to their header columns; the "12月" header
      has only one column after it and is not bound. */
  lemma BindingsExample()
    ensures MonthBindings(Header) == map[7 := 1, 3 := 4]
  {
    HeaderMonthsExample();
    var ms := HeaderMonths(Header);
    assert BindPrefix(ms, 0) == map[];
    assert !Bindable(ms, 0);
    assert BindPrefix(ms, 1) == map[];
    assert Bindable(ms, 1) && ms[1].value == 7;
    assert BindPrefix(ms, 2) == map[7 := 1];
    assert BindPrefix(ms, 3) == map[7 := 1];
    assert BindPrefix(ms, 4) == map[7 := 1];
    assert Bindable(ms, 4) && ms[4].value == 3;
    assert BindPrefix(ms, 5) == map[7 := 1, 3 := 4];
    assert BindPrefix(ms, 6) == map[7 := 1, 3 := 4];
    assert BindPrefix(ms, 7) == map[7 := 1, 3 := 4];
    assert !Bindable(ms, 7) && !Bindable(ms, 8);
    assert BindPrefix(ms, 8) == map[7 := 1, 3 := 4];
    assert BindPrefix(ms, 9) == map[7 := 1, 3 := 4];
  }

  /** Two month numbers come out in ascending order. */
  lemma SortedPair(a: nat, b: nat)
    requires a < b
    ensures SortedKeys({a, b}) == [a, b]
  {
    var r := SortedKeys({a, b});
    assert |r| == 2 && r[0] < r[1];
    assert r[0] in {a, b} && r[1] in {a, b};
  }

  /** Month numbers are sorted whatever the header order. */
  lemma MonthOrderExample()
    ensures Months(Header) == [3, 7]
  {
    BindingsExample();
    assert MonthBindings(Header).Keys == {3, 7};
    SortedPair(3, 7);
  }

  /** A fraction is scaled to a percentage (1 included), a larger number is
      kept and never clamped, a percent text is stripped and parsed, an
      unparsable one is dropped, and other text is kept as it is. */
  lemma NormaliseExamples(parse: string -> Option<real>)
    requires parse("85") == Some(85.0) && parse("abc") == None
    ensures Normalise(Num(0.85), parse) == Some(Rate(85.0))
    ensures Normalise(Num(1.0), parse) == Some(Rate(100.0))
    ensures Normalise(Num(85.0), parse) == Some(Rate(85.0))
    ensures Normalise(Num(150.0), parse) == Some(Rate(150.0))
    ensures Normalise(Text("85%"), parse) == Some(Rate(85.0))
    ensures Normalise(Text("abc%"), parse) == None
    ensures Normalise(Text("done"), parse) == Some(Raw("done"))
    ensures Normalise(Missing, parse) == None
  {
    assert "%" <= "85%"[2..];
    ContainsAt("85%", "%", 2);
    assert "%" <= "abc%"[3..];
    ContainsAt("abc%", "%", 3);
    assert Strip("85%", '%') == "85";
    assert Strip("abc%", '%') == "abc";
    Absent("done", "%");
  }

  /** The TaskStatus table of the combined period: two rows of department A,
      0.8 and "90%", in the rate column next to the "1~2月" header. */
  function CombinedTable(): Table
  {
    Table(["部门", "1~2月任务统计", "计划任务完成率"],
          [[Text("A"), Missing, Num(0.8)], [Text("A"), Missing, Text("90%")]])
  }

  /** Months 1 and 2 are both searched from the "1~2月" header. */
  lemma CombinedHeaderFound()
    ensures MonthHeader(CombinedTable().headers, 1) == Some(1)
    ensures MonthHeader(CombinedTable().headers, 2) == Some(1)
  {
    var h := CombinedTable().headers;
    Absent(h[0], CombinedMarker);
    assert CombinedMarker <= h[1];
    assert Contains(h[1], CombinedMarker);
    assert h[1..][0] == h[1];
    assert FirstContaining(h[1..], CombinedMarker) == Some(0);
  }

  /** The header itself is no rate column; the next column is. */
  lemma CombinedRateColumn()
    ensures RateColumn(CombinedTable(), 1) == Some(2)
  {
    var t := CombinedTable();
    var h := t.headers;
    Absent(h[1], RateMarker);
    Absent(h[1], UnnamedMarker);
    assert !IsRateColumn(t, 1);
    assert RateMarker <= h[2];
    assert IsRateColumn(t, 2);
    assert WindowEnd(t, 1) == 3;
    assert ScanWindow(t, 2, 3) == Some(2);
  }

  lemma CombinedRows()
    ensures RowsOf(CombinedTable(), 0, Text("A")) == [0, 1]
  {
    var t := CombinedTable();
    assert Cell(t, 0, 0) == Text("A") && Cell(t, 1, 0) == Text("A");
    assert RowsBelow(t, 0, Text("A"), 0) == [];
    assert RowsBelow(t, 0, Text("A"), 1) == [0];
  }

  /** 0.8 is a fraction and becomes 80; "90%" is stripped and parsed. */
  lemma CombinedCollect(parse: string -> Option<real>)
    requires parse("90") == Some(90.0)
    ensures Collect(CombinedTable(), [0, 1], 2, parse) == [Rate(80.0), Rate(90.0)]
  {
    var t := CombinedTable();
    assert Cell(t, 0, 2) == Num(0.8) && Cell(t, 1, 2) == Text("90%");
    assert "%" <= "90%"[2..];
    ContainsAt("90%", "%", 2);
    assert StripLeading("90%", '%') == "90%";
    assert StripTrailing("90%"[..2], '%') == "90";
    assert Strip("90%", '%') == "90";
    assert Normalise(Text("90%"), parse) == Some(Rate(90.0));
    assert [0, 1][..1] == [0];
    assert Collect(t, [0], 2, parse) == [Rate(80.0)];
  }

  lemma CombinedSum()
    ensures PySum([Rate(80.0), Rate(90.0)]) == Ok(170.0)
  {
    var vs := [Rate(80.0), Rate(90.0)];
    assert vs[..1] == [Rate(80.0)] && vs[..1][..0] == [];
    assert PySum(vs[..1]) == Ok(80.0);
  }

  /** The department's mean over its two rows is (80 + 90) / 2. */
  lemma CombinedMean(parse: string -> Option<real>)
    requires parse("90") == Some(90.0)
    ensures DeptMean(CombinedTable(), 0, Text("A"), 2, parse) == Ok(Some(85.0))
  {
    CombinedRows();
    CombinedCollect(parse);
    CombinedSum();
    assert 170.0 / 2.0 == 85.0;
  }

  /** The combined column serves months 1 and 2, and the department's
      mean over its two rows is (80 + 90) / 2. */
  lemma CombinedPeriodExample(parse: string -> Option<real>)
    requires parse("90") == Some(90.0)
    ensures RateColumnFor(CombinedTable(), 1) == Some(2)
    ensures RateColumnFor(CombinedTable(), 2) == Some(2)
    ensures DeptMean(CombinedTable(), 0, Text("A"), 2, parse) == Ok(Some(85.0))
  {
    CombinedHeaderFound();
    CombinedRateColumn();
    CombinedMean(parse);
  }

  /** A task table whose one rate cell is a plain text. */
  function PlainTable(): Table
  {
    Table(["部门", "计划任务完成率"], [[Text("A"), Text("n/a")]])
  }

  lemma PlainRows()
    ensures RowsOf(PlainTable(), 0, Text("A")) == [0]
  {
    var t := PlainTable();
    assert Cell(t, 0, 0) == Text("A");
    assert RowsBelow(t, 0, Text("A"), 0) == [];
  }

  lemma PlainCollect(parse: string -> Option<real>)
    ensures Collect(PlainTable(), [0], 1, parse) == [Raw("n/a")]
  {
    assert Cell(PlainTable(), 0, 1) == Text("n/a");
    Absent("n/a", "%");
    assert Normalise(Text("n/a"), parse) == Some(Raw("n/a"));
    assert [0][..0] == [];
  }

  /** A plain text in a rate column makes the mean raise. */
  lemma PlainTextRaises(parse: string -> Option<real>)
    ensures DeptMean(PlainTable(), 0, Text("A"), 1, parse) == TypeError
  {
    PlainRows();
    PlainCollect(parse);
    assert PySum([Raw("n/a")]).TypeError?;
  }

  /** Four departments, in discovery order. */
  const Depts: seq<Value> := [Text("A"), Text("B"), Text("C"), Text("D")]

  /** Over month 1: A at 70, B and C at 90, D without a rate. */
  function RankingData(): CompletionData
  {
    map[Text("A") := map[1 := Some(70.0)], Text("B") := map[1 := Some(90.0)],
        Text("C") := map[1 := Some(90.0)], Text("D") := map[1 := None]]
  }

  /** A rate of month 1 is the department's average; no rate is no data. */
  lemma SingleMonthAverage(c: map<nat, Option<real>>)
    requires 1 in c
    ensures c[1].Some? ==> AverageRate(c, [1]) == c[1]
    ensures c[1].None? ==> AverageRate(c, [1]).None?
  {
    assert [1][..0] == [];
    assert RateIn(c, 1) == c[1];
    if c[1].Some? {
      assert KnownRates(c, [1]) == [c[1].value];
      assert Sum([c[1].value]) == c[1].value;
    } else {
      assert KnownRates(c, [1]) == [];
    }
  }

  lemma RankingRates()
    ensures HasData(RankingData(), [1], Text("A")) && AverageRate(RankingData()[Text("A")], [1]) == Some(70.0)
    ensures HasData(RankingData(), [1], Text("B")) && AverageRate(RankingData()[Text("B")], [1]) == Some(90.0)
    ensures HasData(RankingData(), [1], Text("C")) && AverageRate(RankingData()[Text("C")], [1]) == Some(90.0)
    ensures !HasData(RankingData(), [1], Text("D"))
  {
    var comp := RankingData();
    SingleMonthAverage(comp[Text("A")]);
    SingleMonthAverage(comp[Text("B")]);
    SingleMonthAverage(comp[Text("C")]);
    SingleMonthAverage(comp[Text("D")]);
  }

  lemma AveragesOfTwo()
    ensures Averages(Depts[..2], [1], RankingData()) == [(Text("A"), 70.0), (Text("B"), 90.0)]
  {
    RankingRates();
    assert Depts[..2][..1] == Depts[..1] && Depts[..1][..0] == [];
    assert Averages(Depts[..1], [1], RankingData()) == [(Text("A"), 70.0)];
  }

  /** Only A, B and C have data, with their averages in department order. */
  lemma AveragesExample()
    ensures Averages(Depts, [1], RankingData()) == [(Text("A"), 70.0), (Text("B"), 90.0), (Text("C"), 90.0)]
  {
    RankingRates();
    AveragesOfTwo();
    assert Depts[..3][..2] == Depts[..2] && Depts[..|Depts| - 1] == Depts[..3];
    assert Averages(Depts[..3], [1], RankingData()) == [(Text("A"), 70.0), (Text("B"), 90.0), (Text("C"), 90.0)];
  }

  /** The stable descending sort puts B before C (equal averages keep
      their order) and A last. */
  lemma SortExample()
    ensures SortDesc([(Text("A"), 70.0), (Text("B"), 90.0), (Text("C"), 90.0)])
         == [(Text("B"), 90.0), (Text("C"), 90.0), (Text("A"), 70.0)]
  {
    var s: seq<Entry> := [(Text("A"), 70.0), (Text("B"), 90.0), (Text("C"), 90.0)];
    assert s[..2][..1] == s[..1] && s[..1][..0] == [];
    assert SortDesc(s[..1]) == [(Text("A"), 70.0)];
    assert SortDesc(s[..2]) == [(Text("B"), 90.0), (Text("A"), 70.0)];
    var r: seq<Entry> := [(Text("B"), 90.0), (Text("A"), 70.0)];
    assert InsertDesc(r[1..], (Text("C"), 90.0)) == [(Text("C"), 90.0), (Text("A"), 70.0)];
  }

  /** D is the one department left once B, C and A are taken. */
  lemma RemainingExample()
    ensures Remaining(Depts, [Text("B"), Text("C"), Text("A")]) == [Text("D")]
  {
    var top := [Text("B"), Text("C"), Text("A")];
    assert Depts[..3][..2] == Depts[..2] && Depts[..2][..1] == Depts[..1] && Depts[..1][..0] == [];
    assert Remaining(Depts[..1], top) == [];
    assert Remaining(Depts[..2], top) == [];
    assert Remaining(Depts[..3], top) == [];
  }

  lemma RankedExample()
    ensures Ranked(Depts, [1], RankingData()) == [Text("B"), Text("C"), Text("A")]
  {
    AveragesExample();
    SortExample();
    var sorted := SortDesc(Averages(Depts, [1], RankingData()));
    assert sorted == [(Text("B"), 90.0), (Text("C"), 90.0), (Text("A"), 70.0)];
    var names := Names(sorted);
    assert |names| == 3 && names[0] == Text("B") && names[1] == Text("C") && names[2] == Text("A");
  }

  /** B and C tie and keep their discovery order ahead of A; D, without
      data, only pads the list; the top two are B and C. */
  lemma RankingExample()
    ensures TopNames(Depts, [1], RankingData(), 4) == [Text("B"), Text("C"), Text("A"), Text("D")]
    ensures TopNames(Depts, [1], RankingData(), 2) == [Text("B"), Text("C")]
  {
    RankedExample();
    RemainingExample();
    var top := [Text("B"), Text("C"), Text("A")];
    assert top[..Min(4, 3)] == top;
    assert [Text("D")][..Min(1, 1)] == [Text("D")];
    assert top[..Min(2, 3)] == [Text("B"), Text("C")];
  }
}
