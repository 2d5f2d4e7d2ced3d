/** The dashboard queries: the average completion rate of each department
    over the known months, the stable descending ranking, the top-N
    selection padded in discovery order, and the 50% placeholder used
    when no completion data exists. */
module Queries {
  import opened Values
  import opened Columns
  import opened Rates

  function Min(a: nat, b: nat): nat
  {
    if a <= b then a else b
  }

  /** `completion_data[dept].get(month, nan)`. */
  function RateIn(c: map<nat, Option<real>>, m: nat): Option<real>
  {
    if m in c then c[m] else None
  }

  /** The rates the months `months` have, in month order, NaN left out. */
  function KnownRates(c: map<nat, Option<real>>, months: seq<nat>): seq<real>
  {
    if months == [] then []
    else
      var p := KnownRates(c, months[..|months| - 1]);
      match RateIn(c, months[|months| - 1])
      case Some(x) => p + [x]
      case None => p
  }

  /** A department has no known rate exactly when none of the months has
      a rate for it. */
  lemma {:induction false} KnownRatesEmpty(c: map<nat, Option<real>>, months: seq<nat>)
    ensures KnownRates(c, months) == [] <==> forall j :: 0 <= j < |months| ==> RateIn(c, months[j]).None?
  {
    if months != [] {
      var pre := months[..|months| - 1];
      KnownRatesEmpty(c, pre);
      assert forall j :: 0 <= j < |pre| ==> pre[j] == months[j];
    }
  }

  function Sum(vs: seq<real>): real
  {
    if vs == [] then 0.0 else Sum(vs[..|vs| - 1]) + vs[|vs| - 1]
  }

  /** `sum(valid_rates) / len(valid_rates)`, or nothing without a rate. */
  function AverageRate(c: map<nat, Option<real>>, months: seq<nat>): Option<real>
  {
    var vs := KnownRates(c, months);
    if vs == [] then None else Some(Sum(vs) / |vs| as real)
  }

  /** Every known rate of the months lies in [lo, hi]. */
  predicate RatesBetween(c: map<nat, Option<real>>, months: seq<nat>, lo: real, hi: real)
  {
    forall j :: 0 <= j < |months| && RateIn(c, months[j]).Some? ==> lo <= RateIn(c, months[j]).value <= hi
  }

  lemma {:induction false} KnownRatesBetween(c: map<nat, Option<real>>, months: seq<nat>, lo: real, hi: real)
    requires RatesBetween(c, months, lo, hi)
    ensures forall i :: 0 <= i < |KnownRates(c, months)| ==> lo <= KnownRates(c, months)[i] <= hi
  {
    if months != [] {
      var pre := months[..|months| - 1];
      assert forall j :: 0 <= j < |pre| ==> pre[j] == months[j];
      KnownRatesBetween(c, pre, lo, hi);
    }
  }

  lemma {:induction false} SumBetween(vs: seq<real>, lo: real, hi: real)
    requires forall i :: 0 <= i < |vs| ==> lo <= vs[i] <= hi
    ensures |vs| as real * lo <= Sum(vs) <= |vs| as real * hi
  {
    if vs != [] {
      var p := vs[..|vs| - 1];
      SumBetween(p, lo, hi);
      assert |vs| as real * lo == |p| as real * lo + lo;
      assert |vs| as real * hi == |p| as real * hi + hi;
    }
  }

  lemma MeanBetween(vs: seq<real>, lo: real, hi: real)
    requires vs != [] && forall i :: 0 <= i < |vs| ==> lo <= vs[i] <= hi
    ensures lo <= Sum(vs) / |vs| as real <= hi
  {
    SumBetween(vs, lo, hi);
    DivideWithin(Sum(vs), |vs| as real, lo, hi);
  }

  /** The average is a mean: it lies within the range of the rates it
      averages, and exists exactly when some month has a rate. */
  lemma AverageIsMean(c: map<nat, Option<real>>, months: seq<nat>, lo: real, hi: real)
    requires RatesBetween(c, months, lo, hi)
    ensures AverageRate(c, months).None? <==> forall j :: 0 <= j < |months| ==> RateIn(c, months[j]).None?
    ensures AverageRate(c, months).Some? ==> lo <= AverageRate(c, months).value <= hi
  {
    KnownRatesEmpty(c, months);
    var vs := KnownRates(c, months);
    if vs != [] {
      KnownRatesBetween(c, months, lo, hi);
      MeanBetween(vs, lo, hi);
    }
  }

  /** One department with its average rate. */
  type Entry = (Value, real)

  predicate HasData(comp: CompletionData, months: seq<nat>, d: Value)
  {
    d in comp && AverageRate(comp[d], months).Some?
  }

  /** `dept_avg_rates.items()`: the departments with data, in department
      order, with their averages. */
  function Averages(depts: seq<Value>, months: seq<nat>, comp: CompletionData): seq<Entry>
  {
    if depts == [] then []
    else
      var p := Averages(depts[..|depts| - 1], months, comp);
      var d := depts[|depts| - 1];
      if HasData(comp, months, d) then p + [(d, AverageRate(comp[d], months).value)] else p
  }

  function Names(s: seq<Entry>): (ns: seq<Value>)
    ensures |ns| == |s| && forall i :: 0 <= i < |s| ==> ns[i] == s[i].0
  {
    seq(|s|, i requires 0 <= i < |s| => s[i].0)
  }

  /** The values of `s` occur in `depts`, in the order of `depts`. */
  predicate InOrderOf(s: seq<Value>, depts: seq<Value>)
  {
    forall i, j :: 0 <= i < j < |s| ==> s[i] in depts && s[j] in depts && IndexOf(depts, s[i]) < IndexOf(depts, s[j])
  }

  /** Extending the departments by a new one keeps the position of every
      old one. */
  lemma OrderKeep(pre: seq<Value>, d: Value, p: seq<Value>)
    requires forall x :: x in p ==> x in pre
    requires InOrderOf(p, pre)
    ensures InOrderOf(p, pre + [d])
    ensures forall x :: x in p ==> x in pre + [d] && IndexOf(pre + [d], x) < |pre|
  {
    var all := pre + [d];
    assert all[..|all| - 1] == pre;
    FirstSeenPrefix(all, p);
    forall i, j | 0 <= i < j < |p|
      ensures p[i] in all && p[j] in all && IndexOf(all, p[i]) < IndexOf(all, p[j])
    {
      assert IndexOf(all, p[i]) == IndexOf(pre, p[i]) && IndexOf(all, p[j]) == IndexOf(pre, p[j]);
    }
  }

  /** A list in order may be extended by a value that comes after all of
      its entries. */
  lemma OrderAppend(all: seq<Value>, p: seq<Value>, d: Value)
    requires InOrderOf(p, all) && d in all
    requires forall x :: x in p ==> x in all && IndexOf(all, x) < IndexOf(all, d)
    ensures InOrderOf(p + [d], all)
  {
    var q := p + [d];
    forall i, j | 0 <= i < j < |q|
      ensures q[i] in all && q[j] in all && IndexOf(all, q[i]) < IndexOf(all, q[j])
    {
      assert q[i] == p[i];
      if j < |p| {
        assert q[j] == p[j];
      }
    }
  }

  /** Extending the departments by a new one keeps the order of a list
      drawn from the old ones, and that list may be extended by it. */
  lemma OrderExtend(pre: seq<Value>, d: Value, p: seq<Value>)
    requires d !in pre
    requires forall x :: x in p ==> x in pre
    requires InOrderOf(p, pre)
    ensures InOrderOf(p, pre + [d]) && InOrderOf(p + [d], pre + [d])
  {
    OrderKeep(pre, d, p);
    IndexOfUnique(pre + [d], d, |pre|);
    OrderAppend(pre + [d], p, d);
  }

  /** The averaged departments are exactly the departments with data, each
      once when the departments are distinct, each with its own average. */
  lemma {:induction false} AveragesSpec(depts: seq<Value>, months: seq<nat>, comp: CompletionData)
    ensures var r := Averages(depts, months, comp);
      && (forall d :: d in Names(r) <==> d in depts && HasData(comp, months, d))
      && (forall i :: 0 <= i < |r| ==> HasData(comp, months, r[i].0) && r[i].1 == AverageRate(comp[r[i].0], months).value)
      && (Distinct(depts) ==> Distinct(Names(r)) && InOrderOf(Names(r), depts))
  {
    if depts != [] {
      var pre := depts[..|depts| - 1];
      var d := depts[|depts| - 1];
      AveragesSpec(pre, months, comp);
      assert depts == pre + [d];
      var p := Averages(pre, months, comp);
      var r := Averages(depts, months, comp);
      if Distinct(depts) {
        DistinctPrefix(depts, |depts| - 1);
        assert forall k :: 0 <= k < |pre| ==> pre[k] == depts[k];
        assert d !in pre;
        OrderExtend(pre, d, Names(p));
      }
      if HasData(comp, months, d) {
        assert r == p + [(d, AverageRate(comp[d], months).value)];
        assert Names(r) == Names(p) + [d];
      } else {
        assert r == p;
      }
    }
  }

  predicate SortedDesc(s: seq<Entry>)
  {
    forall i, j :: 0 <= i < j < |s| ==> s[i].1 >= s[j].1
  }

  /** Insertion of `e` after every entry whose average is at least its own. */
  function InsertDesc(r: seq<Entry>, e: Entry): seq<Entry>
  {
    if r == [] then [e]
    else if r[0].1 >= e.1 then [r[0]] + InsertDesc(r[1..], e)
    else [e] + r
  }

  /** Insertion adds `e` and keeps every other entry. */
  lemma {:induction false} InsertDescMultiset(r: seq<Entry>, e: Entry)
    ensures multiset(InsertDesc(r, e)) == multiset(r) + multiset{e}
  {
    if r != [] && r[0].1 >= e.1 {
      InsertDescMultiset(r[1..], e);
      assert r == [r[0]] + r[1..];
    }
  }

  /** `sorted(items, key=average, reverse=True)`: Python's sort is stable,
      so this is insertion of each entry in order after the entries with an
      average at least as large. */
  function SortDesc(s: seq<Entry>): seq<Entry>
  {
    if s == [] then []
    else InsertDesc(SortDesc(s[..|s| - 1]), s[|s| - 1])
  }

  /** The ranking is a permutation of the entries. */
  lemma {:induction false} SortDescMultiset(s: seq<Entry>)
    ensures multiset(SortDesc(s)) == multiset(s)
  {
    if s != [] {
      var pre := s[..|s| - 1];
      SortDescMultiset(pre);
      InsertDescMultiset(SortDesc(pre), s[|s| - 1]);
      assert s == pre + [s[|s| - 1]];
    }
  }

  /** No entry's average exceeds `b`. */
  predicate AllAtMost(s: seq<Entry>, b: real)
  {
    forall i :: 0 <= i < |s| ==> s[i].1 <= b
  }

  lemma {:induction false} InsertAtMost(r: seq<Entry>, e: Entry, b: real)
    requires AllAtMost(r, b) && e.1 <= b
    ensures AllAtMost(InsertDesc(r, e), b)
  {
    if r != [] && r[0].1 >= e.1 {
      InsertAtMost(r[1..], e, b);
      assert InsertDesc(r, e) == [r[0]] + InsertDesc(r[1..], e);
    }
  }

  lemma SortedCons(h: Entry, s: seq<Entry>)
    requires SortedDesc(s) && AllAtMost(s, h.1)
    ensures SortedDesc([h] + s)
  {
    var q := [h] + s;
    forall i, j | 0 <= i < j < |q| ensures q[i].1 >= q[j].1 {
      assert q[j] == s[j - 1];
      if i > 0 {
        assert q[i] == s[i - 1];
      }
    }
  }

  lemma {:induction false} InsertSorted(r: seq<Entry>, e: Entry)
    requires SortedDesc(r)
    ensures SortedDesc(InsertDesc(r, e))
  {
    if r == [] {
      assert InsertDesc(r, e) == [e];
    } else {
      var tail := r[1..];
      assert SortedDesc(tail) && AllAtMost(tail, r[0].1) by {
        assert forall i :: 0 <= i < |tail| ==> tail[i] == r[i + 1];
      }
      if r[0].1 >= e.1 {
        InsertSorted(tail, e);
        InsertAtMost(tail, e, r[0].1);
        SortedCons(r[0], InsertDesc(tail, e));
      } else {
        assert AllAtMost(r, e.1);
        SortedCons(e, r);
      }
    }
  }

  /** The ranking is in descending order of average. */
  lemma {:induction false} SortDescSorted(s: seq<Entry>)
    ensures SortedDesc(SortDesc(s))
  {
    if s != [] {
      SortDescSorted(s[..|s| - 1]);
      InsertSorted(SortDesc(s[..|s| - 1]), s[|s| - 1]);
    }
  }

  /** The entries whose average is `v`, in order. */
  function Filter(s: seq<Entry>, v: real): seq<Entry>
  {
    if s == [] then []
    else Filter(s[..|s| - 1], v) + (if s[|s| - 1].1 == v then [s[|s| - 1]] else [])
  }

  lemma {:induction false} FilterAppend(a: seq<Entry>, b: seq<Entry>, v: real)
    ensures Filter(a + b, v) == Filter(a, v) + Filter(b, v)
  {
    if b == [] {
      assert a + b == a;
    } else {
      var b' := b[..|b| - 1];
      assert (a + b)[..|a + b| - 1] == a + b';
      FilterAppend(a, b', v);
    }
  }

  lemma {:induction false} FilterNone(s: seq<Entry>, v: real)
    requires forall i :: 0 <= i < |s| ==> s[i].1 != v
    ensures Filter(s, v) == []
  {
    if s != [] {
      FilterNone(s[..|s| - 1], v);
    }
  }

  lemma {:induction false} InsertFilter(r: seq<Entry>, e: Entry, v: real)
    requires SortedDesc(r)
    ensures Filter(InsertDesc(r, e), v) == Filter(r, v) + (if e.1 == v then [e] else [])
  {
    var single := if e.1 == v then [e] else [];
    assert Filter([e], v) == single by {
      assert [e][..0] == [];
    }
    if r == [] {
      assert InsertDesc(r, e) == [e];
    } else if r[0].1 >= e.1 {
      InsertFilter(r[1..], e, v);
      InsertFilterBehind(r, e, v, single);
    } else {
      InsertFilterFront(r, e, v, single);
    }
  }

  lemma InsertFilterBehind(r: seq<Entry>, e: Entry, v: real, single: seq<Entry>)
    requires r != [] && r[0].1 >= e.1
    requires Filter(InsertDesc(r[1..], e), v) == Filter(r[1..], v) + single
    ensures Filter(InsertDesc(r, e), v) == Filter(r, v) + single
  {
    var head, tail := [r[0]], r[1..];
    var q' := InsertDesc(tail, e);
    assert InsertDesc(r, e) == head + q';
    assert r == head + tail;
    FilterAppend(head, q', v);
    FilterAppend(head, tail, v);
    var a, b := Filter(head, v), Filter(tail, v);
    assert a + (b + single) == (a + b) + single;
  }

  lemma InsertFilterFront(r: seq<Entry>, e: Entry, v: real, single: seq<Entry>)
    requires SortedDesc(r) && r != [] && r[0].1 < e.1
    requires Filter([e], v) == single && single == (if e.1 == v then [e] else [])
    ensures Filter(InsertDesc(r, e), v) == Filter(r, v) + single
  {
    FilterAppend([e], r, v);
    if e.1 == v {
      FilterNone(r, v);
    }
    calc {
      Filter(InsertDesc(r, e), v);
      Filter([e] + r, v);
      single + Filter(r, v);
    }
  }

  /** Stability: the entries with equal averages keep their order. */
  lemma {:induction false} SortStable(s: seq<Entry>, v: real)
    ensures Filter(SortDesc(s), v) == Filter(s, v)
  {
    if s != [] {
      var pre := s[..|s| - 1];
      SortStable(pre, v);
      SortDescSorted(pre);
      InsertFilter(SortDesc(pre), s[|s| - 1], v);
    }
  }

  lemma NamesCons(a: Entry, s: seq<Entry>)
    ensures Names([a] + s) == [a.0] + Names(s)
  {
    var q := [a] + s;
    assert forall i :: 0 < i < |q| ==> q[i] == s[i - 1];
  }

  /** Insertion adds the name of `e` to the names and keeps the others. */
  lemma {:induction false} InsertNames(r: seq<Entry>, e: Entry)
    ensures forall y :: y in Names(InsertDesc(r, e)) <==> y in Names(r) || y == e.0
  {
    if r == [] {
      assert InsertDesc(r, e) == [e] + r;
      NamesCons(e, r);
    } else if r[0].1 >= e.1 {
      var tail := r[1..];
      InsertNames(tail, e);
      assert r == [r[0]] + tail;
      assert InsertDesc(r, e) == [r[0]] + InsertDesc(tail, e);
      NamesCons(r[0], tail);
      NamesCons(r[0], InsertDesc(tail, e));
    } else {
      assert InsertDesc(r, e) == [e] + r;
      NamesCons(e, r);
    }
  }

  lemma DistinctTail(h: Value, s: seq<Value>)
    requires Distinct([h] + s)
    ensures Distinct(s) && h !in s
  {
    var q := [h] + s;
    forall i, j | 0 <= i < j < |s| ensures s[i] != s[j] {
      assert q[i + 1] == s[i] && q[j + 1] == s[j];
    }
    forall i | 0 <= i < |s| ensures s[i] != h {
      assert q[0] == h && q[i + 1] == s[i];
    }
  }

  lemma DistinctCons(h: Value, s: seq<Value>)
    requires Distinct(s) && h !in s
    ensures Distinct([h] + s)
  {
    var q := [h] + s;
    forall i, j | 0 <= i < j < |q| ensures q[i] != q[j] {
      assert q[j] == s[j - 1];
      if i > 0 {
        assert q[i] == s[i - 1];
      }
    }
  }

  lemma {:induction false} InsertNamesDistinct(r: seq<Entry>, e: Entry)
    requires Distinct(Names(r)) && e.0 !in Names(r)
    ensures Distinct(Names(InsertDesc(r, e)))
  {
    if r == [] {
      NamesCons(e, r);
    } else if r[0].1 >= e.1 {
      var tail := r[1..];
      assert r == [r[0]] + tail;
      NamesCons(r[0], tail);
      DistinctTail(r[0].0, Names(tail));
      InsertNamesDistinct(tail, e);
      InsertNames(tail, e);
      NamesCons(r[0], InsertDesc(tail, e));
      DistinctCons(r[0].0, Names(InsertDesc(tail, e)));
    } else {
      NamesCons(e, r);
      DistinctCons(e.0, Names(r));
    }
  }

  /** Sorting neither adds nor loses a department and keeps them distinct. */
  lemma {:induction false} SortNames(s: seq<Entry>)
    ensures forall y :: y in Names(SortDesc(s)) <==> y in Names(s)
    ensures Distinct(Names(s)) ==> Distinct(Names(SortDesc(s)))
  {
    if s != [] {
      var pre := s[..|s| - 1];
      var e := s[|s| - 1];
      SortNames(pre);
      var sp := SortDesc(pre);
      InsertNames(sp, e);
      assert Names(s) == Names(pre) + [e.0];
      if Distinct(Names(s)) {
        assert Distinct(Names(pre)) && e.0 !in Names(pre) by {
          forall i, j | 0 <= i < j < |pre| ensures Names(pre)[i] != Names(pre)[j] {
            assert Names(s)[i] == Names(pre)[i] && Names(s)[j] == Names(pre)[j];
          }
          forall i | 0 <= i < |pre| ensures Names(pre)[i] != e.0 {
            assert Names(s)[i] == Names(pre)[i];
          }
        }
        InsertNamesDistinct(sp, e);
      }
    }
  }

  /** The ranked departments, best average first. */
  function Ranked(depts: seq<Value>, months: seq<nat>, comp: CompletionData): seq<Value>
  {
    Names(SortDesc(Averages(depts, months, comp)))
  }

  /** `[dept for dept in departments if dept not in top]`. */
  function Remaining(depts: seq<Value>, top: seq<Value>): seq<Value>
  {
    if depts == [] then []
    else
      var p := Remaining(depts[..|depts| - 1], top);
      var d := depts[|depts| - 1];
      if d in top then p else p + [d]
  }

  lemma {:induction false} RemainingSpec(depts: seq<Value>, top: seq<Value>)
    ensures forall d :: d in Remaining(depts, top) <==> d in depts && d !in top
    ensures Distinct(depts) ==> Distinct(Remaining(depts, top)) && InOrderOf(Remaining(depts, top), depts)
  {
    if depts != [] {
      var pre := depts[..|depts| - 1];
      var d := depts[|depts| - 1];
      RemainingSpec(pre, top);
      assert depts == pre + [d];
      if Distinct(depts) {
        DistinctPrefix(depts, |depts| - 1);
        assert forall k :: 0 <= k < |pre| ==> pre[k] == depts[k];
        assert d !in pre;
        OrderExtend(pre, d, Remaining(pre, top));
      }
    }
  }

  function Elems(s: seq<Value>): set<Value>
  {
    set x | x in s
  }

  lemma {:induction false} DistinctCard(s: seq<Value>)
    requires Distinct(s)
    ensures |Elems(s)| == |s|
  {
    if s != [] {
      var pre := s[..|s| - 1];
      DistinctCard(pre);
      assert Elems(s) == Elems(pre) + {s[|s| - 1]};
    }
  }

  /** Leaving out a distinct part of a distinct list leaves the rest. */
  lemma RemainingCount(depts: seq<Value>, top: seq<Value>)
    requires Distinct(depts) && Distinct(top)
    requires forall x :: x in top ==> x in depts
    ensures |Remaining(depts, top)| == |depts| - |top|
  {
    var rest := Remaining(depts, top);
    RemainingSpec(depts, top);
    DistinctCard(depts);
    DistinctCard(top);
    DistinctCard(rest);
    var a, b := Elems(depts), Elems(top);
    assert Elems(rest) == a - b;
    assert a == (a - b) + b;
    assert (a - b) * b == {};
  }

  lemma DistinctPrefix(s: seq<Value>, k: nat)
    requires Distinct(s) && k <= |s|
    ensures Distinct(s[..k])
  {
    assert forall i :: 0 <= i < k ==> s[..k][i] == s[i];
  }

  /** Two distinct lists with no name in common make a distinct list. */
  lemma DistinctConcat(a: seq<Value>, b: seq<Value>)
    requires Distinct(a) && Distinct(b)
    requires forall x :: x in b ==> x !in a
    ensures Distinct(a + b)
  {
    forall i, j | 0 <= i < j < |a + b| ensures (a + b)[i] != (a + b)[j] {
      if i < |a| && j >= |a| {
        assert (a + b)[j] == b[j - |a|] && b[j - |a|] in b;
      } else if i >= |a| {
        assert (a + b)[i] == b[i - |a|] && (a + b)[j] == b[j - |a|];
      }
    }
  }

  /** The selection from a ranking: its best `n` departments, then, when
      fewer were ranked, the others in department order. */
  function Select(depts: seq<Value>, ranked: seq<Value>, n: nat): seq<Value>
  {
    var top := ranked[..Min(n, |ranked|)];
    if |top| < n then
      var rest := Remaining(depts, top);
      top + rest[..Min(n - |top|, |rest|)]
    else top
  }

  /** The selected department names: the best `n` ranked departments,
      padded with the others in department order. */
  function TopNames(depts: seq<Value>, months: seq<nat>, comp: CompletionData, n: nat): seq<Value>
  {
    Select(depts, Ranked(depts, months, comp), n)
  }

  /** A selection from a ranking of distinct departments holds distinct
      departments, as many as requested or as there are, whichever is
      fewer, and starts with the ranking's best ones. */
  lemma SelectShape(depts: seq<Value>, ranked: seq<Value>, n: nat)
    requires Distinct(depts) && Distinct(ranked)
    requires forall x :: x in ranked ==> x in depts
    ensures var names := Select(depts, ranked, n);
      && Distinct(names)
      && |names| == Min(n, |depts|)
      && (forall d :: d in names ==> d in depts)
      && names[..Min(n, |ranked|)] == ranked[..Min(n, |ranked|)]
  {
    var top := ranked[..Min(n, |ranked|)];
    DistinctPrefix(ranked, Min(n, |ranked|));
    assert forall x :: x in top ==> x in ranked;
    RemainingCount(depts, ranked);
    if |top| < n {
      var rest := Remaining(depts, top);
      RemainingSpec(depts, top);
      RemainingCount(depts, top);
      var pad := rest[..Min(n - |top|, |rest|)];
      DistinctPrefix(rest, Min(n - |top|, |rest|));
      assert forall x :: x in pad ==> x in rest;
      DistinctConcat(top, pad);
      assert (top + pad)[..|top|] == top;
    }
  }

  /** A name past the ranked part of a selection is padding: fewer than
      `n` departments were ranked and it is a department that was not. */
  lemma SelectPadding(depts: seq<Value>, ranked: seq<Value>, n: nat, i: nat)
    requires Min(n, |ranked|) <= i < |Select(depts, ranked, n)|
    ensures |ranked| < n
    ensures Select(depts, ranked, n)[i] in depts && Select(depts, ranked, n)[i] !in ranked
  {
    var top := ranked[..Min(n, |ranked|)];
    assert top == ranked;
    var rest := Remaining(depts, top);
    RemainingSpec(depts, top);
    var names := Select(depts, ranked, n);
    assert names[i] == rest[i - |top|];
    assert names[i] in rest;
  }

  /** The entries of `top + rest[..k]` after `top` keep the order of
      `rest`. */
  lemma PadSorted(depts: seq<Value>, top: seq<Value>, rest: seq<Value>, k: nat, i: nat)
    requires InOrderOf(rest, depts) && forall x :: x in rest ==> x in depts
    requires k <= |rest| && |top| <= i < |top| + k
    ensures (top + rest[..k])[i] in depts
    ensures forall j :: |top| <= j < i ==>
      (top + rest[..k])[j] in depts && IndexOf(depts, (top + rest[..k])[j]) < IndexOf(depts, (top + rest[..k])[i])
  {
    var names := top + rest[..k];
    assert names[i] == rest[i - |top|];
    forall j | |top| <= j < i
      ensures names[j] in depts && IndexOf(depts, names[j]) < IndexOf(depts, names[i])
    {
      assert names[j] == rest[j - |top|];
    }
  }

  /** In a list in department order, an entry earlier in department order
      sits at an earlier position. */
  lemma EarlierPosition(s: seq<Value>, depts: seq<Value>, a: nat, b: nat)
    requires InOrderOf(s, depts) && forall x :: x in s ==> x in depts
    requires a < |s| && b < |s| && IndexOf(depts, s[a]) < IndexOf(depts, s[b])
    ensures a < b
  {
    if a >= b {
      assert false;
    }
  }

  /** A value of `rest` before such an entry in department order is among
      the copied ones. */
  lemma PadFill(depts: seq<Value>, top: seq<Value>, rest: seq<Value>, k: nat, i: nat, d: Value)
    requires InOrderOf(rest, depts) && forall x :: x in rest ==> x in depts
    requires k <= |rest| && |top| <= i < |top| + k
    requires d in rest && IndexOf(depts, d) < IndexOf(depts, (top + rest[..k])[i])
    ensures d in top + rest[..k]
  {
    var names := top + rest[..k];
    var q :| 0 <= q < |rest| && rest[q] == d;
    assert names[i] == rest[i - |top|];
    EarlierPosition(rest, depts, q, i - |top|);
    assert names[|top| + q] == d;
  }

  /** Padding follows department order: the padded names appear in
      department order, and an unranked department that comes before a
      padded one is itself selected. */
  lemma SelectPaddingOrder(depts: seq<Value>, ranked: seq<Value>, n: nat, i: nat, d: Value)
    requires Distinct(depts)
    requires Min(n, |ranked|) <= i < |Select(depts, ranked, n)|
    ensures Select(depts, ranked, n)[i] in depts
    ensures forall j :: Min(n, |ranked|) <= j < i ==>
      Select(depts, ranked, n)[j] in depts &&
      IndexOf(depts, Select(depts, ranked, n)[j]) < IndexOf(depts, Select(depts, ranked, n)[i])
    ensures d in depts && d !in ranked && IndexOf(depts, d) < IndexOf(depts, Select(depts, ranked, n)[i]) ==>
      d in Select(depts, ranked, n)
  {
    SelectPadding(depts, ranked, n, i);
    var top := ranked[..Min(n, |ranked|)];
    assert top == ranked;
    var rest := Remaining(depts, top);
    RemainingSpec(depts, top);
    var k := Min(n - |top|, |rest|);
    assert Select(depts, ranked, n) == top + rest[..k];
    PadSorted(depts, top, rest, k, i);
    if d in depts && d !in ranked && IndexOf(depts, d) < IndexOf(depts, Select(depts, ranked, n)[i]) {
      PadFill(depts, top, rest, k, i, d);
    }
  }

  /** `completion_data[dept][month]` when present, NaN otherwise. */
  function Lookup(comp: CompletionData, d: Value, m: nat): Option<real>
  {
    if d in comp && m in comp[d] then comp[d][m] else None
  }

  /** One rate series per selected department, one entry per known month. */
  function Series(comp: CompletionData, months: seq<nat>, names: seq<Value>): (s: seq<seq<Option<real>>>)
    ensures |s| == |names|
    ensures forall i :: 0 <= i < |s| ==>
      (|s[i]| == |months| && forall j :: 0 <= j < |months| ==> s[i][j] == Lookup(comp, names[i], months[j]))
  {
    seq(|names|, i requires 0 <= i < |names| =>
      seq(|months|, j requires 0 <= j < |months| => Lookup(comp, names[i], months[j])))
  }

  /** The placeholder of a missing completion table: `n` series of 50%. */
  function Placeholder(months: seq<nat>, n: nat): (s: seq<seq<Option<real>>>)
    ensures |s| == n
    ensures forall i :: 0 <= i < n ==> |s[i]| == |months| && forall j :: 0 <= j < |months| ==> s[i][j] == Some(50.0)
  {
    seq(n, i => seq(|months|, j => Some(50.0)))
  }

  /** `get_department_monthly_completion_rates(n)`: the months, the rate
      series and the department names. */
  function CompletionRates(depts: seq<Value>, months: seq<nat>, comp: CompletionData, n: nat)
    : (seq<nat>, seq<seq<Option<real>>>, seq<Value>)
  {
    if |comp| == 0 then (months, Placeholder(months, n), depts[..Min(n, |depts|)])
    else
      var names := TopNames(depts, months, comp, n);
      (months, Series(comp, months, names), names)
  }

  lemma RankedSpec(depts: seq<Value>, months: seq<nat>, comp: CompletionData)
    requires Distinct(depts)
    ensures var ranked := Ranked(depts, months, comp);
      && Distinct(ranked)
      && (forall d :: d in ranked <==> d in depts && HasData(comp, months, d))
      && |ranked| <= |depts|
  {
    var avgs := Averages(depts, months, comp);
    AveragesSpec(depts, months, comp);
    SortNames(avgs);
    var ranked := Ranked(depts, months, comp);
    RemainingCount(depts, ranked);
  }

  /** The selected names are distinct departments, as many as requested
      or as there are departments, whichever is fewer. */
  lemma TopNamesShape(depts: seq<Value>, months: seq<nat>, comp: CompletionData, n: nat)
    requires Distinct(depts)
    ensures var names := TopNames(depts, months, comp, n);
      && Distinct(names)
      && |names| == Min(n, |depts|)
      && (forall d :: d in names ==> d in depts)
  {
    RankedSpec(depts, months, comp);
    SelectShape(depts, Ranked(depts, months, comp), n);
  }

  /** The ranked part of the selection holds the highest averages: no
      department with data that was left out has a higher average than a
      selected ranked one, and the selected ones appear best first. */
  lemma {:induction false} TopNamesDominate(depts: seq<Value>, months: seq<nat>, comp: CompletionData, n: nat,
                                           i: nat, b: Value)
    requires Distinct(depts)
    requires i < Min(n, |Ranked(depts, months, comp)|)
    requires b in depts && HasData(comp, months, b) && b !in TopNames(depts, months, comp, n)
    ensures var names := TopNames(depts, months, comp, n);
      && i < |names| && HasData(comp, months, names[i])
      && AverageRate(comp[b], months).value <= AverageRate(comp[names[i]], months).value
  {
    var sorted := SortDesc(Averages(depts, months, comp));
    var ranked := Ranked(depts, months, comp);
    var k := Min(n, |ranked|);
    var names := TopNames(depts, months, comp, n);
    RankedSpec(depts, months, comp);
    SelectShape(depts, ranked, n);
    RankedEntries(depts, months, comp);
    assert names[..k] == ranked[..k];
    assert names[i] == ranked[i] == sorted[i].0;
    var j :| 0 <= j < |ranked| && ranked[j] == b;
    assert b !in names[..k];
    assert k <= j;
    assert sorted[j].0 == b;
  }

  /** The sorted entries are in descending order and each carries its
      department's own average. */
  lemma RankedEntries(depts: seq<Value>, months: seq<nat>, comp: CompletionData)
    ensures var sorted := SortDesc(Averages(depts, months, comp));
      && SortedDesc(sorted)
      && forall i :: 0 <= i < |sorted| ==>
        HasData(comp, months, sorted[i].0) && sorted[i].1 == AverageRate(comp[sorted[i].0], months).value
  {
    var avgs := Averages(depts, months, comp);
    var sorted := SortDesc(avgs);
    AveragesSpec(depts, months, comp);
    SortDescSorted(avgs);
    SortDescMultiset(avgs);
    forall i | 0 <= i < |sorted|
      ensures HasData(comp, months, sorted[i].0) && sorted[i].1 == AverageRate(comp[sorted[i].0], months).value
    {
      assert sorted[i] in multiset(avgs);
      var ia :| 0 <= ia < |avgs| && avgs[ia] == sorted[i];
    }
  }

  /** A department is added as padding only when fewer than `n`
      departments have data, and a padding department has no data. */
  lemma PaddingHasNoData(depts: seq<Value>, months: seq<nat>, comp: CompletionData, n: nat, i: nat)
    requires Distinct(depts)
    requires Min(n, |Ranked(depts, months, comp)|) <= i < |TopNames(depts, months, comp, n)|
    ensures |Ranked(depts, months, comp)| < n
    ensures !HasData(comp, months, TopNames(depts, months, comp, n)[i])
  {
    RankedSpec(depts, months, comp);
    SelectPadding(depts, Ranked(depts, months, comp), n, i);
  }

  /** The departments without data fill the remaining places in
      department order: the padded names come in department order, and a
      department without data that comes before a padded one is selected
      too. */
  lemma PaddingInDepartmentOrder(depts: seq<Value>, months: seq<nat>, comp: CompletionData, n: nat, i: nat, d: Value)
    requires Distinct(depts)
    requires Min(n, |Ranked(depts, months, comp)|) <= i < |TopNames(depts, months, comp, n)|
    ensures var names := TopNames(depts, months, comp, n);
      && names[i] in depts
      && (forall j :: Min(n, |Ranked(depts, months, comp)|) <= j < i ==>
            names[j] in depts && IndexOf(depts, names[j]) < IndexOf(depts, names[i]))
      && (d in depts && !HasData(comp, months, d) && IndexOf(depts, d) < IndexOf(depts, names[i]) ==> d in names)
  {
    RankedSpec(depts, months, comp);
    SelectPaddingOrder(depts, Ranked(depts, months, comp), n, i, d);
  }

  /** The query's shape: the months as known, one series per selected
      department or `n` placeholder series, each as long as the month list,
      and distinct department names, at most `n`. */
  lemma {:induction false} CompletionRatesShape(depts: seq<Value>, months: seq<nat>, comp: CompletionData, n: nat)
    requires Distinct(depts)
    ensures var (ms, series, names) := CompletionRates(depts, months, comp, n);
      && ms == months
      && Distinct(names) && |names| == Min(n, |depts|)
      && (forall d :: d in names ==> d in depts)
      && (forall i :: 0 <= i < |series| ==> |series[i]| == |months|)
      && (|comp| == 0 ==> |series| == n && names == depts[..Min(n, |depts|)])
      && (|comp| == 0 ==> forall i, j :: 0 <= i < n && 0 <= j < |months| ==> series[i][j] == Some(50.0))
      && (|comp| != 0 ==> |series| == |names|)
      && (|comp| != 0 ==> forall i, j :: 0 <= i < |names| && 0 <= j < |months| ==>
            series[i][j] == Lookup(comp, names[i], months[j]))
  {
    if |comp| == 0 {
      var names := depts[..Min(n, |depts|)];
      assert forall d :: d in names ==> d in depts;
    } else {
      TopNamesShape(depts, months, comp, n);
    }
  }
}
