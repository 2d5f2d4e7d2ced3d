/** Scalar cell values, the failure wrappers the extraction needs, and the
    string helpers it relies on: substring search, decimal text of a month
    number, and Python's `str.strip` for one character. */
module Values {

  datatype Option<T> = None | Some(value: T)

  /** The outcome of a computation that may raise Python's TypeError
      (adding a `str` to a number inside `sum`). */
  datatype Outcome<T> = Ok(value: T) | TypeError

  /** One spreadsheet cell as the table reader delivers it: empty (NaN),
      a number, or text. */
  datatype Value = Missing | Num(x: real) | Text(s: string)

  /** Python's `sub in s` on strings. */
  predicate Contains(s: string, sub: string)
    decreases |s|
  {
    sub <= s || (|s| > 0 && Contains(s[1..], sub))
  }

  /** An occurrence of `sub` at position `i` makes `sub in s` true. */
  lemma {:induction false} ContainsAt(s: string, sub: string, i: nat)
    requires i <= |s| && sub <= s[i..]
    ensures Contains(s, sub)
    decreases i
  {
    if i > 0 {
      assert s[1..][i - 1..] == s[i..];
      ContainsAt(s[1..], sub, i - 1);
    }
  }

  /** `sub in s` holds only when `sub` occurs at some position of `s`. */
  lemma {:induction false} ContainsWitness(s: string, sub: string) returns (i: nat)
    requires Contains(s, sub)
    ensures i <= |s| && sub <= s[i..]
    decreases |s|
  {
    if sub <= s {
      i := 0;
    } else {
      var j := ContainsWitness(s[1..], sub);
      assert s[1..][j..] == s[j + 1..];
      i := j + 1;
    }
  }

  predicate IsDigit(c: char) { '0' <= c <= '9' }

  predicate AllDigits(s: string) { forall k :: 0 <= k < |s| ==> IsDigit(s[k]) }

  function DigitValue(c: char): (d: nat)
    requires IsDigit(c)
    ensures d < 10
  {
    c as int - '0' as int
  }

  function DigitChar(d: nat): (c: char)
    requires d < 10
    ensures IsDigit(c) && DigitValue(c) == d
  {
    ('0' as int + d) as char
  }

  /** Python's `int(s)` on a run of ASCII digits (leading zeros allowed). */
  function DecimalValue(s: string): nat
    requires AllDigits(s)
  {
    if s == [] then 0 else DecimalValue(s[..|s| - 1]) * 10 + DigitValue(s[|s| - 1])
  }

  /** Python's `str(n)` for a non-negative integer: no leading zeros. */
  function NatToDecimal(n: nat): (r: string)
    ensures 0 < |r| && AllDigits(r)
    ensures n < 10 <==> |r| == 1
  {
    if n < 10 then [DigitChar(n)] else NatToDecimal(n / 10) + [DigitChar(n % 10)]
  }

  /** Reading back the decimal text of `n` gives `n`. */
  lemma {:induction false} DecimalRoundTrip(n: nat)
    ensures DecimalValue(NatToDecimal(n)) == n
  {
    if n >= 10 {
      var s := NatToDecimal(n);
      assert s[..|s| - 1] == NatToDecimal(n / 10);
      DecimalRoundTrip(n / 10);
    }
  }

  /** The month suffix character of the headers ("3月" is March). */
  const MonthSuffix: char := '月'

  /** The display name `f"{n}月"` of month number `n`. */
  function MonthName(n: nat): (r: string)
    ensures |r| >= 2 && r[|r| - 1] == MonthSuffix
    ensures AllDigits(r[..|r| - 1]) && DecimalValue(r[..|r| - 1]) == n
  {
    DecimalRoundTrip(n);
    var d := NatToDecimal(n);
    assert (d + [MonthSuffix])[..|d|] == d;
    d + [MonthSuffix]
  }

  /** Distinct month numbers have distinct display names, so keying by the
      number is the same as keying by the name. */
  lemma MonthNameInjective(a: nat, b: nat)
    requires MonthName(a) == MonthName(b)
    ensures a == b
  {
    var na, nb := MonthName(a), MonthName(b);
    assert na[..|na| - 1] == nb[..|nb| - 1];
  }

  /** `s.lstrip(c)`: drop every leading `c`. */
  function StripLeading(s: string, c: char): string
    decreases |s|
  {
    if |s| > 0 && s[0] == c then StripLeading(s[1..], c) else s
  }

  /** What `lstrip` keeps is a suffix, what it drops is all `c`, and what
      it keeps does not start with `c`. */
  lemma {:induction false} StripLeadingSpec(s: string, c: char)
    ensures var r := StripLeading(s, c);
      && |r| <= |s| && r == s[|s| - |r|..]
      && (forall k :: 0 <= k < |s| - |r| ==> s[k] == c)
      && (|r| > 0 ==> r[0] != c)
    decreases |s|
  {
    if |s| > 0 && s[0] == c {
      var t := s[1..];
      StripLeadingSpec(t, c);
      var r := StripLeading(t, c);
      assert r == StripLeading(s, c);
      assert t[|t| - |r|..] == s[|s| - |r|..];
      forall k | 0 <= k < |s| - |r| ensures s[k] == c {
        if k > 0 {
          assert s[k] == t[k - 1];
        }
      }
    }
  }

  /** `s.rstrip(c)`: drop every trailing `c`. */
  function StripTrailing(s: string, c: char): string
    decreases |s|
  {
    if |s| > 0 && s[|s| - 1] == c then StripTrailing(s[..|s| - 1], c) else s
  }

  /** What `rstrip` keeps is a prefix, what it drops is all `c`, and what
      it keeps does not end with `c`. */
  lemma {:induction false} StripTrailingSpec(s: string, c: char)
    ensures var r := StripTrailing(s, c);
      && |r| <= |s| && r == s[..|r|]
      && (forall k :: |r| <= k < |s| ==> s[k] == c)
      && (|r| > 0 ==> r[|r| - 1] != c)
    decreases |s|
  {
    if |s| > 0 && s[|s| - 1] == c {
      var t := s[..|s| - 1];
      StripTrailingSpec(t, c);
      var r := StripTrailing(t, c);
      assert r == StripTrailing(s, c);
      assert t[..|r|] == s[..|r|];
      forall k | |r| <= k < |s| ensures s[k] == c {
        if k < |t| {
          assert s[k] == t[k];
        }
      }
    }
  }

  /** `s.strip(c)`: drop the leading and the trailing runs of `c`. */
  function Strip(s: string, c: char): string
  {
    StripTrailing(StripLeading(s, c), c)
  }

  /** What `Strip` keeps: the slice of `s` between a leading and a trailing
      run of `c`, neither end of which is `c`. */
  lemma StripSpec(s: string, c: char)
    ensures var r := Strip(s, c);
      var i := |s| - |StripLeading(s, c)|;
      && 0 <= i && i + |r| <= |s| && r == s[i..i + |r|]
      && (forall k :: 0 <= k < i ==> s[k] == c)
      && (forall k :: i + |r| <= k < |s| ==> s[k] == c)
      && (|r| > 0 ==> r[0] != c && r[|r| - 1] != c)
  {
    var l := StripLeading(s, c);
    var r := StripTrailing(l, c);
    StripLeadingSpec(s, c);
    StripTrailingSpec(l, c);
    StripSlices(s, l, r, c);
    assert |r| > 0 ==> r[0] == l[0];
  }

  lemma StripSlices(s: string, l: string, r: string, c: char)
    requires |l| <= |s| && l == s[|s| - |l|..]
    requires |r| <= |l| && r == l[..|r|]
    requires forall k :: |r| <= k < |l| ==> l[k] == c
    ensures var i := |s| - |l|;
      && r == s[i..i + |r|]
      && (forall k :: i + |r| <= k < |s| ==> s[k] == c)
  {
    var i := |s| - |l|;
    forall k | i + |r| <= k < |s| ensures s[k] == c {
      assert s[k] == l[k - i];
    }
  }
}
