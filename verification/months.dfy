/** The month keys as both frontend pages show them: the list of months to
    choose from, and the label of one month. */
module Months {
  import opened Common
  import opened Ledger

  predicate NoDup(s: seq<string>)
  {
    forall i, j :: 0 <= i < j < |s| ==> s[i] != s[j]
  }

  /** Ordered by JavaScript's default string order, smallest first. */
  predicate Ascending(s: seq<string>)
  {
    forall i, j :: 0 <= i < j < |s| ==> LexLeq(s[i], s[j])
  }

  /** One insertion step of the default `sort()`. */
  function InsertString(x: string, s: seq<string>): (r: seq<string>)
    ensures |r| == |s| + 1
    ensures multiset(r) == multiset(s) + multiset{x}
  {
    if s == [] || LexLeq(x, s[0]) then [x] + s
    else
      assert s == [s[0]] + s[1..];
      [s[0]] + InsertString(x, s[1..])
  }

  /** `Array.prototype.sort()` without a comparator. */
  function SortStrings(s: seq<string>): (r: seq<string>)
    ensures |r| == |s|
    ensures multiset(r) == multiset(s)
  {
    if s == [] then []
    else
      assert s == [s[0]] + s[1..];
      InsertString(s[0], SortStrings(s[1..]))
  }

  function Reverse(s: seq<string>): (r: seq<string>)
    ensures |r| == |s|
    ensures forall i :: 0 <= i < |s| ==> r[i] == s[|s| - 1 - i]
  {
    if s == [] then [] else [s[|s| - 1]] + Reverse(s[..|s| - 1])
  }

  /** `[...new Set(xs)]`: each value once, at its first occurrence. */
  function Distinct(xs: seq<string>): (r: seq<string>)
    ensures NoDup(r)
    ensures forall x :: x in r <==> x in xs
  {
    if xs == [] then []
    else
      var d := Distinct(xs[..|xs| - 1]);
      var x := xs[|xs| - 1];
      assert forall y :: y in xs <==> y in xs[..|xs| - 1] || y == x by {
        assert xs == xs[..|xs| - 1] + [x];
      }
      if x in d then d else d + [x]
  }

  /** `expenses.map(expense => expense.month)`. */
  function MonthsOf(es: seq<Expense>): (ms: seq<string>)
    ensures |ms| == |es| && forall i :: 0 <= i < |es| ==> ms[i] == es[i].month
  {
    seq(|es|, i requires 0 <= i < |es| => es[i].month)
  }

  lemma {:induction false} InsertStringAscending(x: string, s: seq<string>)
    requires Ascending(s)
    ensures Ascending(InsertString(x, s))
    ensures InsertString(x, s)[0] == x || InsertString(x, s)[0] == s[0]
    decreases |s|
  {
    if s != [] && !LexLeq(x, s[0]) {
      LexLeqTotal(x, s[0]);
      var rest := InsertString(x, s[1..]);
      InsertStringAscending(x, s[1..]);
      if |s| > 1 {
        assert s[1..][0] == s[1];
      }
      assert LexLeq(s[0], rest[0]);
      var r := [s[0]] + rest;
      forall i, j | 0 <= i < j < |r|
        ensures LexLeq(r[i], r[j])
      {
        if i == 0 {
          assert r[j] == rest[j - 1];
          if j > 1 {
            LexLeqTransitive(s[0], rest[0], rest[j - 1]);
          }
        } else {
          assert r[i] == rest[i - 1] && r[j] == rest[j - 1];
        }
      }
    } else if s != [] {
      var r := [x] + s;
      forall i, j | 0 <= i < j < |r|
        ensures LexLeq(r[i], r[j])
      {
        if i == 0 {
          assert r[j] == s[j - 1];
          if j > 1 {
            LexLeqTransitive(x, s[0], s[j - 1]);
          }
        } else {
          assert r[i] == s[i - 1] && r[j] == s[j - 1];
        }
      }
    }
  }

  lemma {:induction false} SortStringsAscending(s: seq<string>)
    ensures Ascending(SortStrings(s))
    decreases |s|
  {
    if s != [] {
      SortStringsAscending(s[1..]);
      InsertStringAscending(s[0], SortStrings(s[1..]));
    }
  }

  lemma {:induction false} InsertStringNoDup(x: string, s: seq<string>)
    requires NoDup(s) && x !in s
    ensures NoDup(InsertString(x, s))
    decreases |s|
  {
    if s != [] && !LexLeq(x, s[0]) {
      var rest := InsertString(x, s[1..]);
      assert x !in s[1..];
      InsertStringNoDup(x, s[1..]);
      assert s[0] !in s[1..];
      assert s[0] !in multiset(rest) by {
        assert s[0] !in multiset(s[1..]);
      }
      var r := [s[0]] + rest;
      forall i, j | 0 <= i < j < |r|
        ensures r[i] != r[j]
      {
        if i == 0 {
          assert r[j] == rest[j - 1] && r[j] in multiset(rest);
        } else {
          assert r[i] == rest[i - 1] && r[j] == rest[j - 1];
        }
      }
    }
  }

  lemma {:induction false} SortStringsNoDup(s: seq<string>)
    requires NoDup(s)
    ensures NoDup(SortStrings(s))
    decreases |s|
  {
    if s != [] {
      var tail := s[1..];
      assert NoDup(tail) by {
        forall i, j | 0 <= i < j < |tail|
          ensures tail[i] != tail[j]
        {
          assert tail[i] == s[i + 1] && tail[j] == s[j + 1];
        }
      }
      SortStringsNoDup(tail);
      assert s[0] !in tail;
      assert s[0] !in multiset(SortStrings(tail)) by {
        assert s[0] !in multiset(tail);
      }
      InsertStringNoDup(s[0], SortStrings(tail));
    }
  }

  lemma ReverseKeeps(s: seq<string>)
    ensures forall m :: m in Reverse(s) <==> m in s
  {
    var r := Reverse(s);
    forall m
      ensures m in r <==> m in s
    {
      if m in r {
        var i :| 0 <= i < |r| && r[i] == m;
        assert s[|s| - 1 - i] == m;
      }
      if m in s {
        var i :| 0 <= i < |s| && s[i] == m;
        assert r[|s| - 1 - i] == m;
      }
    }
  }

  /** Reversing an ascending list without repeats gives a strictly
      descending one. */
  lemma ReverseDescends(s: seq<string>)
    requires Ascending(s) && NoDup(s)
    ensures forall i, j :: 0 <= i < j < |Reverse(s)| ==>
      LexLeq(Reverse(s)[j], Reverse(s)[i]) && Reverse(s)[i] != Reverse(s)[j]
  {
    var r := Reverse(s);
    forall i, j | 0 <= i < j < |r|
      ensures LexLeq(r[j], r[i]) && r[i] != r[j]
    {
      assert r[i] == s[|s| - 1 - i] && r[j] == s[|s| - 1 - j];
    }
  }

  lemma SortStringsKeeps(s: seq<string>)
    ensures forall m :: m in SortStrings(s) <==> m in s
  {
    forall m
      ensures m in SortStrings(s) <==> m in s
    {
      assert m in SortStrings(s) <==> m in multiset(SortStrings(s));
      assert m in s <==> m in multiset(s);
    }
  }

  lemma MonthsOfKeeps(es: seq<Expense>)
    ensures forall m :: m in MonthsOf(es) <==> exists i :: 0 <= i < |es| && es[i].month == m
  {
    var ms := MonthsOf(es);
    forall m
      ensures m in ms <==> exists i :: 0 <= i < |es| && es[i].month == m
    {
      if m in ms {
        var i :| 0 <= i < |ms| && ms[i] == m;
        assert es[i].month == m;
      }
    }
  }

  /** `[...new Set(expenses.map(e => e.month))].sort().reverse()`: every
      month that some expense carries, each once, latest first (for the
      `yyyy-MM` keys the string order is the calendar order). */
  function AvailableMonths(es: seq<Expense>): (r: seq<string>)
    ensures forall m :: m in r <==> exists i :: 0 <= i < |es| && es[i].month == m
    ensures forall i, j :: 0 <= i < j < |r| ==> LexLeq(r[j], r[i]) && r[i] != r[j]
  {
    var d := Distinct(MonthsOf(es));
    SortStringsAscending(d);
    SortStringsNoDup(d);
    ReverseDescends(SortStrings(d));
    ReverseKeeps(SortStrings(d));
    SortStringsKeeps(d);
    MonthsOfKeeps(es);
    Reverse(SortStrings(d))
  }

  // ------------------------------------------------------------ labels

  const MonthNames: seq<string> := [
    "Ocak", "\U{15E}ubat", "Mart", "Nisan", "May\U{131}s", "Haziran",
    "Temmuz", "A\U{11F}ustos", "Eyl\U{FC}l", "Ekim", "Kas\U{131}m", "Aral\U{131}k"
  ]

  /** `parseInt(monthNum)` of the second '-' field; NaN (None) when there
      is none. */
  function MonthNumber(month: string): Option<int>
  {
    var parts := Split(month, '-');
    if |parts| >= 2 then ParseInt(parts[1]) else None
  }

  /** `monthNames[n - 1]`, "undefined" outside the table. */
  function MonthName(n: Option<int>): (name: string)
    ensures n.Some? && 1 <= n.value <= 12 ==> name == MonthNames[n.value - 1]
    ensures !(n.Some? && 1 <= n.value <= 12) ==> name == "undefined"
  {
    if n.Some? && 1 <= n.value <= 12 then MonthNames[n.value - 1] else "undefined"
  }

  /** `formatMonth(month)`: the key is split on '-' into the year and the
      month number; the label is the Turkish month name and the year. A
      month number that is not a number from 1 to 12 (or missing) reads a
      name past the table, which JavaScript renders as "undefined". */
  function FormatMonth(month: string): (r: string)
    ensures |r| > |Split(month, '-')[0]|
    ensures r[|r| - |Split(month, '-')[0]|..] == Split(month, '-')[0]
  {
    var year := Split(month, '-')[0];
    var r := MonthName(MonthNumber(month)) + " " + year;
    assert r[|r| - |year|..] == year;
    r
  }

  /** A key `year-MM` splits back into its year and month number. */
  lemma SplitMonthKey(year: string, padded: string)
    requires '-' !in year && '-' !in padded
    ensures Split(year + "-" + padded, '-') == [year, padded]
  {
    var parts := [year, padded];
    assert forall k :: 0 <= k < |parts| ==> '-' !in parts[k];
    SplitJoin(parts, '-');
    assert parts[1..] == [padded];
  }

  /** A leading zero does not change the value of a one-digit field. */
  lemma ZeroPaddedValue(mm: string)
    requires |mm| == 1 && AllDigits(mm)
    ensures AllDigits("0" + mm) && DigitsValue("0" + mm) == DigitsValue(mm)
  {
    var padded := "0" + mm;
    assert padded[..|padded| - 1] == "0";
    assert "0"[..0] == [] && mm[..0] == [];
  }

  /** The month number of a key `year-MM` is the value of its digits. */
  lemma MonthNumberOfKey(year: string, padded: string)
    requires '-' !in year && padded != [] && AllDigits(padded)
    ensures MonthNumber(year + "-" + padded) == Some(DigitsValue(padded) as int)
  {
    assert forall k :: 0 <= k < |padded| ==> IsDigit(padded[k]);
    SplitMonthKey(year, padded);
    ParseIntDigits(padded, []);
    assert padded + [] == padded;
  }

  /** The bucket of a day/month/year date is its year and padded month. */
  lemma ParsedMonthKey(day: string, mm: string, year: string)
    requires '/' !in day && '/' !in mm && '/' !in year
    ensures ParseMonth(day + "/" + mm + "/" + year) == Ok(year + "-" + PadStartZero(mm, 2))
  {
    var fields := [day, mm, year];
    assert forall k :: 0 <= k < |fields| ==> '/' !in fields[k];
    JoinThree(day, mm, year);
    ParseMonthFields(fields);
  }

  /** Padding a month field of one or two digits to two keeps its value. */
  lemma PaddedValue(mm: string)
    requires 1 <= |mm| <= 2 && AllDigits(mm)
    ensures var p := PadStartZero(mm, 2); p != [] && AllDigits(p) && DigitsValue(p) == DigitsValue(mm)
  {
    if |mm| == 1 {
      ZeroPaddedValue(mm);
      assert Zeros(1) == "0";
      assert PadStartZero(mm, 2) == "0" + mm;
    }
  }

  /** The label of a key `year-MM` whose month number is 1 to 12. */
  lemma FormatMonthKey(year: string, padded: string)
    requires '-' !in year && padded != [] && AllDigits(padded) && 1 <= DigitsValue(padded) <= 12
    ensures FormatMonth(year + "-" + padded) == MonthName(Some(DigitsValue(padded) as int)) + " " + year
  {
    assert forall k :: 0 <= k < |padded| ==> IsDigit(padded[k]);
    SplitMonthKey(year, padded);
    MonthNumberOfKey(year, padded);
  }

  /** A month bucket the server derived from a day/month/year date, with a
      month field of one or two digits from 1 to 12 and a year without '-',
      is labelled with that month's name and the year, whether or not the
      month field was zero-padded. */
  lemma FormatParsedMonth(day: string, mm: string, year: string)
    requires '/' !in day && '/' !in year && '-' !in year
    requires 1 <= |mm| <= 2 && AllDigits(mm) && 1 <= DigitsValue(mm) <= 12
    ensures ParseMonth(day + "/" + mm + "/" + year).Ok?
    ensures FormatMonth(ParseMonth(day + "/" + mm + "/" + year).value) == MonthName(Some(DigitsValue(mm) as int)) + " " + year
  {
    assert '/' !in mm by {
      assert forall k :: 0 <= k < |mm| ==> IsDigit(mm[k]);
    }
    ParsedMonthKey(day, mm, year);
    PaddedValue(mm);
    FormatMonthKey(year, PadStartZero(mm, 2));
  }
}
