/** The dashboard page: the list of months to choose from, the summary of
    the chosen month and the yearly overview it receives, and the figures
    the page derives from them (totals, percentages, the leading
    categories). Loading assigns the fields; every figure is a function of
    the fields. */
module DashboardPage {
  import opened Common
  import opened Ledger
  import opened Summary
  import opened Ranking
  import opened Months
  import Store

  /** The yearly overview as the page receives it. A year missing from
      `yearlyData` has no entry; a missing `categoryTotals` object reads
      like an empty one. */
  datatype Yearly = Yearly(grandTotal: real, categoryTotals: seq<Group>, yearlyData: map<string, seq<Group>>)

  /** The sort key of the summary lists: the size of the total, whatever
      its sign. */
  function AbsTotal(g: Group): real
  {
    Abs(g.total)
  }

  /** The sort key of the most active category. */
  function CountKey(g: Group): real
  {
    g.count as real
  }

  /** `Math.round(x)` for a number that is not negative: the nearest
      integer, halves rounded up. */
  function Round(x: real): (r: int)
    requires x >= 0.0
    ensures r >= 0
    ensures r as real - 0.5 <= x < r as real + 0.5
  {
    (x + 0.5).Floor
  }

  /** `Math.round((Math.abs(amount) / total) * 100)` with `total` the size
      of the denominator, and 0 when that size is 0. */
  function PercentOf(amount: real, denominator: real): (r: int)
    ensures r >= 0
    ensures Abs(denominator) == 0.0 ==> r == 0
    ensures Abs(denominator) != 0.0 ==>
      r as real - 0.5 <= Abs(amount) / Abs(denominator) * 100.0 < r as real + 0.5
  {
    var total := Abs(denominator);
    if total == 0.0 then 0 else Round(Abs(amount) / total * 100.0)
  }

  /** A part of a positive whole is at most one whole of it. */
  lemma ShareAtMostOne(a: real, t: real)
    requires 0.0 <= a <= t && t > 0.0
    ensures a / t <= 1.0
  {
    var q := a / t;
    assert q * t == a;
    assert (q - 1.0) * t == a - t;
  }

  /** A share of a total is at most the whole of it. */
  lemma PercentAtMostHundred(amount: real, denominator: real)
    requires Abs(amount) <= Abs(denominator)
    ensures PercentOf(amount, denominator) <= 100
    ensures Abs(amount) == Abs(denominator) != 0.0 ==> PercentOf(amount, denominator) == 100
  {
    var total := Abs(denominator);
    if total != 0.0 {
      var q := Abs(amount) / total;
      ShareAtMostOne(Abs(amount), total);
      assert q * 100.0 <= 100.0;
      if Abs(amount) == total {
        assert q == 1.0;
      }
    }
  }

  /** `r` is `total` spread evenly over `count` parts: `count` times `r`
      makes `total`, and `r` is 0 when there are no parts. */
  predicate MeanOf(r: real, total: real, count: nat)
  {
    if count == 0 then r == 0.0 else r * count as real == total
  }

  /** `total / count` when `count > 0`, and 0 otherwise. */
  function Mean(total: real, count: nat): (r: real)
    ensures MeanOf(r, total, count)
    ensures total >= 0.0 ==> r >= 0.0
  {
    if count > 0 then total / count as real else 0.0
  }

  // ------------------------------------------------ sums over the groups

  lemma {:induction false} SumTotalsCons(x: Group, s: seq<Group>)
    ensures SumTotals([x] + s) == x.total + SumTotals(s)
    decreases |s|
  {
    if s != [] {
      var init := s[..|s| - 1];
      assert ([x] + s)[..|s|] == [x] + init;
      SumTotalsCons(x, init);
    }
  }

  lemma {:induction false} SumTotalsInsert(x: Group, s: seq<Group>, key: Group -> real)
    ensures SumTotals(InsertBy(x, s, key)) == x.total + SumTotals(s)
    decreases |s|
  {
    SumTotalsCons(x, s);
    if s != [] && !(key(s[0]) <= key(x)) {
      SumTotalsInsert(x, s[1..], key);
      SumTotalsCons(s[0], InsertBy(x, s[1..], key));
      SumTotalsCons(s[0], s[1..]);
      assert [s[0]] + s[1..] == s;
    }
  }

  /** Sorting the groups does not change the sum of their totals. */
  lemma {:induction false} SortKeepsTotals(s: seq<Group>, key: Group -> real)
    ensures SumTotals(SortBy(s, key)) == SumTotals(s)
    decreases |s|
  {
    if s != [] {
      SortKeepsTotals(s[1..], key);
      SumTotalsInsert(s[0], SortBy(s[1..], key), key);
      SumTotalsCons(s[0], s[1..]);
      assert [s[0]] + s[1..] == s;
    }
  }

  lemma {:induction false} SumCountsCons(x: Group, s: seq<Group>)
    ensures SumCounts([x] + s) == x.count + SumCounts(s)
    decreases |s|
  {
    if s != [] {
      var init := s[..|s| - 1];
      assert ([x] + s)[..|s|] == [x] + init;
      SumCountsCons(x, init);
    }
  }

  lemma {:induction false} SumCountsInsert(x: Group, s: seq<Group>, key: Group -> real)
    ensures SumCounts(InsertBy(x, s, key)) == x.count + SumCounts(s)
    decreases |s|
  {
    SumCountsCons(x, s);
    if s != [] && !(key(s[0]) <= key(x)) {
      SumCountsInsert(x, s[1..], key);
      SumCountsCons(s[0], InsertBy(x, s[1..], key));
      SumCountsCons(s[0], s[1..]);
      assert [s[0]] + s[1..] == s;
    }
  }

  /** Sorting the groups does not change the sum of their counts. */
  lemma {:induction false} SortKeepsCounts(s: seq<Group>, key: Group -> real)
    ensures SumCounts(SortBy(s, key)) == SumCounts(s)
    decreases |s|
  {
    if s != [] {
      SortKeepsCounts(s[1..], key);
      SumCountsInsert(s[0], SortBy(s[1..], key), key);
      SumCountsCons(s[0], s[1..]);
      assert [s[0]] + s[1..] == s;
    }
  }

  predicate NoRefunds(s: seq<Group>)
  {
    forall i :: 0 <= i < |s| ==> s[i].total >= 0.0
  }

  /** Without refunds, the first groups never add up to more than all. */
  lemma {:induction false} PrefixTotalAtMost(s: seq<Group>, n: nat)
    requires NoRefunds(s) && n <= |s|
    ensures SumTotals(s[..n]) <= SumTotals(s)
    decreases |s|
  {
    if n < |s| {
      var init := s[..|s| - 1];
      assert init[..n] == s[..n];
      PrefixTotalAtMost(init, n);
    } else {
      assert s[..n] == s;
    }
  }

  /** Without refunds, no group's total is larger than the sum of all. */
  lemma {:induction false} TotalAtMostSum(s: seq<Group>, i: nat)
    requires NoRefunds(s) && i < |s|
    ensures s[i].total <= SumTotals(s)
    decreases |s|
  {
    var init := s[..|s| - 1];
    assert NoRefunds(init);
    assert SumTotals(init) >= 0.0 by {
      PrefixTotalAtMost(init, 0);
      assert init[..0] == [];
    }
    if i < |s| - 1 {
      TotalAtMostSum(init, i);
    }
  }

  lemma {:induction false} SumCountsAtLeastLength(s: seq<Group>)
    requires forall i :: 0 <= i < |s| ==> s[i].count >= 1
    ensures SumCounts(s) >= |s|
    decreases |s|
  {
    if s != [] {
      SumCountsAtLeastLength(s[..|s| - 1]);
    }
  }

  lemma {:induction false} FirstWithCounted(js: seq<Joined>, key: string, i: int)
    requires FirstWith(js, key, i)
    ensures CountLabel(js, key) >= 1
    decreases |js|
  {
    if i < |js| - 1 {
      var init := js[..|js| - 1];
      assert init[i] == js[i];
      assert FirstWith(init, key, i);
      FirstWithCounted(init, key, i);
    }
  }

  // ------------------------------------------------------------ the page

  class Dashboard {
    var selectedMonth: string
    var summary: Option<seq<Group>>
    var availableMonths: seq<string>
    var yearlySummary: Option<Yearly>

    /** The page as it opens: no month chosen, nothing loaded. */
    constructor()
      ensures selectedMonth == "" && summary == None
      ensures availableMonths == [] && yearlySummary == None
    {
      selectedMonth := "";
      summary := None;
      availableMonths := [];
      yearlySummary := None;
    }

    /** `loadAvailableMonths`: `response` is the list of all expenses, or
        None when the request failed, which leaves the list as it was. */
    method LoadAvailableMonths(response: Option<seq<Expense>>)
      modifies this
      ensures response.Some? ==> availableMonths == AvailableMonths(response.value)
      ensures response.None? ==> availableMonths == old(availableMonths)
      ensures selectedMonth == old(selectedMonth) && summary == old(summary)
      ensures yearlySummary == old(yearlySummary)
    {
      if response.Some? {
        availableMonths := AvailableMonths(response.value);
      }
    }

    /** `loadYearlySummary`: a failed request leaves the overview as it
        was. */
    method LoadYearlySummary(response: Option<Yearly>)
      modifies this
      ensures response.Some? ==> yearlySummary == response
      ensures response.None? ==> yearlySummary == old(yearlySummary)
      ensures selectedMonth == old(selectedMonth) && summary == old(summary)
      ensures availableMonths == old(availableMonths)
    {
      if response.Some? {
        yearlySummary := response;
      }
    }

    /** `loadSummary`: with no month chosen the summary is cleared and no
        request is made; otherwise `response` is the summary the server
        sent for `selectedMonth`, or None when the request failed, which
        leaves the summary as it was. */
    method LoadSummary(response: Option<seq<Group>>)
      modifies this
      ensures selectedMonth == "" ==> summary == None
      ensures selectedMonth != "" && response.Some? ==> summary == response
      ensures selectedMonth != "" && response.None? ==> summary == old(summary)
      ensures selectedMonth == old(selectedMonth) && availableMonths == old(availableMonths)
      ensures yearlySummary == old(yearlySummary)
    {
      if selectedMonth == "" {
        summary := None;
        return;
      }
      if response.Some? {
        summary := response;
      }
    }

    /** `getSummaryItems`: one item per key of the summary, largest size of
        total first, ties in key order. */
    function SummaryItems(): (items: seq<Group>)
      reads this
      ensures summary.None? ==> items == []
      ensures summary.Some? ==> multiset(items) == multiset(summary.value)
      ensures Descending(items, AbsTotal)
    {
      if summary.None? then []
      else
        SortByDescending(summary.value, AbsTotal);
        SortBy(summary.value, AbsTotal)
    }

    /** `getTotalAmount`: the signed sum of the totals. */
    function TotalAmount(): (total: real)
      reads this
      ensures summary.None? ==> total == 0.0
      ensures summary.Some? ==> total == SumTotals(SummaryItems())
    {
      if summary.None? then 0.0
      else
        SortKeepsTotals(summary.value, AbsTotal);
        SumTotals(summary.value)
    }

    /** `getTotalTransactions`: the sum of the counts, which is also the
        sum over the items the page lists. */
    function TotalTransactions(): (n: nat)
      reads this
      ensures summary.None? ==> n == 0
      ensures summary.Some? ==> n == SumCounts(SummaryItems())
    {
      if summary.None? then 0
      else
        SortKeepsCounts(summary.value, AbsTotal);
        SumCounts(summary.value)
    }

    /** `getActiveCategories`: the number of keys. */
    function ActiveCategories(): (n: nat)
      reads this
      ensures n == |SummaryItems()|
    {
      if summary.None? then 0 else |summary.value|
    }

    /** `getAverageTransaction`: the size of the total per expense. */
    function AverageTransaction(): (r: real)
      reads this
      ensures r >= 0.0
      ensures MeanOf(r, Abs(TotalAmount()), TotalTransactions())
    {
      Mean(Abs(TotalAmount()), TotalTransactions())
    }

    /** `getPercentage`: an amount's share of the month's total. */
    function Percentage(amount: real): (r: int)
      reads this
      ensures r >= 0
      ensures Abs(TotalAmount()) == 0.0 ==> r == 0
      ensures Abs(TotalAmount()) != 0.0 ==>
        r as real - 0.5 <= Abs(amount) / Abs(TotalAmount()) * 100.0 < r as real + 0.5
    {
      PercentOf(amount, TotalAmount())
    }

    /** `getTopCategory`: the key of the first sorted item, which is the
        earliest group with the largest size of total; `Yok` when there is
        none. */
    function TopCategory(): (name: string)
      reads this
      ensures summary.None? || summary.value == [] ==> name == "Yok"
      ensures summary.Some? && summary.value != [] ==>
        name == summary.value[FirstMax(summary.value, AbsTotal)].key
    {
      var items := SummaryItems();
      if summary.None? then "Yok"
      else if |items| > 0 then
        SortByHead(summary.value, AbsTotal);
        items[0].key
      else "Yok"
    }

    /** `getMostActiveCategory`: the earliest key with the largest count;
        `Yok` when there is none. */
    function MostActiveCategory(): (name: string)
      reads this
      ensures summary.None? || summary.value == [] ==> name == "Yok"
      ensures summary.Some? && summary.value != [] ==>
        name == summary.value[FirstMax(summary.value, CountKey)].key
    {
      if summary.None? then "Yok"
      else
        var items := SortBy(summary.value, CountKey);
        if |items| > 0 then
          SortByHead(summary.value, CountKey);
          items[0].key
        else "Yok"
    }

    /** `getMonthlyAverage`: the year's grand total spread over the months
        to choose from. */
    function MonthlyAverage(): (r: real)
      reads this
      ensures yearlySummary.None? || availableMonths == [] ==> r == 0.0
      ensures yearlySummary.Some? && availableMonths != [] ==>
        r * |availableMonths| as real == yearlySummary.value.grandTotal
    {
      if yearlySummary.None? then 0.0
      else Mean(yearlySummary.value.grandTotal, |availableMonths|)
    }

    /** `getAllCategoriesSorted`: the yearly category totals, largest size
        of total first. */
    function AllCategoriesSorted(): (items: seq<Group>)
      reads this
      ensures yearlySummary.None? ==> items == []
      ensures yearlySummary.Some? ==> multiset(items) == multiset(yearlySummary.value.categoryTotals)
      ensures Descending(items, AbsTotal)
    {
      if yearlySummary.None? then []
      else
        SortByDescending(yearlySummary.value.categoryTotals, AbsTotal);
        SortBy(yearlySummary.value.categoryTotals, AbsTotal)
    }

    /** `getCategoryPercentage`: an amount's share of the grand total. */
    function CategoryPercentage(amount: real): (r: int)
      reads this
      ensures r >= 0
      ensures yearlySummary.None? ==> r == 0
      ensures yearlySummary.Some? ==> r == PercentOf(amount, yearlySummary.value.grandTotal)
    {
      if yearlySummary.None? then 0 else PercentOf(amount, yearlySummary.value.grandTotal)
    }

    /** The groups of one year, when the overview has that year. */
    predicate HasYear(year: string)
      reads this
    {
      yearlySummary.Some? && year in yearlySummary.value.yearlyData
    }

    /** `getYearTotal`: the signed sum of the year's category totals, 0 for
        a year the overview lacks. */
    function YearTotal(year: string): (total: real)
      reads this
      ensures !HasYear(year) ==> total == 0.0
      ensures HasYear(year) ==>
        total == SumTotals(SortBy(yearlySummary.value.yearlyData[year], AbsTotal))
    {
      if !HasYear(year) then 0.0
      else
        SortKeepsTotals(yearlySummary.value.yearlyData[year], AbsTotal);
        SumTotals(yearlySummary.value.yearlyData[year])
    }

    /** `getTopCategoriesForYear`: the five groups of the year with the
        largest size of total (all of them when there are fewer), largest
        first; every group of the year left out is no larger than every
        one kept. */
    function TopCategoriesForYear(year: string): (top: seq<Group>)
      reads this
      ensures !HasYear(year) ==> top == []
      ensures |top| <= 5 && Descending(top, AbsTotal)
      ensures HasYear(year) ==> var groups := yearlySummary.value.yearlyData[year];
        && |top| == (if |groups| < 5 then |groups| else 5)
        && (forall g :: g in top ==> g in groups)
        && (forall g, h :: g in top && h in groups && h !in top ==> AbsTotal(h) <= AbsTotal(g))
    {
      if !HasYear(year) then []
      else
        var groups := yearlySummary.value.yearlyData[year];
        TopFive(groups);
        Take(SortBy(groups, AbsTotal), 5)
    }
  }

  // ------------------------------------------------ lemmas about the page

  /** The first five groups by size of total are the largest ones. */
  lemma TopFive(groups: seq<Group>)
    ensures var top := Take(SortBy(groups, AbsTotal), 5);
      && Descending(top, AbsTotal)
      && (forall g :: g in top ==> g in groups)
      && (forall g, h :: g in top && h in groups && h !in top ==> AbsTotal(h) <= AbsTotal(g))
  {
    var sorted := SortBy(groups, AbsTotal);
    SortByDescending(groups, AbsTotal);
    var top := Take(sorted, 5);
    forall g | g in top
      ensures g in groups
    {
      SortByMembers(groups, AbsTotal, g);
    }
    forall g, h | g in top && h in groups && h !in top
      ensures AbsTotal(h) <= AbsTotal(g)
    {
      SortByMembers(groups, AbsTotal, h);
      TakeLargest(sorted, AbsTotal, 5, g, h);
    }
  }

  /** A summary loaded for the chosen month shows the month's figures: its
      total is the signed sum of the amounts of the month's reported
      expenses, and its transaction count their number. When no category
      is named after an inherited property, that is every expense of the
      month. */
  lemma MonthFigures(d: Dashboard, rows: seq<Expense>, cats: seq<Category>)
    requires d.summary == Some(Summarize(Store.MonthJoined(rows, cats, d.selectedMonth)))
    ensures d.TotalAmount() == SumReported(Store.MonthJoined(rows, cats, d.selectedMonth))
    ensures d.TotalTransactions() == CountReported(Store.MonthJoined(rows, cats, d.selectedMonth))
    ensures Store.OwnNames(cats) ==>
      && d.TotalAmount() == Store.AmountOfMonth(rows, d.selectedMonth)
      && d.TotalTransactions() == Store.CountMonth(rows, d.selectedMonth)
  {
    Store.MonthSummaryTotals(rows, cats, d.selectedMonth);
  }

  /** A summary built by the server's reduce has no more keys than
      expenses: every group counts at least the expense that created it. */
  lemma ActiveAtMostTransactions(d: Dashboard, js: seq<Joined>)
    requires d.summary == Some(Summarize(js))
    ensures d.ActiveCategories() <= d.TotalTransactions()
  {
    var groups := Summarize(js);
    SummarizeDescribes(js);
    forall a | 0 <= a < |groups|
      ensures groups[a].count >= 1
    {
      assert GroupFits(groups[a], js);
      var i :| FirstWith(js, groups[a].key, i) && groups[a].color == ColorOf(js[i]);
      FirstWithCounted(js, groups[a].key, i);
    }
    SumCountsAtLeastLength(groups);
  }

  /** Without refunds in the month, no category's share exceeds 100. */
  lemma GroupShareAtMostHundred(d: Dashboard, i: nat)
    requires d.summary.Some? && NoRefunds(d.summary.value) && i < |d.summary.value|
    ensures d.Percentage(d.summary.value[i].total) <= 100
  {
    TotalAtMostSum(d.summary.value, i);
    PercentAtMostHundred(d.summary.value[i].total, d.TotalAmount());
  }

  /** Without refunds in the year, its top categories add up to no more
      than the year's total. */
  lemma TopCategoriesWithinYear(d: Dashboard, year: string)
    requires d.HasYear(year) && NoRefunds(d.yearlySummary.value.yearlyData[year])
    ensures SumTotals(d.TopCategoriesForYear(year)) <= d.YearTotal(year)
  {
    var groups := d.yearlySummary.value.yearlyData[year];
    var sorted := SortBy(groups, AbsTotal);
    assert NoRefunds(sorted) by {
      forall i | 0 <= i < |sorted|
        ensures sorted[i].total >= 0.0
      {
        SortByMembers(groups, AbsTotal, sorted[i]);
      }
    }
    var top := d.TopCategoriesForYear(year);
    assert top == sorted[..|top|];
    PrefixTotalAtMost(sorted, |top|);
  }
}
