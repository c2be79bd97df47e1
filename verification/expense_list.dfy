/** The expense list page: every loaded expense, the list currently shown
    after the month and category filters, the partition counts, and the
    local effects of changing one expense's category and of deleting an
    expense. The page keeps two arrays; right after loading they are the
    same array, so a write through one is seen through the other until a
    filter replaces the shown list with a fresh array. */
module ExpensePage {
  import opened Common
  import opened Ledger
  import opened Months

  /** `s.filter(keep)`: the entries that pass, in their order. */
  function Select(s: seq<Expense>, keep: Expense -> bool): (r: seq<Expense>)
    ensures |r| <= |s|
    ensures forall e :: e in r <==> e in s && keep(e)
  {
    if s == [] then []
    else
      var init := s[..|s| - 1];
      var last := s[|s| - 1];
      assert s == init + [last];
      var r := Select(init, keep);
      if keep(last) then r + [last] else r
  }

  /** `r` is `s` with some entries dropped, the rest in their order:
      `idx` gives the position in `s` of each entry of `r`. */
  ghost predicate EmbedsVia(r: seq<Expense>, s: seq<Expense>, idx: seq<int>)
  {
    && |idx| == |r|
    && (forall i :: 0 <= i < |idx| ==> 0 <= idx[i] < |s| && r[i] == s[idx[i]])
    && (forall i, j :: 0 <= i < j < |idx| ==> idx[i] < idx[j])
  }

  ghost predicate IsSubsequence(r: seq<Expense>, s: seq<Expense>)
  {
    exists idx :: EmbedsVia(r, s, idx)
  }

  /** Filtering keeps the order of what it keeps. */
  lemma {:induction false} SelectSubsequence(s: seq<Expense>, keep: Expense -> bool)
    ensures IsSubsequence(Select(s, keep), s)
    decreases |s|
  {
    if s == [] {
      assert EmbedsVia([], s, []);
    } else {
      var init := s[..|s| - 1];
      var last := s[|s| - 1];
      SelectSubsequence(init, keep);
      var idx :| EmbedsVia(Select(init, keep), init, idx);
      EmbedsSnoc(Select(init, keep), init, idx, last);
      assert s == init + [last];
    }
  }

  /** An embedding survives one more entry of `s`, whether or not `r`
      keeps it. */
  lemma EmbedsSnoc(r: seq<Expense>, s: seq<Expense>, idx: seq<int>, x: Expense)
    requires EmbedsVia(r, s, idx)
    ensures EmbedsVia(r + [x], s + [x], idx + [|s|])
    ensures EmbedsVia(r, s + [x], idx)
  {
  }

  lemma {:induction false} SelectTwice(s: seq<Expense>, p: Expense -> bool, q: Expense -> bool)
    ensures Select(Select(s, p), q) == Select(s, (e: Expense) => p(e) && q(e))
    decreases |s|
  {
    if s != [] {
      var init := s[..|s| - 1];
      var last := s[|s| - 1];
      SelectTwice(init, p, q);
      var r := Select(init, p);
      if p(last) {
        assert (r + [last])[..|r|] == r;
      }
    }
  }

  lemma {:induction false} SelectSameKeep(s: seq<Expense>, p: Expense -> bool, q: Expense -> bool)
    requires forall e :: p(e) == q(e)
    ensures Select(s, p) == Select(s, q)
    decreases |s|
  {
    if s != [] {
      SelectSameKeep(s[..|s| - 1], p, q);
    }
  }

  lemma {:induction false} SelectAll(s: seq<Expense>, p: Expense -> bool)
    requires forall e :: p(e)
    ensures Select(s, p) == s
    decreases |s|
  {
    if s != [] {
      SelectAll(s[..|s| - 1], p);
    }
  }

  // --------------------------------------------------------- the filters

  /** The category filter: `categorized`, `uncategorized`, or a category id
      read with `parseInt`; a filter that reads as NaN matches nothing. */
  predicate PassesCategory(filter: string, e: Expense)
  {
    if filter == "categorized" then e.categoryId.Some?
    else if filter == "uncategorized" then e.categoryId.None?
    else
      var n := ParseInt(filter);
      n.Some? && e.categoryId.Some? && e.categoryId.value as int == n.value
  }

  /** An expense is shown under both filters; an empty filter is off. */
  predicate Shown(month: string, filter: string, e: Expense)
  {
    && (month == "" || e.month == month)
    && (filter == "" || PassesCategory(filter, e))
  }

  /** `applyFilters`: the month filter, then the category filter, each
      applied only when set. */
  function Filtered(all: seq<Expense>, month: string, filter: string): (r: seq<Expense>)
    ensures forall e :: e in r <==> e in all && Shown(month, filter, e)
    ensures month == "" && filter == "" ==> r == all
  {
    var byMonth := if month != "" then Select(all, (e: Expense) => e.month == month) else all;
    if filter != "" then Select(byMonth, (e: Expense) => PassesCategory(filter, e)) else byMonth
  }

  /** The shown list is the loaded list with the filtered-out expenses
      dropped and the rest in their order. */
  lemma FilteredSubsequence(all: seq<Expense>, month: string, filter: string)
    ensures Filtered(all, month, filter) == Select(all, (e: Expense) => Shown(month, filter, e))
    ensures IsSubsequence(Filtered(all, month, filter), all)
  {
    var inMonth := (e: Expense) => month == "" || e.month == month;
    var inCategory := (e: Expense) => filter == "" || PassesCategory(filter, e);
    var byMonth := if month != "" then Select(all, (e: Expense) => e.month == month) else all;
    if month != "" {
      SelectSameKeep(all, (e: Expense) => e.month == month, inMonth);
    } else {
      SelectAll(all, inMonth);
    }
    assert byMonth == Select(all, inMonth);
    if filter != "" {
      SelectSameKeep(byMonth, (e: Expense) => PassesCategory(filter, e), inCategory);
    } else {
      SelectAll(byMonth, inCategory);
    }
    assert Filtered(all, month, filter) == Select(Select(all, inMonth), inCategory);
    SelectTwice(all, inMonth, inCategory);
    SelectSameKeep(all, (e: Expense) => inMonth(e) && inCategory(e), (e: Expense) => Shown(month, filter, e));
    SelectSubsequence(all, (e: Expense) => Shown(month, filter, e));
  }

  // ------------------------------------------------------ the other rules

  predicate Categorized(e: Expense) { e.categoryId.Some? }

  predicate Uncategorized(e: Expense) { e.categoryId.None? }

  /** Every expense is counted on exactly one side. */
  lemma {:induction false} CountsPartition(s: seq<Expense>)
    ensures |Select(s, Categorized)| + |Select(s, Uncategorized)| == |s|
    decreases |s|
  {
    if s != [] {
      CountsPartition(s[..|s| - 1]);
    }
  }

  /** `filter(e => e.id !== id)`. */
  function RemoveId(s: seq<Expense>, id: nat): (r: seq<Expense>)
    ensures forall e :: e in r <==> e in s && e.id != id
    ensures IsSubsequence(r, s)
  {
    SelectSubsequence(s, (e: Expense) => e.id != id);
    Select(s, (e: Expense) => e.id != id)
  }

  /** `findIndex(e => e.id === id)`: the first position with that id, or
      -1. */
  function IndexOfId(s: seq<Expense>, id: nat): (r: int)
    ensures -1 <= r < |s|
    ensures r >= 0 ==> s[r].id == id && forall k :: 0 <= k < r ==> s[k].id != id
    ensures r == -1 <==> forall k :: 0 <= k < |s| ==> s[k].id != id
  {
    if s == [] then -1
    else if s[0].id == id then 0
    else
      var r := IndexOfId(s[1..], id);
      assert forall k :: 1 <= k < |s| ==> s[k] == s[1..][k - 1];
      if r < 0 then -1 else r + 1
  }

  /** `getBankName`: the display name of the three known banks; any other
      code is shown as it is. */
  function BankName(bank: string): (name: string)
    ensures bank == "isbank" ==> name == "\U{130}\U{15F} Bankas\U{131}"
    ensures bank == "garanti" ==> name == "Garanti"
    ensures bank == "ziraat" ==> name == "Ziraat"
    ensures bank != "isbank" && bank != "garanti" && bank != "ziraat" ==> name == bank
  {
    if bank == "isbank" then "\U{130}\U{15F} Bankas\U{131}"
    else if bank == "garanti" then "Garanti"
    else if bank == "ziraat" then "Ziraat"
    else bank
  }

  /** The array a list literal or a `filter` call creates. */
  method NewArray(s: seq<Expense>) returns (a: array<Expense>)
    ensures fresh(a) && a[..] == s
  {
    a := new Expense[|s|](i requires 0 <= i < |s| => s[i]);
  }

  // ------------------------------------------------------------ the page

  class ExpenseList {
    var expenses: array<Expense>
    var allExpenses: array<Expense>
    var categories: seq<Category>
    var selectedMonth: string
    var selectedCategoryFilter: string
    var availableMonths: seq<string>

    /** The page as it opens: two distinct empty lists, no filter. */
    constructor()
      ensures fresh(expenses) && fresh(allExpenses) && expenses != allExpenses
      ensures expenses[..] == [] && allExpenses[..] == []
      ensures categories == [] && availableMonths == []
      ensures selectedMonth == "" && selectedCategoryFilter == ""
    {
      expenses := new Expense[0];
      allExpenses := new Expense[0];
      categories := [];
      selectedMonth := "";
      selectedCategoryFilter := "";
      availableMonths := [];
    }

    /** `loadCategories`: a failed request leaves the list as it was. */
    method LoadCategories(response: Option<seq<Category>>)
      modifies this
      ensures response.Some? ==> categories == response.value
      ensures response.None? ==> categories == old(categories)
      ensures expenses == old(expenses) && allExpenses == old(allExpenses)
      ensures selectedMonth == old(selectedMonth) && selectedCategoryFilter == old(selectedCategoryFilter)
      ensures availableMonths == old(availableMonths)
    {
      if response.Some? {
        categories := response.value;
      }
    }

    /** `extractAvailableMonths`: the months of every loaded expense. */
    method ExtractAvailableMonths()
      modifies this
      ensures availableMonths == AvailableMonths(allExpenses[..])
      ensures expenses == old(expenses) && allExpenses == old(allExpenses)
      ensures categories == old(categories)
      ensures selectedMonth == old(selectedMonth) && selectedCategoryFilter == old(selectedCategoryFilter)
    {
      availableMonths := AvailableMonths(allExpenses[..]);
    }

    /** `loadExpenses`: both lists become the one loaded array, and the
        months are taken from it; a failed request changes nothing. */
    method LoadExpenses(response: Option<seq<Expense>>)
      modifies this
      ensures response.Some? ==>
        && fresh(expenses) && allExpenses == expenses && expenses[..] == response.value
        && availableMonths == AvailableMonths(response.value)
      ensures response.None? ==>
        expenses == old(expenses) && allExpenses == old(allExpenses) && availableMonths == old(availableMonths)
      ensures categories == old(categories)
      ensures selectedMonth == old(selectedMonth) && selectedCategoryFilter == old(selectedCategoryFilter)
    {
      if response.Some? {
        var loaded := NewArray(response.value);
        allExpenses := loaded;
        expenses := loaded;
        ExtractAvailableMonths();
      }
    }

    /** `applyFilters`: the shown list becomes a fresh array holding the
        loaded expenses that pass both filters. */
    method ApplyFilters()
      modifies this
      ensures fresh(expenses) && expenses[..] == Filtered(allExpenses[..], selectedMonth, selectedCategoryFilter)
      ensures allExpenses == old(allExpenses) && allExpenses[..] == old(allExpenses[..])
      ensures categories == old(categories) && availableMonths == old(availableMonths)
      ensures selectedMonth == old(selectedMonth) && selectedCategoryFilter == old(selectedCategoryFilter)
    {
      var filtered := Filtered(allExpenses[..], selectedMonth, selectedCategoryFilter);
      expenses := NewArray(filtered);
    }

    /** `onMonthChange` after the selector wrote `month`. */
    method OnMonthChange(month: string)
      modifies this
      ensures selectedMonth == month && selectedCategoryFilter == old(selectedCategoryFilter)
      ensures fresh(expenses) && expenses[..] == Filtered(allExpenses[..], month, selectedCategoryFilter)
      ensures allExpenses == old(allExpenses) && allExpenses[..] == old(allExpenses[..])
      ensures categories == old(categories) && availableMonths == old(availableMonths)
    {
      selectedMonth := month;
      ApplyFilters();
    }

    /** `onCategoryFilterChange` after the selector wrote `filter`. */
    method OnCategoryFilterChange(filter: string)
      modifies this
      ensures selectedCategoryFilter == filter && selectedMonth == old(selectedMonth)
      ensures fresh(expenses) && expenses[..] == Filtered(allExpenses[..], selectedMonth, filter)
      ensures allExpenses == old(allExpenses) && allExpenses[..] == old(allExpenses[..])
      ensures categories == old(categories) && availableMonths == old(availableMonths)
    {
      selectedCategoryFilter := filter;
      ApplyFilters();
    }

    /** `updateCategory`: once the server answers with the updated
        expense, it replaces the first shown expense with that id, in
        place; nothing else changes. The loaded list sees the write only
        when it is the same array. A failed request changes nothing. */
    method UpdateCategory(id: nat, response: Option<Expense>)
      modifies expenses
      ensures var i := IndexOfId(old(expenses[..]), id);
        expenses[..] == if response.Some? && i >= 0 then old(expenses[..])[i := response.value] else old(expenses[..])
      ensures allExpenses != expenses ==> allExpenses[..] == old(allExpenses[..])
    {
      if response.Some? {
        var i := IndexOfId(expenses[..], id);
        if i != -1 {
          expenses[i] := response.value;
        }
      }
    }

    /** `deleteExpense` as written: once confirmed and accepted by the
        server, the expense leaves the shown list, but the loaded list
        keeps it and the months are recomputed from the loaded list. */
    method DeleteExpense(id: nat, confirmed: bool, succeeded: bool)
      modifies this
      ensures allExpenses == old(allExpenses) && allExpenses[..] == old(allExpenses[..])
      ensures confirmed && succeeded ==>
        && fresh(expenses) && expenses[..] == RemoveId(old(expenses[..]), id)
        && availableMonths == AvailableMonths(allExpenses[..])
      ensures !(confirmed && succeeded) ==>
        expenses == old(expenses) && availableMonths == old(availableMonths)
      ensures categories == old(categories)
      ensures selectedMonth == old(selectedMonth) && selectedCategoryFilter == old(selectedCategoryFilter)
    {
      if confirmed && succeeded {
        var rest := NewArray(RemoveId(expenses[..], id));
        expenses := rest;
        ExtractAvailableMonths();
      }
    }

    /** The delete the page evidently intends: the expense leaves both
        lists, and the months are recomputed without it. */
    method DeleteExpenseEverywhere(id: nat, confirmed: bool, succeeded: bool)
      modifies this
      ensures confirmed && succeeded ==>
        && fresh(expenses) && fresh(allExpenses)
        && expenses[..] == RemoveId(old(expenses[..]), id)
        && allExpenses[..] == RemoveId(old(allExpenses[..]), id)
        && availableMonths == AvailableMonths(allExpenses[..])
      ensures !(confirmed && succeeded) ==>
        && expenses == old(expenses) && allExpenses == old(allExpenses)
        && availableMonths == old(availableMonths)
      ensures categories == old(categories)
      ensures selectedMonth == old(selectedMonth) && selectedCategoryFilter == old(selectedCategoryFilter)
    {
      if confirmed && succeeded {
        var kept := NewArray(RemoveId(allExpenses[..], id));
        var rest := NewArray(RemoveId(expenses[..], id));
        allExpenses := kept;
        expenses := rest;
        ExtractAvailableMonths();
      }
    }

    /** `getCategorizedCount`. */
    function CategorizedCount(): (n: nat)
      reads this, expenses
      ensures n <= expenses.Length
    {
      |Select(expenses[..], Categorized)|
    }

    /** `getUncategorizedCount`: the shown expenses the categorized count
        leaves out. */
    function UncategorizedCount(): (n: nat)
      reads this, expenses
      ensures n + CategorizedCount() == expenses.Length
    {
      CountsPartition(expenses[..]);
      |Select(expenses[..], Uncategorized)|
    }
  }

  // ------------------------------------------------------- about deletion

  /** As written, a deleted expense comes back: the shown list loses it,
      but the loaded list keeps it, so the next filter change shows it
      again whenever it passes the filters, and its month stays offered. */
  lemma DeletedExpenseReturns(all: seq<Expense>, shown: seq<Expense>, e: Expense, month: string, filter: string)
    requires e in all && Shown(month, filter, e)
    ensures e !in RemoveId(shown, e.id)
    ensures e in Filtered(all, month, filter)
    ensures e.month in AvailableMonths(all)
  {
    var i :| 0 <= i < |all| && all[i] == e;
  }

  /** With the delete applied to the loaded list too, no filter brings the
      expense back, and only months of the remaining expenses are
      offered. */
  lemma DeletedStaysGone(all: seq<Expense>, id: nat, month: string, filter: string)
    ensures forall e :: e in Filtered(RemoveId(all, id), month, filter) ==> e.id != id
    ensures forall m :: m in AvailableMonths(RemoveId(all, id)) ==>
      exists e :: e in all && e.id != id && e.month == m
  {
    var rest := RemoveId(all, id);
    forall m | m in AvailableMonths(rest)
      ensures exists e :: e in all && e.id != id && e.month == m
    {
      var i :| 0 <= i < |rest| && rest[i].month == m;
      assert rest[i] in rest;
    }
  }
}
