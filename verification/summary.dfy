/** The monthly summary: the month's expenses grouped by the name of their
    category, each group holding the signed sum of the amounts, the number
    of expenses and the color of the category. The summary object is kept as
    a list of groups in the order their keys were first created; a category
    named after a property the object inherits gets no group. */
module Summary {
  import opened Common
  import opened Ledger

  /** An expense of the month with its category joined in. */
  datatype Joined = Joined(amount: real, category: Option<Category>)

  /** One key of the summary object and its value. */
  datatype Group = Group(key: string, total: real, count: nat, color: Option<string>)

  /** The key of expenses without a category. */
  const Uncategorised := "Kategorisiz"

  /** `expense.category?.name || 'Kategorisiz'`: an empty name is falsy and
      falls back to the sentinel as well. */
  function LabelOf(j: Joined): string
  {
    if j.category.Some? && j.category.value.name != "" then j.category.value.name else Uncategorised
  }

  /** `expense.category?.color`. */
  function ColorOf(j: Joined): Option<string>
  {
    if j.category.Some? then j.category.value.color else None
  }

  /** The position of the group with that key, or -1. */
  function GroupIndex(groups: seq<Group>, key: string): (r: int)
    ensures -1 <= r < |groups|
    ensures r >= 0 ==> groups[r].key == key
    ensures r == -1 <==> forall a :: 0 <= a < |groups| ==> groups[a].key != key
  {
    if groups == [] then -1
    else
      var r := GroupIndex(groups[..|groups| - 1], key);
      if r >= 0 then r
      else if groups[|groups| - 1].key == key then |groups| - 1
      else -1
  }

  /** The property names an object literal `{}` inherits from
      Object.prototype. Each of them reads as a function or an object, so
      `acc[key]` is truthy for them before any group is created. */
  predicate InheritedKey(key: string)
  {
    key in {"constructor", "__defineGetter__", "__defineSetter__", "hasOwnProperty",
            "__lookupGetter__", "__lookupSetter__", "isPrototypeOf", "propertyIsEnumerable",
            "toString", "valueOf", "__proto__", "toLocaleString"}
  }

  /** The expense lands in a group of the response: its label is not an
      inherited property name. */
  predicate Reported(j: Joined)
  {
    !InheritedKey(LabelOf(j))
  }

  /** One turn of the reduce. `acc[key]` finds an own group first; failing
      that, an inherited key still reads as truthy, so no group is created
      and the additions go to the inherited property, which the response
      (own keys only) never shows. Otherwise the group is created with this
      expense's color, then the amount is added and the count raised. */
  function AddToSummary(groups: seq<Group>, j: Joined): seq<Group>
  {
    var key := LabelOf(j);
    var i := GroupIndex(groups, key);
    if i >= 0 then groups[i := groups[i].(total := groups[i].total + j.amount, count := groups[i].count + 1)]
    else if InheritedKey(key) then groups
    else groups + [Group(key, j.amount, 1, ColorOf(j))]
  }

  /** The reduce over the month's expenses. */
  function Summarize(js: seq<Joined>): seq<Group>
  {
    if js == [] then [] else AddToSummary(Summarize(js[..|js| - 1]), js[|js| - 1])
  }

  // ------------------------------------------------ reference definitions

  /** The number of expenses carrying `key`. */
  function CountLabel(js: seq<Joined>, key: string): nat
  {
    if js == [] then 0
    else CountLabel(js[..|js| - 1], key) + (if LabelOf(js[|js| - 1]) == key then 1 else 0)
  }

  /** The signed sum of the amounts of the expenses carrying `key`. */
  function SumLabel(js: seq<Joined>, key: string): real
  {
    if js == [] then 0.0
    else SumLabel(js[..|js| - 1], key) + (if LabelOf(js[|js| - 1]) == key then js[|js| - 1].amount else 0.0)
  }

  /** The number of expenses that land in a group of the response. */
  function CountReported(js: seq<Joined>): (n: nat)
    ensures n <= |js|
  {
    if js == [] then 0
    else CountReported(js[..|js| - 1]) + (if Reported(js[|js| - 1]) then 1 else 0)
  }

  /** The signed sum of the amounts of those expenses. */
  function SumReported(js: seq<Joined>): real
  {
    if js == [] then 0.0
    else SumReported(js[..|js| - 1]) + (if Reported(js[|js| - 1]) then js[|js| - 1].amount else 0.0)
  }

  function SumAmounts(js: seq<Joined>): real
  {
    if js == [] then 0.0 else SumAmounts(js[..|js| - 1]) + js[|js| - 1].amount
  }

  function SumCounts(groups: seq<Group>): nat
  {
    if groups == [] then 0 else SumCounts(groups[..|groups| - 1]) + groups[|groups| - 1].count
  }

  function SumTotals(groups: seq<Group>): real
  {
    if groups == [] then 0.0 else SumTotals(groups[..|groups| - 1]) + groups[|groups| - 1].total
  }

  /** Expense `i` is the first carrying `key`. */
  predicate FirstWith(js: seq<Joined>, key: string, i: int)
  {
    0 <= i < |js| && LabelOf(js[i]) == key && forall k :: 0 <= k < i ==> LabelOf(js[k]) != key
  }

  /** Group `g` holds the count and the sum of the expenses carrying its
      key, and the color of the first of them. */
  ghost predicate GroupFits(g: Group, js: seq<Joined>)
  {
    && g.count == CountLabel(js, g.key)
    && g.total == SumLabel(js, g.key)
    && exists i :: FirstWith(js, g.key, i) && g.color == ColorOf(js[i])
  }

  /** No two groups share a key. */
  predicate DistinctKeys(groups: seq<Group>)
  {
    forall a, b :: 0 <= a < b < |groups| ==> groups[a].key != groups[b].key
  }

  /** No group is keyed by an inherited property name. */
  predicate OwnKeys(groups: seq<Group>)
  {
    forall a :: 0 <= a < |groups| ==> !InheritedKey(groups[a].key)
  }

  /** Every reported expense's key has a group. */
  predicate Covers(groups: seq<Group>, js: seq<Joined>)
  {
    forall k :: 0 <= k < |js| && Reported(js[k]) ==> GroupIndex(groups, LabelOf(js[k])) >= 0
  }

  /** Every group fits the expenses carrying its key. */
  ghost predicate AllFit(groups: seq<Group>, js: seq<Joined>)
  {
    forall a :: 0 <= a < |groups| ==> GroupFits(groups[a], js)
  }

  /** The groups are exactly the summary the month's expenses call for: one
      group per key that occurs and is not inherited, none other, each
      fitting its expenses. */
  ghost predicate Describes(groups: seq<Group>, js: seq<Joined>)
  {
    DistinctKeys(groups) && OwnKeys(groups) && Covers(groups, js) && AllFit(groups, js)
  }

  // ============================================================== lemmas

  // Each step lemma looks at the reduce's last turn: `js` is the month so
  // far, its last expense the one being added.

  lemma FitsOther(g: Group, js: seq<Joined>)
    requires js != [] && GroupFits(g, js[..|js| - 1]) && g.key != LabelOf(js[|js| - 1])
    ensures GroupFits(g, js)
  {
    var init := js[..|js| - 1];
    var f :| FirstWith(init, g.key, f) && g.color == ColorOf(init[f]);
    assert js[f] == init[f];
    assert forall k :: 0 <= k < f ==> js[k] == init[k];
    assert FirstWith(js, g.key, f);
  }

  lemma FitsUpdated(g: Group, js: seq<Joined>)
    requires js != [] && GroupFits(g, js[..|js| - 1]) && g.key == LabelOf(js[|js| - 1])
    ensures GroupFits(g.(total := g.total + js[|js| - 1].amount, count := g.count + 1), js)
  {
    var init := js[..|js| - 1];
    var f :| FirstWith(init, g.key, f) && g.color == ColorOf(init[f]);
    assert js[f] == init[f];
    assert forall k :: 0 <= k < f ==> js[k] == init[k];
    assert FirstWith(js, g.key, f);
  }

  lemma FitsNew(js: seq<Joined>)
    requires js != []
    requires forall k :: 0 <= k < |js| - 1 ==> LabelOf(js[k]) != LabelOf(js[|js| - 1])
    ensures var j := js[|js| - 1]; GroupFits(Group(LabelOf(j), j.amount, 1, ColorOf(j)), js)
  {
    var init := js[..|js| - 1];
    var j := js[|js| - 1];
    NoLabelNoCount(init, LabelOf(j));
    assert FirstWith(js, LabelOf(j), |js| - 1);
  }

  /** A new key: every earlier group is untouched and the new one fits. */
  lemma StepFitsNew(groups: seq<Group>, js: seq<Joined>)
    requires js != [] && Covers(groups, js[..|js| - 1]) && AllFit(groups, js[..|js| - 1])
    requires GroupIndex(groups, LabelOf(js[|js| - 1])) < 0 && Reported(js[|js| - 1])
    ensures AllFit(AddToSummary(groups, js[|js| - 1]), js)
  {
    var init := js[..|js| - 1];
    var j := js[|js| - 1];
    var key := LabelOf(j);
    var g' := groups + [Group(key, j.amount, 1, ColorOf(j))];
    assert AddToSummary(groups, j) == g';
    forall a | 0 <= a < |groups| ensures GroupFits(g'[a], js) {
      FitsOther(groups[a], js);
    }
    forall k | 0 <= k < |js| - 1 ensures LabelOf(js[k]) != key {
      assert js[k] == init[k];
      assert Reported(init[k]) ==> GroupIndex(groups, LabelOf(init[k])) >= 0;
    }
    FitsNew(js);
  }

  /** An inherited key without an own group: the groups stay as they were,
      and each still fits, since none carries that key. */
  lemma StepFitsInherited(groups: seq<Group>, js: seq<Joined>)
    requires js != [] && OwnKeys(groups) && AllFit(groups, js[..|js| - 1])
    requires GroupIndex(groups, LabelOf(js[|js| - 1])) < 0 && !Reported(js[|js| - 1])
    ensures AddToSummary(groups, js[|js| - 1]) == groups
    ensures AllFit(groups, js)
  {
    forall a | 0 <= a < |groups| ensures GroupFits(groups[a], js) {
      FitsOther(groups[a], js);
    }
  }

  /** The group of key `i` updated with the last expense. */
  function Bumped(groups: seq<Group>, i: nat, j: Joined): (g': seq<Group>)
    requires i < |groups|
    ensures |g'| == |groups| && g'[i].key == groups[i].key
  {
    groups[i := groups[i].(total := groups[i].total + j.amount, count := groups[i].count + 1)]
  }

  lemma BumpedFits(groups: seq<Group>, js: seq<Joined>, i: nat)
    requires js != [] && i < |groups|
    requires DistinctKeys(groups) && AllFit(groups, js[..|js| - 1])
    requires groups[i].key == LabelOf(js[|js| - 1])
    ensures AllFit(Bumped(groups, i, js[|js| - 1]), js)
  {
    var g' := Bumped(groups, i, js[|js| - 1]);
    forall a | 0 <= a < |groups| ensures GroupFits(g'[a], js) {
      if a == i {
        FitsUpdated(groups[i], js);
      } else {
        assert g'[a] == groups[a];
        assert groups[a].key != groups[i].key by {
          if a < i { assert groups[a].key != groups[i].key; } else { assert groups[i].key != groups[a].key; }
        }
        FitsOther(groups[a], js);
      }
    }
  }

  /** A known key: its group is updated and fits; the others are untouched. */
  lemma StepFitsUpdate(groups: seq<Group>, js: seq<Joined>)
    requires js != [] && DistinctKeys(groups) && AllFit(groups, js[..|js| - 1])
    requires GroupIndex(groups, LabelOf(js[|js| - 1])) >= 0
    ensures AllFit(AddToSummary(groups, js[|js| - 1]), js)
  {
    var j := js[|js| - 1];
    var i := GroupIndex(groups, LabelOf(j));
    assert AddToSummary(groups, j) == Bumped(groups, i, j);
    BumpedFits(groups, js, i);
  }

  /** A turn only appends a key that is neither inherited nor present. */
  lemma StepOwnKeys(groups: seq<Group>, j: Joined)
    requires DistinctKeys(groups) && OwnKeys(groups)
    ensures DistinctKeys(AddToSummary(groups, j)) && OwnKeys(AddToSummary(groups, j))
  {
    var g' := AddToSummary(groups, j);
    assert forall a :: 0 <= a < |groups| ==> g'[a].key == groups[a].key;
  }

  lemma StepCovers(groups: seq<Group>, js: seq<Joined>)
    requires js != [] && Covers(groups, js[..|js| - 1])
    ensures Covers(AddToSummary(groups, js[|js| - 1]), js)
  {
    var init := js[..|js| - 1];
    var j := js[|js| - 1];
    var key := LabelOf(j);
    var i := GroupIndex(groups, key);
    var g' := AddToSummary(groups, j);
    assert forall a :: 0 <= a < |groups| ==> g'[a].key == groups[a].key;
    forall k | 0 <= k < |js| && Reported(js[k]) ensures GroupIndex(g', LabelOf(js[k])) >= 0 {
      if k < |js| - 1 {
        assert js[k] == init[k];
        var p := GroupIndex(groups, LabelOf(init[k]));
        assert g'[p].key == LabelOf(js[k]);
      } else if i < 0 {
        assert g'[|groups|].key == key;
      } else {
        assert g'[i].key == key;
      }
    }
  }

  /** The reduce's last turn keeps the description. */
  lemma SummaryStep(groups: seq<Group>, js: seq<Joined>)
    requires js != [] && Describes(groups, js[..|js| - 1])
    ensures Describes(AddToSummary(groups, js[|js| - 1]), js)
  {
    StepOwnKeys(groups, js[|js| - 1]);
    StepCovers(groups, js);
    if GroupIndex(groups, LabelOf(js[|js| - 1])) >= 0 {
      StepFitsUpdate(groups, js);
    } else if Reported(js[|js| - 1]) {
      StepFitsNew(groups, js);
    } else {
      StepFitsInherited(groups, js);
    }
  }

  lemma {:induction false} NoLabelNoCount(js: seq<Joined>, key: string)
    requires forall k :: 0 <= k < |js| ==> LabelOf(js[k]) != key
    ensures CountLabel(js, key) == 0 && SumLabel(js, key) == 0.0
    decreases |js|
  {
    if js != [] {
      NoLabelNoCount(js[..|js| - 1], key);
    }
  }

  /** The reduce computes the summary the reference definitions describe. */
  lemma {:induction false} SummarizeDescribes(js: seq<Joined>)
    ensures Describes(Summarize(js), js)
    decreases |js|
  {
    if js != [] {
      SummarizeDescribes(js[..|js| - 1]);
      SummaryStep(Summarize(js[..|js| - 1]), js);
    }
  }

  lemma {:induction false} SumsAfterUpdate(groups: seq<Group>, i: nat, j: Joined)
    requires i < |groups|
    ensures SumCounts(Bumped(groups, i, j)) == SumCounts(groups) + 1
    ensures SumTotals(Bumped(groups, i, j)) == SumTotals(groups) + j.amount
    decreases |groups|
  {
    var g' := Bumped(groups, i, j);
    var n := |groups| - 1;
    if i < n {
      assert g'[..n] == Bumped(groups[..n], i, j);
      assert g'[n] == groups[n];
      SumsAfterUpdate(groups[..n], i, j);
    } else {
      assert g'[..n] == groups[..n];
    }
  }

  lemma SumsAfterAppend(groups: seq<Group>, g: Group)
    ensures SumCounts(groups + [g]) == SumCounts(groups) + g.count
    ensures SumTotals(groups + [g]) == SumTotals(groups) + g.total
  {
    assert (groups + [g])[..|groups|] == groups;
  }

  /** The reduce never creates a group under an inherited key. */
  lemma {:induction false} SummarizeOwnKeys(js: seq<Joined>)
    ensures OwnKeys(Summarize(js))
    decreases |js|
  {
    if js != [] {
      var groups := Summarize(js[..|js| - 1]);
      SummarizeOwnKeys(js[..|js| - 1]);
      var g' := AddToSummary(groups, js[|js| - 1]);
      assert forall a :: 0 <= a < |groups| ==> g'[a].key == groups[a].key;
    }
  }

  /** The counts add up to the number of the month's reported expenses and
      the totals to the sum of their amounts. */
  lemma {:induction false} SummaryTotals(js: seq<Joined>)
    ensures SumCounts(Summarize(js)) == CountReported(js)
    ensures SumTotals(Summarize(js)) == SumReported(js)
    decreases |js|
  {
    if js != [] {
      var init := js[..|js| - 1];
      SummaryTotals(init);
      SummarizeOwnKeys(init);
      SumsAfterStep(Summarize(init), js[|js| - 1]);
    }
  }

  /** One turn of the reduce adds one to the counts and the amount to the
      totals, unless the expense's key is inherited, in which case the own
      groups do not change. */
  lemma SumsAfterStep(groups: seq<Group>, j: Joined)
    requires OwnKeys(groups)
    ensures SumCounts(AddToSummary(groups, j)) == SumCounts(groups) + (if Reported(j) then 1 else 0)
    ensures SumTotals(AddToSummary(groups, j)) == SumTotals(groups) + (if Reported(j) then j.amount else 0.0)
  {
    var i := GroupIndex(groups, LabelOf(j));
    if i >= 0 {
      assert AddToSummary(groups, j) == Bumped(groups, i, j);
      SumsAfterUpdate(groups, i, j);
    } else if Reported(j) {
      SumsAfterAppend(groups, Group(LabelOf(j), j.amount, 1, ColorOf(j)));
    }
  }

  /** When no expense's key is inherited, every expense is reported: the
      counts add up to the number of expenses and the totals to the sum of
      all their amounts. */
  lemma {:induction false} AllReported(js: seq<Joined>)
    requires forall k :: 0 <= k < |js| ==> Reported(js[k])
    ensures CountReported(js) == |js| && SumReported(js) == SumAmounts(js)
    decreases |js|
  {
    if js != [] {
      var init := js[..|js| - 1];
      assert forall k :: 0 <= k < |init| ==> init[k] == js[k];
      AllReported(init);
    }
  }

  /** The number of expenses without a category. */
  function CountNoCategory(js: seq<Joined>): nat
  {
    if js == [] then 0
    else CountNoCategory(js[..|js| - 1]) + (if js[|js| - 1].category.None? then 1 else 0)
  }

  /** Expenses without a category, and those whose category name is empty,
      are counted in the `Kategorisiz` group (together with a category that
      is itself named `Kategorisiz`): the group exists as soon as one such
      expense does, and its count is at least their number. */
  lemma UncategorisedGroup(js: seq<Joined>)
    requires CountNoCategory(js) > 0
    ensures var groups := Summarize(js);
      var u := GroupIndex(groups, Uncategorised);
      u >= 0 && groups[u].count >= CountNoCategory(js)
  {
    SummarizeDescribes(js);
    SomeNoCategoryExists(js);
    var k :| 0 <= k < |js| && js[k].category.None?;
    assert LabelOf(js[k]) == Uncategorised;
    CountCoversUncategorised(js);
  }

  lemma {:induction false} SomeNoCategoryExists(js: seq<Joined>)
    requires CountNoCategory(js) > 0
    ensures exists k :: 0 <= k < |js| && js[k].category.None?
    decreases |js|
  {
    var n := |js| - 1;
    if !js[n].category.None? {
      SomeNoCategoryExists(js[..n]);
      var k :| 0 <= k < n && js[..n][k].category.None?;
      assert js[k] == js[..n][k];
    }
  }

  lemma {:induction false} CountCoversUncategorised(js: seq<Joined>)
    ensures CountLabel(js, Uncategorised) >= CountNoCategory(js)
    decreases |js|
  {
    if js != [] {
      CountCoversUncategorised(js[..|js| - 1]);
    }
  }
}
