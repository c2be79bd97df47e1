/** Ordering entries by a numeric key, largest first, the way
    `Array.prototype.sort` does with the comparator `(a, b) => key(b) - key(a)`:
    the sort is stable, so entries with equal keys keep their order. */
module Ranking {

  /** Every entry's key is at least the key of every entry after it. */
  predicate Descending<T>(s: seq<T>, key: T -> real)
  {
    forall i, j :: 0 <= i < j < |s| ==> key(s[j]) <= key(s[i])
  }

  /** Insert `x` in front of the first entry whose key is not larger than
      its own: `x` comes from earlier in the input, so it goes before the
      entries it ties with. */
  function InsertBy<T>(x: T, s: seq<T>, key: T -> real): (r: seq<T>)
    ensures |r| == |s| + 1
    ensures multiset(r) == multiset(s) + multiset{x}
  {
    if s == [] || key(s[0]) <= key(x) then [x] + s
    else
      assert s == [s[0]] + s[1..];
      [s[0]] + InsertBy(x, s[1..], key)
  }

  /** The stable sort by `key`, largest first. */
  function SortBy<T>(s: seq<T>, key: T -> real): (r: seq<T>)
    ensures |r| == |s|
    ensures multiset(r) == multiset(s)
  {
    if s == [] then []
    else
      assert s == [s[0]] + s[1..];
      InsertBy(s[0], SortBy(s[1..], key), key)
  }

  /** The position of the first entry with the largest key. */
  function FirstMax<T>(s: seq<T>, key: T -> real): (r: nat)
    requires s != []
    ensures r < |s|
    ensures forall k :: 0 <= k < |s| ==> key(s[k]) <= key(s[r])
    ensures forall k :: 0 <= k < r ==> key(s[k]) < key(s[r])
  {
    if |s| == 1 then 0
    else
      var j := 1 + FirstMax(s[1..], key);
      assert forall k :: 1 <= k < |s| ==> s[k] == s[1..][k - 1];
      if key(s[j]) <= key(s[0]) then 0 else j
  }

  lemma {:induction false} InsertByDescending<T>(x: T, s: seq<T>, key: T -> real)
    requires Descending(s, key)
    ensures Descending(InsertBy(x, s, key), key)
    ensures InsertBy(x, s, key)[0] == x || InsertBy(x, s, key)[0] == s[0]
    decreases |s|
  {
    if s != [] && key(x) < key(s[0]) {
      var rest := InsertBy(x, s[1..], key);
      InsertByDescending(x, s[1..], key);
      assert key(rest[0]) <= key(s[0]);
      var r := [s[0]] + rest;
      forall i, j | 0 <= i < j < |r|
        ensures key(r[j]) <= key(r[i])
      {
        if i == 0 {
          assert r[j] == rest[j - 1];
          assert key(rest[j - 1]) <= key(rest[0]);
        } else {
          assert r[i] == rest[i - 1] && r[j] == rest[j - 1];
        }
      }
    }
  }

  /** The sort orders by key, largest first. */
  lemma {:induction false} SortByDescending<T>(s: seq<T>, key: T -> real)
    ensures Descending(SortBy(s, key), key)
    decreases |s|
  {
    if s != [] {
      SortByDescending(s[1..], key);
      InsertByDescending(s[0], SortBy(s[1..], key), key);
    }
  }

  /** The sort puts first the earliest entry with the largest key (ties keep
      the input order). */
  lemma {:induction false} SortByHead<T>(s: seq<T>, key: T -> real)
    requires s != []
    ensures SortBy(s, key) != [] && SortBy(s, key)[0] == s[FirstMax(s, key)]
    decreases |s|
  {
    var r := SortBy(s[1..], key);
    if |s| > 1 {
      SortByHead(s[1..], key);
      assert forall k :: 1 <= k < |s| ==> s[k] == s[1..][k - 1];
      assert r[0] == s[1 + FirstMax(s[1..], key)];
    }
  }

  /** The first `n` entries, or all of them when there are fewer. */
  function Take<T>(s: seq<T>, n: nat): (r: seq<T>)
    ensures |r| == if |s| < n then |s| else n
    ensures r == s[..|r|]
  {
    if |s| <= n then s else s[..n]
  }

  /** In a descending sequence, an entry left out of the first `n` is no
      larger than any entry kept. */
  lemma TakeLargest<T>(s: seq<T>, key: T -> real, n: nat, g: T, h: T)
    requires Descending(s, key) && g in Take(s, n) && h in s && h !in Take(s, n)
    ensures key(h) <= key(g)
  {
    var top := Take(s, n);
    var i :| 0 <= i < |top| && top[i] == g;
    var j :| 0 <= j < |s| && s[j] == h;
    assert j >= |top|;
  }

  /** Sorting keeps the entries: each entry of the result occurs in the
      input and the other way round. */
  lemma SortByMembers<T>(s: seq<T>, key: T -> real, x: T)
    ensures x in SortBy(s, key) <==> x in s
  {
    assert x in SortBy(s, key) <==> x in multiset(SortBy(s, key));
    assert x in s <==> x in multiset(s);
  }
}
