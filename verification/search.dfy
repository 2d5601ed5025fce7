/**
 The in-memory substring index of the searcher service. The state is a
 two-level map, outer key -> id -> lower-cased value; every operation is a
 pure function from one state to the next (the read/write lock of the Go
 type only serialises them, so each is modelled as one atomic step).
 */
module Searcher {
  import opened Text
  import opened StringOrder

  /** The index contents: outer key -> id -> stored (lower-cased) value. */
  type Items = map<string, map<string, string>>

  datatype Option<T> = None | Some(value: T)

  /** The value stored under `key`/`id`, if any. */
  function Lookup(items: Items, key: string, id: string): Option<string> {
    if key in items && id in items[key] then Some(items[key][id]) else None
  }

  /** An outer key is present only while its inner map has an entry. */
  predicate NoEmptyInner(items: Items) {
    forall key :: key in items ==> |items[key]| > 0
  }

  /** Values are normalised when written, so every stored value is lower-case. */
  predicate AllLower(items: Items) {
    forall key, id :: key in items && id in items[key] ==> IsLower(items[key][id])
  }

  /** The representation invariant of the index. */
  predicate Valid(items: Items)
    ensures Valid(items) ==> forall key :: key in items ==> exists id :: id in items[key]
    ensures Valid(items) ==> forall key, id :: Lookup(items, key, id).Some? ==> IsLower(Lookup(items, key, id).value)
  {
    NoEmptyInner(items) && AllLower(items)
  }

  /** A fresh index holds nothing. */
  function NewSearch(): (items: Items)
    ensures Valid(items)
    ensures forall key, id :: Lookup(items, key, id) == None
  {
    map[]
  }

  /** Stores the lower-cased `value` under `key`/`id`, creating the inner map
      for `key` when there is none. */
  function Set(items: Items, key: string, id: string, value: string): (r: Items)
    ensures Lookup(r, key, id) == Some(ToLower(value))
    ensures forall k, i :: (k != key || i != id) ==> Lookup(r, k, i) == Lookup(items, k, i)
    ensures r.Keys == items.Keys + {key}
    ensures forall k :: k in items && k != key ==> r[k] == items[k]
  {
    var inner := if key in items then items[key] else map[];
    items[key := inner[id := ToLower(value)]]
  }

  /** Removes `id` from under `key`, and `key` itself once its inner map is
      empty. Nothing happens when `key` is absent. */
  function Del(items: Items, key: string, id: string): (r: Items)
    ensures key !in items ==> r == items
    ensures Lookup(r, key, id) == None
    ensures key in r ==> r[key] == items[key] - {id}
    ensures forall k :: k in items && k != key ==> k in r && r[k] == items[k]
    ensures r.Keys <= items.Keys
    ensures key in items && items[key].Keys <= {id} ==> key !in r
    ensures key in r ==> |r[key]| > 0
  {
    if key !in items then items
    else
      var inner := items[key] - {id};
      EmptyAfterRemove(items[key], id);
      if |inner| == 0 then items - {key} else items[key := inner]
  }

  /** Removing `id` empties an inner map exactly when `id` was its only key. */
  lemma EmptyAfterRemove(m: map<string, string>, id: string)
    ensures |m - {id}| == 0 <==> m.Keys <= {id}
  {
  }

  /** `Del` removes exactly the pair `key`/`id`: every other lookup is unchanged. */
  lemma DelLookup(items: Items, key: string, id: string, k: string, i: string)
    requires k != key || i != id
    ensures Lookup(Del(items, key, id), k, i) == Lookup(items, k, i)
  {
  }

  /** `Set` keeps the representation invariant. */
  lemma SetPreservesValid(items: Items, key: string, id: string, value: string)
    requires Valid(items)
    ensures Valid(Set(items, key, id, value))
  {
    var r := Set(items, key, id, value);
    assert id in r[key].Keys;
    forall k, i | k in r && i in r[k]
      ensures IsLower(r[k][i])
    {
      if k != key || i != id {
        assert Lookup(r, k, i) == Lookup(items, k, i);
      }
    }
  }

  /** `Del` keeps the representation invariant. */
  lemma DelPreservesValid(items: Items, key: string, id: string)
    requires Valid(items)
    ensures Valid(Del(items, key, id))
  {
  }

  /** Discards every entry. The previous contents play no part in the result. */
  function Flush(items: Items): (r: Items)
    ensures Valid(r)
    ensures forall key :: key !in r
  {
    map[]
  }

  /** `order` lists each id of `inner` exactly once: this is all that is
      known about the order in which Go's `range` visits a map. */
  predicate Enumerates(order: seq<string>, inner: map<string, string>) {
    && Distinct(order)
    && (forall id :: id in order ==> id in inner)
    && (forall id :: id in inner ==> id in order)
  }

  /** The ids under `inner` whose value contains `query`. */
  function Matches(inner: map<string, string>, query: string): (r: set<string>)
    ensures r <= inner.Keys
    ensures |query| == 0 ==> r == inner.Keys
  {
    set id | id in inner && Contains(inner[id], query)
  }

  /** The ids under `key` whose value contains `query`; none when the key is absent. */
  function MatchSet(items: Items, key: string, query: string): (r: set<string>)
    ensures key in items ==> r <= items[key].Keys
    ensures key !in items ==> r == {}
  {
    if key in items then Matches(items[key], query) else {}
  }

  /** The scan loop of `Search`: visits the ids of `inner` in `order` and
      keeps, in visiting order, those whose value contains `query`. */
  function Scan(inner: map<string, string>, query: string, order: seq<string>): (found: seq<string>)
    requires forall id :: id in order ==> id in inner
    ensures forall id :: id in found <==> id in order && Contains(inner[id], query)
    ensures Distinct(order) ==> Distinct(found)
  {
    if order == [] then []
    else
      var rest := Scan(inner, query, order[1..]);
      assert Distinct(order) ==> Distinct(order[1..]) && order[0] !in order[1..];
      if Contains(inner[order[0]], query) then [order[0]] + rest else rest
  }

  /** The matching ids after `sort.Strings`: whatever order the map was
      scanned in, the result is the strictly ascending enumeration of the
      set of matching ids. */
  function SortedMatches(inner: map<string, string>, query: string, order: seq<string>): (r: seq<string>)
    requires Enumerates(order, inner)
    ensures StrictlySorted(r)
    ensures Elements(r) == Matches(inner, query)
    ensures |r| == |Matches(inner, query)|
  {
    var found := Scan(inner, query, order);
    var sorted := Sort(found);
    assert Elements(sorted) == Elements(found) == Matches(inner, query) by {
      assert forall x :: x in sorted <==> x in multiset(sorted);
      assert forall x :: x in found <==> x in multiset(found);
    }
    DistinctCard(found);
    sorted
  }

  /** The record `Search` returns (the elapsed-time field is left out). */
  datatype SearchResult = SearchResult(key: string, found: seq<string>, count: int, start: int, stop: int)

  /** `Search` either returns a result or stops with Go's run-time panic
      for a slice expression whose low bound exceeds its high bound. */
  datatype SearchOutcome = Returned(result: SearchResult) | SlicePanic(low: int, high: int)

  /** The first two clamps: `start` is lowered to `stop`, then raised to 0. */
  function ClampStart(start: int, stop: int): (r: int)
    ensures 0 <= r
    ensures r <= stop || r == 0
    ensures 0 <= start <= stop ==> r == start
  {
    var s := if start > stop then stop else start;
    if s < 0 then 0 else s
  }

  /** The third clamp: a `stop` of 0 or beyond the match count becomes the
      match count; any other `stop`, negative ones included, is kept. */
  function ClampStop(stop: int, count: nat): (r: int)
    ensures r <= count
    ensures r < 0 <==> stop < 0
    ensures 0 < stop <= count ==> r == stop
    ensures stop == 0 ==> r == count
  {
    if stop > count || stop == 0 then count else stop
  }

  /** `Search` as written: match, clamp, sort, slice. The clamps keep
      `0 <= low` and `high <= count` but not `low <= high`: the slice panics
      exactly when the key is present and either `stop` is negative or both
      bounds lie beyond the match count. */
  function Search(items: Items, key: string, query: string, start: int, stop: int, order: seq<string>): (out: SearchOutcome)
    requires key in items ==> Enumerates(order, items[key])
    ensures key !in items ==> out == Returned(SearchResult(key, [], 0, 0, 0))
    ensures out.Returned? ==> out.result.key == key
    ensures out.Returned? ==> 0 <= out.result.start <= out.result.stop <= out.result.count
    ensures out.Returned? ==> |out.result.found| == out.result.stop - out.result.start
    ensures out.SlicePanic? ==> 0 <= out.low && out.high < out.low && out.high <= |MatchSet(items, key, ToLower(query))|
    ensures var n := |MatchSet(items, key, ToLower(query))|;
      out.SlicePanic? <==> key in items && (stop < 0 || (start > n && stop > n))
  {
    if key !in items then Returned(SearchResult(key, [], 0, 0, 0))
    else
      var sorted := SortedMatches(items[key], ToLower(query), order);
      var lo := ClampStart(start, stop);
      var hi := ClampStop(stop, |sorted|);
      if lo <= hi then Returned(SearchResult(key, sorted[lo..hi], |sorted|, lo, hi))
      else SlicePanic(lo, hi)
  }

  /** The count is the number of matching ids, and every returned id is one,
      in strictly ascending order. */
  lemma SearchMatches(items: Items, key: string, query: string, start: int, stop: int, order: seq<string>)
    requires key in items ==> Enumerates(order, items[key])
    ensures var out := Search(items, key, query, start, stop, order);
      out.Returned? ==>
        && out.result.count == |MatchSet(items, key, ToLower(query))|
        && StrictlySorted(out.result.found)
        && forall id :: id in out.result.found ==>
             key in items && id in items[key] && Contains(items[key][id], ToLower(query))
  {
    if key in items {
      var sorted := SortedMatches(items[key], ToLower(query), order);
      var lo := ClampStart(start, stop);
      var hi := ClampStop(stop, |sorted|);
      if lo <= hi {
        forall id | id in sorted[lo..hi]
          ensures id in Elements(sorted)
        {
        }
      }
    }
  }

  /** The page is the window `[start, stop)` of the unique ascending
      enumeration `all` of the matching ids. */
  lemma SearchPage(items: Items, key: string, query: string, start: int, stop: int, order: seq<string>, all: seq<string>)
    requires key in items ==> Enumerates(order, items[key])
    requires StrictlySorted(all) && Elements(all) == MatchSet(items, key, ToLower(query))
    ensures var out := Search(items, key, query, start, stop, order);
      out.Returned? ==> out.result.stop <= |all| && out.result.found == all[out.result.start..out.result.stop]
  {
    if key in items {
      var sorted := SortedMatches(items[key], ToLower(query), order);
      StrictlySortedUnique(sorted, all);
    } else {
      assert forall x :: x in all ==> x in Elements(all);
    }
  }

  /** Search is set-like: the order in which the inner map is scanned does
      not change the outcome. */
  lemma SearchOrderIndependent(items: Items, key: string, query: string, start: int, stop: int,
                               order1: seq<string>, order2: seq<string>)
    requires key in items ==> Enumerates(order1, items[key]) && Enumerates(order2, items[key])
    ensures Search(items, key, query, start, stop, order1) == Search(items, key, query, start, stop, order2)
  {
    if key in items {
      var s1 := SortedMatches(items[key], ToLower(query), order1);
      var s2 := SortedMatches(items[key], ToLower(query), order2);
      StrictlySortedUnique(s1, s2);
    }
  }

  /** A `stop` of 0 means "no upper bound": the whole match list from 0,
      whatever `start` is. */
  lemma SearchStopZero(items: Items, key: string, query: string, start: int, order: seq<string>)
    requires key in items ==> Enumerates(order, items[key])
    ensures var out := Search(items, key, query, start, 0, order);
      && out.Returned?
      && out.result.start == 0
      && out.result.stop == out.result.count == |out.result.found|
      && Elements(out.result.found) == MatchSet(items, key, ToLower(query))
  {
  }

  /** A `start` above `stop` is lowered to it: the result is the one for
      `start == stop`. With 0 < stop <= count that is an empty page at
      `stop`; with stop == 0 it is the full list; otherwise the slice panics. */
  lemma SearchStartAfterStop(items: Items, key: string, query: string, start: int, stop: int, order: seq<string>)
    requires key in items ==> Enumerates(order, items[key])
    requires start > stop
    ensures Search(items, key, query, start, stop, order) == Search(items, key, query, stop, stop, order)
    ensures var n := |MatchSet(items, key, ToLower(query))|;
      var out := Search(items, key, query, start, stop, order);
      key in items && 0 < stop <= n ==>
        out == Returned(SearchResult(key, [], n, stop, stop))
  {
  }

  /** Matching is case-insensitive: after `Set`, `id` matches `query`
      exactly when the lower-cased value contains the lower-cased query. */
  lemma SetThenMatches(items: Items, key: string, id: string, value: string, query: string)
    ensures id in MatchSet(Set(items, key, id, value), key, ToLower(query))
        <==> Contains(ToLower(value), ToLower(query))
  {
  }

  /** The clamps on ordinary bounds, stated against the ascending enumeration
      `all` of the n matching ids of a present key: bounds already within
      `0 <= start <= stop <= n` (and `stop != 0`) are kept and the page is
      `all[start..stop]`; a negative `start` acts as 0 when `stop >= 0`; a
      `stop` beyond n acts as n when `start <= n`. */
  lemma SearchWindow(items: Items, key: string, query: string, start: int, stop: int, order: seq<string>, all: seq<string>)
    requires key in items && Enumerates(order, items[key])
    requires StrictlySorted(all) && Elements(all) == MatchSet(items, key, ToLower(query))
    ensures var n := |all|;
      0 <= start <= stop <= n && stop != 0 ==>
        Search(items, key, query, start, stop, order) == Returned(SearchResult(key, all[start..stop], n, start, stop))
    ensures start < 0 <= stop ==>
      Search(items, key, query, start, stop, order) == Search(items, key, query, 0, stop, order)
    ensures start <= |all| < stop ==>
      Search(items, key, query, start, stop, order) == Search(items, key, query, start, |all|, order)
  {
    var sorted := SortedMatches(items[key], ToLower(query), order);
    StrictlySortedUnique(sorted, all);
  }

  /** After `Flush` every search comes back empty. */
  lemma SearchAfterFlush(items: Items, key: string, query: string, start: int, stop: int, order: seq<string>)
    ensures Search(Flush(items), key, query, start, stop, order) == Returned(SearchResult(key, [], 0, 0, 0))
  {
  }

  /** Two inputs on which the clamps leave the slice out of range, on a key
      with three matching ids: `Found[5:3]` and `Found[0:-1]`. */
  lemma SearchPanicExamples(order: seq<string>)
    requires Enumerates(order, map["a" := "x", "b" := "x", "c" := "x"])
    ensures var items := map["k" := map["a" := "x", "b" := "x", "c" := "x"]];
      && Search(items, "k", "", 5, 10, order) == SlicePanic(5, 3)
      && Search(items, "k", "", -3, -1, order) == SlicePanic(0, -1)
  {
    var items := map["k" := map["a" := "x", "b" := "x", "c" := "x"]];
    assert forall id :: id in items["k"] ==> IsPrefix("", items["k"][id]);
    assert Matches(items["k"], ToLower("")) == {"a", "b", "c"};
  }

  /** The corrected search: after the original clamps, `stop` is raised to 0
      and `start` lowered to `stop`, so the slice is always in range. */
  function SearchClamped(items: Items, key: string, query: string, start: int, stop: int, order: seq<string>): (r: SearchResult)
    requires key in items ==> Enumerates(order, items[key])
    ensures 0 <= r.start <= r.stop <= r.count
    ensures |r.found| == r.stop - r.start
    ensures r.count == |MatchSet(items, key, ToLower(query))|
    ensures var out := Search(items, key, query, start, stop, order);
      out.Returned? ==> r == out.result
    ensures key in items && stop < 0 ==> r.start == r.stop == 0 && r.found == []
    ensures var n := |MatchSet(items, key, ToLower(query))|;
      key in items && start > n && stop > n ==> r.start == r.stop == n && r.found == []
  {
    if key !in items then SearchResult(key, [], 0, 0, 0)
    else
      var sorted := SortedMatches(items[key], ToLower(query), order);
      var hi := ClampStop(stop, |sorted|);
      var hi' := if hi < 0 then 0 else hi;
      var lo := ClampStart(start, stop);
      var lo' := if lo > hi' then hi' else lo;
      SearchResult(key, sorted[lo'..hi'], |sorted|, lo', hi')
  }

  /** Two users stored under "users": "Alice Smith" with id "1" and
      "bob jones" with id "2". Searching "smith" over the whole list finds
      only "1"; searching "o" with `stop == 1` finds only "2". `order` is
      any iteration order of the two ids. */
  lemma UsersExample(order: seq<string>)
    requires Enumerates(order, UsersMap())
    ensures var items := Set(Set(NewSearch(), "users", "1", "Alice Smith"), "users", "2", "bob jones");
      && Search(items, "users", "smith", 0, 0, order) == Returned(SearchResult("users", ["1"], 1, 0, 1))
      && Search(items, "users", "o", 0, 1, order) == Returned(SearchResult("users", ["2"], 1, 0, 1))
  {
    assert ToLower("Alice Smith") == "alice smith" && ToLower("bob jones") == "bob jones";
    assert ToLower("smith") == "smith" && ToLower("o") == "o";
    SmithMatches();
    OMatches();
    var items := map["users" := UsersMap()];
    UsersSearch(items, "smith", 0, 0, order, "1");
    UsersSearch(items, "o", 0, 1, order, "2");
  }

  /** The users' inner map, values already lower-cased. */
  function UsersMap(): map<string, string> {
    map["1" := "alice smith", "2" := "bob jones"]
  }

  /** A search of the users from position 0 whose only match is `id`. */
  lemma UsersSearch(items: Items, query: string, start: int, stop: int, order: seq<string>, id: string)
    requires "users" in items && Enumerates(order, items["users"])
    requires MatchSet(items, "users", ToLower(query)) == {id}
    requires start == 0 && (stop == 0 || stop == 1)
    ensures Search(items, "users", query, start, stop, order) == Returned(SearchResult("users", [id], 1, 0, 1))
  {
  }

  /** Only "alice smith" contains "smith": "bob jones" has no 'm'. */
  lemma SmithMatches()
    ensures Matches(UsersMap(), "smith") == {"1"}
  {
    assert Contains("alice smith", "smith");
    assert !Contains("bob jones", "smith") by {
      assert "smith"[1] == 'm' && 'm' !in "bob jones";
      if Contains("bob jones", "smith") {
        ContainsChars("bob jones", "smith");
      }
    }
    TwoValueMatches("alice smith", "bob jones", "smith");
  }

  /** Only "bob jones" contains "o": "alice smith" has none. */
  lemma OMatches()
    ensures Matches(UsersMap(), "o") == {"2"}
  {
    assert Contains("bob jones", "o");
    assert !Contains("alice smith", "o") by {
      assert "o"[0] == 'o' && 'o' !in "alice smith";
      if Contains("alice smith", "o") {
        ContainsChars("alice smith", "o");
      }
    }
    TwoValueMatches("alice smith", "bob jones", "o");
  }

  /** The matches among two ids "1" and "2" are the ids whose value contains the query. */
  lemma TwoValueMatches(a: string, b: string, query: string)
    ensures Matches(map["1" := a, "2" := b], query)
         == (if Contains(a, query) then {"1"} else {}) + (if Contains(b, query) then {"2"} else {})
  {
    var m := map["1" := a, "2" := b];
    assert m.Keys == {"1", "2"};
  }
}
