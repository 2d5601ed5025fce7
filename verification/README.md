# Substring search index — Dafny model

The searcher service keeps an in-memory secondary index in `search.go`. The
index maps an outer key (a tenant or collection) to an inner map. The inner map
takes an id to a value that was lower-cased when it was written. The index has
four operations:

- `Set` stores the lower-cased value under a key and id.
- `Del` removes an id, and drops the key once its inner map is empty.
- `Search` finds the ids under one key whose value contains the lower-cased
  query. It clamps the `start`/`stop` bounds, sorts the ids and returns one page.
- `Flush` empties the whole index.

The model is functional. The index state is a `map<string, map<string, string>>`
(`Searcher.Items`), and each operation is a pure function from one state to the
next. Go guards every operation with one read/write lock, so each operation is
modelled as a single atomic step.

Files:

- `text.dfy` (module `Text`): lower-casing (`ToLower`) and substring containment
  (`Contains`, which models `strings.Contains`).
- `order.dfy` (module `StringOrder`): lexicographic order on strings, an
  insertion sort that models `sort.Strings`, and the uniqueness of the strictly
  ascending enumeration of a set.
- `search.dfy` (module `Searcher`): the index, its invariant, the four
  operations and the properties of `Search`.

Go does not specify the order in which `range` visits a map. The model passes
that order in as the parameter `order`. Every search function and lemma requires
only that `order` lists each id of the inner map exactly once
(`Searcher.Enumerates`). `Searcher.SearchOrderIndependent` proves that the
result does not depend on which such order is used.

The slice `result.Found[start:stop]` at `search.go:136` is not always in range.
The clamps at `search.go:118-128` ensure `0 <= start` and `stop <= len(Found)`.
They do not ensure `start <= stop`. Go panics at run time when `start > stop`.
The model shows this as the `SlicePanic(low, high)` outcome of `Searcher.Search`.
The contract of `Search` states exactly when that outcome happens: the key is
present, and either `stop < 0`, or both `start` and `stop` are above the match
count. Two consequences follow:

- Out-of-range bounds are clamped, not rejected, only outside the panic cases
  above.
- `Search(k, q, 5, 2)` gives an empty page at 2 only when the key is present
  with at least two matches. With a present key and fewer than two matches
  the slice panics. An absent key returns an empty result before the slice is
  reached.

`start > stop` does not always give an empty page. When `stop == 0`, `start` is
first lowered to 0, and the sentinel then gives the full list
(`Searcher.SearchStartAfterStop`, `Searcher.SearchStopZero`).

## Model

| member | source | states |
|---|---|---|
| Text.ToLower | search.go:73 | The result has the input's length, maps each 'A'..'Z' to its lower-case letter, leaves every other character alone, and contains no upper-case letter |
| Text.Contains | search.go:111 | Only a string at least as long as the query can contain it, and the empty query is contained in every string |
| Text.LowerIsFixpoint | search.go:73 | A string is in stored (lower-case) form exactly when lower-casing leaves it unchanged |
| Text.ToLowerIdempotent | search.go:109 | Lower-casing twice is the same as once, so a query is normalised the same way as a stored value |
| Text.ContainsIff | search.go:111 | `Contains(s, q)` holds exactly when `q` occurs in `s` at some position; the empty query occurs everywhere |
| StringOrder.Less | search.go:134 | A string is never below itself, and nothing is below the empty string |
| StringOrder.LessIrreflexive | search.go:134 | The order used for sorting is irreflexive |
| StringOrder.LessTransitive | search.go:134 | The order used for sorting is transitive |
| StringOrder.LessTotal | search.go:134 | Any two distinct strings are comparable |
| StringOrder.Sort | search.go:134 | The sorted ids are a permutation of the input in ascending order, and strictly ascending when the ids are distinct |
| StringOrder.StrictlySortedUnique | search.go:134 | Two strictly ascending sequences with the same elements are equal, so sorting a set gives one answer |
| Searcher.Valid | search.go:65-90 | The invariant `Set` and `Del` keep: every present key has at least one id, and every stored value is lower-case |
| Searcher.NewSearch | search.go:36-40 | A new index satisfies the invariant and holds no pair |
| Searcher.Set | search.go:65-74 | Afterwards `key`/`id` holds the lower-cased value and `key` is present; every other pair and every other key's inner map is unchanged |
| Searcher.SetPreservesValid | search.go:69-73 | `Set` keeps both invariants: no empty inner map, and only lower-case values |
| Searcher.SetThenMatches | search.go:109-111 | After `Set`, `id` matches a query exactly when the lower-cased value contains the lower-cased query |
| Searcher.Del | search.go:77-90 | Afterwards `id` is absent under `key`; an absent key leaves the state unchanged; a key whose only id was `id` disappears; a remaining key keeps a non-empty inner map; other keys are untouched |
| Searcher.DelLookup | search.go:85-89 | `Del` changes no lookup other than `key`/`id` |
| Searcher.DelPreservesValid | search.go:81-89 | `Del` keeps both invariants |
| Searcher.Flush | search.go:142-147 | Afterwards no key is present and the invariant holds |
| Searcher.SearchAfterFlush | search.go:97-105 | After `Flush`, every search returns an empty result with count 0 |
| Searcher.Matches | search.go:110-114 | The matching ids are ids of the inner map; with the empty query every id matches |
| Searcher.MatchSet | search.go:103-114 | An absent key has no matches; a present key's matches are among its ids |
| Searcher.ClampStart | search.go:118-124 | The lowered start is never negative; it is at most `stop` unless it was raised to 0; a start within `0..stop` is kept |
| Searcher.ClampStop | search.go:126-128 | The clamped stop never exceeds the match count; it is negative exactly when `stop` is; a stop within `1..count` is kept; `stop == 0` means the whole list |
| Searcher.Scan | search.go:110-114 | The scan keeps exactly the visited ids whose value contains the query, without repeating any |
| Searcher.SortedMatches | search.go:109-134 | For any scan order, the sorted candidates are the strictly ascending enumeration of the set of matching ids |
| Searcher.Search | search.go:93-138 | An absent key gives an empty result. A returned page has `0 <= Start <= Stop <= Count` and `Stop - Start` ids. The slice panics exactly when the key is present and `stop < 0` or both bounds exceed the match count |
| Searcher.SearchMatches | search.go:109-134 | `Count` is the number of ids under `key` whose value contains the lower-cased query; every returned id is one of them, in strictly ascending order |
| Searcher.SearchPage | search.go:118-136 | The returned ids are the window `[Start, Stop)` of the ascending enumeration of the matching ids |
| Searcher.SearchWindow | search.go:118-136 | With `n` matches and `0 <= start <= stop <= n`, `stop != 0`, the page is exactly the ids at positions `start..stop` of the ascending matches, with `Start = start`, `Stop = stop`, `Count = n`; a negative `start` with `stop >= 0` behaves as `start = 0`; a `stop` above `n` behaves as `stop = n` |
| Searcher.SearchOrderIndependent | search.go:110-134 | The outcome of `Search` does not depend on the map iteration order |
| Searcher.SearchStopZero | search.go:118-128 | `stop == 0` returns every match from position 0, whatever `start` is |
| Searcher.SearchStartAfterStop | search.go:118-128 | `start > stop` behaves as `start == stop`; with `0 < stop <= Count` the page is empty and `Start = Stop = stop` |
| Searcher.SearchPanicExamples | search.go:118-136 | With three matches, `start=5, stop=10` panics on `Found[5:3]` and `start=-3, stop=-1` panics on `Found[0:-1]` |
| Searcher.SearchClamped | search.go:118-136 | The corrected search never goes out of range, keeps `0 <= Start <= Stop <= Count`, and agrees with `Search` whenever `Search` returns. Where `Search` panics it gives an empty page: at 0 when `stop < 0`, at the match count when both bounds exceed it |
| Searcher.UsersExample | search.go:65-136 | Two users "Alice Smith" and "bob jones": searching "smith" from 0 to 0 gives `["1"]`, count 1, 0..1; searching "o" from 0 to 1 gives `["2"]` |

## Left out

- `Sync` (search.go:43-62): the serialisation code is generated and is not part of this model. The rest of `Sync` is file I/O, `db.Sync()` and logging. No snapshot/restore round trip is modelled.
- The `sync.RWMutex` (search.go:19 and the lock calls in each operation): it only serialises concurrent callers. Each operation is one atomic step.
- `Elapsed` (search.go:107, 116): it reads the wall clock. `SearchResult` has no elapsed field.
- Logging through log15: it has no behaviour the index depends on.
- Text.ToLower: maps only ASCII 'A'..'Z'. Go's `strings.ToLower` applies full Unicode case mapping, which can also change a string's length.
- StringOrder.Less: compares code points. Go compares UTF-8 bytes. The two orders agree on valid UTF-8; invalid byte sequences are not modelled.
- Searcher.Search: Go's `int` is 64 bits wide. The clamps do no arithmetic, so unbounded integers change nothing.
- Searcher.Search: a key present with a nil inner map is treated as absent, as the `== nil` test does. Only a restored snapshot could create one, and restore is not modelled.

## Findings

| source | as written | input that shows it | evidently intended | confidence | as-written member | corrected member |
|---|---|---|---|---|---|---|
| search.go:118-136 | The clamps make `start >= 0` and `stop <= len(Found)`, but `start` is lowered to the raw `stop` before `stop` is clamped. `stop` may also stay negative. `Found[start:stop]` then panics | A key with three matching ids: `start=5, stop=10` gives `Found[5:3]`; `start=-3, stop=-1` gives `Found[0:-1]` | Bounds clamped into `0 <= start <= stop <= len(Found)`, so that bad bounds are never rejected | medium, not executed | Searcher.SearchPanicExamples | Searcher.SearchClamped |
