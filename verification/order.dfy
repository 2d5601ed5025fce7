/**
 The order in which search results are returned: lexicographic order on
 strings, an insertion sort with respect to it, and the fact that a set of
 strings has exactly one strictly ascending enumeration. The last fact is
 what makes a search result independent of the order in which the inner
 map was scanned.
 */
module StringOrder {

  /** Lexicographic strict order, comparing code points left to right; a
      proper prefix comes before any of its extensions. Go compares the
      UTF-8 bytes of the two strings, which orders valid strings the same
      way as their code points. */
  predicate Less(a: string, b: string)
    ensures Less(a, b) ==> a != b
    ensures Less(a, b) ==> |b| > 0
    decreases |a|
  {
    if |a| == 0 then |b| > 0
    else if |b| == 0 then false
    else a[0] < b[0] || (a[0] == b[0] && Less(a[1..], b[1..]))
  }

  predicate LessEq(a: string, b: string) {
    a == b || Less(a, b)
  }

  lemma {:induction false} LessIrreflexive(a: string)
    ensures !Less(a, a)
    decreases |a|
  {
    if |a| > 0 {
      LessIrreflexive(a[1..]);
    }
  }

  lemma {:induction false} LessTransitive(a: string, b: string, c: string)
    requires Less(a, b) && Less(b, c)
    ensures Less(a, c)
    decreases |a|
  {
    if |a| > 0 && a[0] == b[0] && b[0] == c[0] {
      LessTransitive(a[1..], b[1..], c[1..]);
    }
  }

  lemma {:induction false} LessTotal(a: string, b: string)
    ensures a == b || Less(a, b) || Less(b, a)
    decreases |a|
  {
    if |a| > 0 && |b| > 0 && a[0] == b[0] {
      LessTotal(a[1..], b[1..]);
      if a[1..] == b[1..] {
        assert a == [a[0]] + a[1..] && b == [b[0]] + b[1..];
      }
    }
  }

  lemma LessAsymmetric(a: string, b: string)
    requires Less(a, b)
    ensures !Less(b, a)
  {
  }

  /** Every adjacent pair is in order (duplicates allowed). */
  predicate Sorted(s: seq<string>) {
    forall i :: 0 < i < |s| ==> LessEq(s[i - 1], s[i])
  }

  /** Every pair is in strict order, hence no element occurs twice. */
  predicate StrictlySorted(s: seq<string>) {
    forall i, j :: 0 <= i < j < |s| ==> Less(s[i], s[j])
  }

  /** No element occurs twice. */
  predicate Distinct(s: seq<string>) {
    forall i, j :: 0 <= i < j < |s| ==> s[i] != s[j]
  }

  /** The set of elements of a sequence. */
  function Elements(s: seq<string>): set<string> {
    set x | x in s
  }

  /** Inserts `x` into a sorted sequence at its place. */
  function Insert(x: string, s: seq<string>): (r: seq<string>)
    requires Sorted(s)
    ensures Sorted(r)
    ensures multiset(r) == multiset(s) + multiset{x}
    ensures |r| == |s| + 1
    ensures r[0] == x || (|s| > 0 && r[0] == s[0])
    ensures StrictlySorted(s) && x !in s ==> StrictlySorted(r)
  {
    if s == [] then [x]
    else if LessEq(x, s[0]) then
      InsertFrontStrict(x, s);
      [x] + s
    else
      LessTotal(x, s[0]);
      var t := Insert(x, s[1..]);
      var r := [s[0]] + t;
      assert s == [s[0]] + s[1..];
      assert multiset(r) == multiset{s[0]} + multiset(t);
      ConsSorted(s[0], t);
      assert r[1..] == t;
      InsertBehindStrict(x, s, r);
      r
  }

  /** Putting an element no larger than the head in front keeps a sequence sorted. */
  lemma ConsSorted(y: string, t: seq<string>)
    requires Sorted(t)
    requires |t| > 0 ==> LessEq(y, t[0])
    ensures Sorted([y] + t)
  {
  }

  /** Putting `x` in front of a strictly sorted `s` keeps it strictly sorted
      when `x` is below the head of `s`. */
  lemma InsertFrontStrict(x: string, s: seq<string>)
    requires |s| > 0 && LessEq(x, s[0])
    ensures StrictlySorted(s) && x !in s ==> StrictlySorted([x] + s)
  {
    if StrictlySorted(s) && x !in s {
      var r := [x] + s;
      forall i, j | 0 <= i < j < |r|
        ensures Less(r[i], r[j])
      {
        if i == 0 && j > 1 {
          LessTransitive(x, s[0], s[j - 1]);
        }
      }
    }
  }

  /** The recursive case of `Insert`: the head of `s` stays in front. */
  lemma InsertBehindStrict(x: string, s: seq<string>, r: seq<string>)
    requires |s| > 0 && Less(s[0], x) && |r| == |s| + 1 && r[0] == s[0]
    requires multiset(r[1..]) == multiset(s[1..]) + multiset{x}
    requires StrictlySorted(s) && x !in s ==> StrictlySorted(r[1..])
    ensures StrictlySorted(s) && x !in s ==> StrictlySorted(r)
  {
    if StrictlySorted(s) && x !in s {
      forall i, j | 0 <= i < j < |r|
        ensures Less(r[i], r[j])
      {
        if i == 0 {
          var y := r[j];
          assert y == r[1..][j - 1];
          assert y in multiset(r[1..]);
          if y != x {
            assert y in multiset(s[1..]);
            var k :| 0 <= k < |s[1..]| && s[1..][k] == y;
            assert s[k + 1] == y;
          }
        } else {
          assert r[i] == r[1..][i - 1] && r[j] == r[1..][j - 1];
        }
      }
    }
  }

  /** Insertion sort: the model of `sort.Strings`. */
  function Sort(s: seq<string>): (r: seq<string>)
    ensures Sorted(r)
    ensures multiset(r) == multiset(s)
    ensures |r| == |s|
    ensures Distinct(s) ==> StrictlySorted(r)
  {
    if s == [] then []
    else
      assert s == [s[0]] + s[1..];
      assert Distinct(s) ==> Distinct(s[1..]) && s[0] !in multiset(s[1..]);
      Insert(s[0], Sort(s[1..]))
  }

  /** A strictly sorted sequence is determined by its elements: the
      strictly ascending enumeration of a set is unique. */
  lemma {:induction false} StrictlySortedUnique(a: seq<string>, b: seq<string>)
    requires StrictlySorted(a) && StrictlySorted(b)
    requires Elements(a) == Elements(b)
    ensures a == b
    decreases |a|
  {
    if |a| == 0 {
      ElementsEmpty(b);
    } else {
      assert a[0] in Elements(b);
      assert |b| > 0;
      assert b[0] in Elements(a);
      if a[0] != b[0] {
        var i :| 0 <= i < |a| && a[i] == b[0];
        var j :| 0 <= j < |b| && b[j] == a[0];
        assert Less(a[0], b[0]);
        assert Less(b[0], a[0]);
        LessAsymmetric(a[0], b[0]);
      }
      assert Elements(a[1..]) == Elements(b[1..]) by {
        forall x | x in Elements(a[1..])
          ensures x in Elements(b[1..])
        {
          var i :| 1 <= i < |a| && a[i] == x;
          assert Less(a[0], x);
          LessIrreflexive(x);
          assert x in Elements(a) && x in Elements(b) && x in b;
          var j :| 0 <= j < |b| && b[j] == x;
          assert j != 0;
          assert b[1..][j - 1] == x;
        }
        forall x | x in Elements(b[1..])
          ensures x in Elements(a[1..])
        {
          var j :| 1 <= j < |b| && b[j] == x;
          assert Less(b[0], x);
          LessIrreflexive(x);
          assert x in Elements(b) && x in Elements(a) && x in a;
          var i :| 0 <= i < |a| && a[i] == x;
          assert i != 0;
          assert a[1..][i - 1] == x;
        }
      }
      StrictlySortedUnique(a[1..], b[1..]);
      assert a == [a[0]] + a[1..] && b == [b[0]] + b[1..];
    }
  }

  /** Only the empty sequence has no elements. */
  lemma ElementsEmpty(s: seq<string>)
    ensures Elements(s) == {} ==> s == []
  {
    if |s| > 0 {
      assert s[0] in Elements(s);
    }
  }

  /** A sequence without repetitions has as many elements as its length. */
  lemma {:induction false} DistinctCard(s: seq<string>)
    requires Distinct(s)
    ensures |Elements(s)| == |s|
  {
    if |s| > 0 {
      assert Distinct(s[1..]);
      DistinctCard(s[1..]);
      assert Elements(s) == {s[0]} + Elements(s[1..]);
      assert s[0] !in Elements(s[1..]);
    }
  }
}
