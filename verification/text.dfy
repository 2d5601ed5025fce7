/**
 Text primitives the index relies on: lower-casing of stored values and
 queries, and substring containment. Strings are `seq<char>`; a `char` is a
 Unicode scalar value, so comparing chars is comparing code points.
 */
module Text {

  /** Lower-cases one character. Only 'A'..'Z' are mapped; every other
      character is left as it is. */
  function LowerChar(c: char): (d: char)
    ensures 'A' <= c <= 'Z' ==> 'a' <= d <= 'z'
    ensures !('A' <= c <= 'Z') ==> d == c
  {
    if 'A' <= c <= 'Z' then (c as int - 'A' as int + 'a' as int) as char else c
  }

  /** True iff `s` holds no upper-case letter, i.e. lower-casing leaves it alone. */
  predicate IsLower(s: string) {
    forall i :: 0 <= i < |s| ==> !('A' <= s[i] <= 'Z')
  }

  /** Lower-cases a string character by character. */
  function ToLower(s: string): (r: string)
    ensures |r| == |s|
    ensures forall i :: 0 <= i < |s| ==> r[i] == LowerChar(s[i])
    ensures IsLower(r)
  {
    seq(|s|, i requires 0 <= i < |s| => LowerChar(s[i]))
  }

  /** Lower-casing is idempotent: a stored value is already in normal form. */
  lemma ToLowerIdempotent(s: string)
    ensures ToLower(ToLower(s)) == ToLower(s)
  {
  }

  /** A string is lower-case exactly when lower-casing does not change it. */
  lemma LowerIsFixpoint(s: string)
    ensures IsLower(s) <==> ToLower(s) == s
  {
  }

  /** True iff `q` is a prefix of `s`. */
  predicate IsPrefix(q: string, s: string) {
    |q| <= |s| && s[..|q|] == q
  }

  /** True iff `q` occurs in `s` as a contiguous substring. The empty
      string occurs in every string. */
  predicate Contains(s: string, q: string)
    ensures Contains(s, q) ==> |q| <= |s|
    ensures |q| == 0 ==> Contains(s, q)
    decreases |s|
  {
    IsPrefix(q, s) || (|s| > 0 && Contains(s[1..], q))
  }

  /** True iff `q` occurs in `s` starting at position `i`. */
  predicate OccursAt(s: string, q: string, i: int) {
    0 <= i && i + |q| <= |s| && s[i..i + |q|] == q
  }

  /** `Contains` agrees with the positional definition of a substring. */
  lemma ContainsIff(s: string, q: string)
    ensures Contains(s, q) <==> exists i :: OccursAt(s, q, i)
  {
    forall i | OccursAt(s, q, i)
      ensures Contains(s, q)
    {
      OccursContains(s, q, i);
    }
    if Contains(s, q) {
      var i := ContainsAt(s, q);
    }
  }

  /** A position at which a contained string occurs. */
  lemma {:induction false} ContainsAt(s: string, q: string) returns (i: int)
    requires Contains(s, q)
    ensures OccursAt(s, q, i)
    decreases |s|
  {
    if IsPrefix(q, s) {
      i := 0;
    } else {
      var j := ContainsAt(s[1..], q);
      assert s[j + 1..j + 1 + |q|] == s[1..][j..j + |q|];
      i := j + 1;
    }
  }

  /** An occurrence at any position makes the string contained. */
  lemma {:induction false} OccursContains(s: string, q: string, i: int)
    requires OccursAt(s, q, i)
    ensures Contains(s, q)
    decreases i
  {
    if i > 0 {
      var t := s[1..];
      assert t[i - 1..i - 1 + |q|] == s[i..i + |q|];
      OccursContains(t, q, i - 1);
    } else {
      assert s[..|q|] == s[0..0 + |q|];
    }
  }

  /** Every character of a contained string occurs in the containing one. */
  lemma ContainsChars(s: string, q: string)
    requires Contains(s, q)
    ensures forall k :: 0 <= k < |q| ==> q[k] in s
  {
  }
}
