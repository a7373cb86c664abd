/** The two java.util.ArrayList operations the task store uses on its list, over sequences.
    Task does not override equals, so the element comparison is reference identity, which is
    Dafny's == on class instances. */
module ArrayLists {

  /** No element occurs at two positions. */
  predicate Distinct<T(==)>(s: seq<T>) {
    forall i, j :: 0 <= i < j < |s| ==> s[i] != s[j]
  }

  /** ArrayList.indexOf: the position of the first element equal to `x`, or -1. */
  function IndexOf<T(==)>(s: seq<T>, x: T): (i: int)
    ensures -1 <= i < |s|
    ensures i == -1 <==> x !in s
    ensures 0 <= i ==> s[i] == x && x !in s[..i]
  {
    if s == [] then -1
    else if s[0] == x then 0
    else
      var j := IndexOf(s[1..], x);
      assert s == [s[0]] + s[1..];
      if j == -1 then -1
      else
        assert s[..j + 1] == [s[0]] + s[1..][..j];
        j + 1
  }

  /** ArrayList.remove(Object): drop the first element equal to `x`; no change when there is none. */
  function RemoveFirst<T(==)>(s: seq<T>, x: T): (r: seq<T>)
    ensures x !in s ==> r == s
    ensures x in s ==> |r| == |s| - 1
    ensures x in s ==> var i := IndexOf(s, x); r[..i] == s[..i] && r[i..] == s[i + 1..]
    ensures forall y :: y in r ==> y in s
    ensures forall y :: y in s && y != x ==> y in r
  {
    var i := IndexOf(s, x);
    if i < 0 then s
    else
      var r := s[..i] + s[i + 1..];
      assert forall k :: 0 <= k < |s| && k != i ==> s[k] in r by {
        forall k | 0 <= k < |s| && k != i ensures s[k] in r {
          if k < i { assert r[k] == s[k]; } else { assert r[k - 1] == s[k]; }
        }
      }
      r
  }

  /** Removing from a list without repeats leaves a list without repeats that no longer holds `x`. */
  lemma RemoveFirstKeepsDistinct<T>(s: seq<T>, x: T)
    requires Distinct(s)
    ensures Distinct(RemoveFirst(s, x))
    ensures x !in RemoveFirst(s, x)
  {
  }

  /** On a list without repeats, a second removal of the same element changes nothing. */
  lemma RemoveFirstTwice<T>(s: seq<T>, x: T)
    requires Distinct(s)
    ensures RemoveFirst(RemoveFirst(s, x), x) == RemoveFirst(s, x)
  {
  }

  /** Appending an element that is not yet present keeps a list without repeats. */
  lemma AppendKeepsDistinct<T>(s: seq<T>, x: T)
    requires Distinct(s) && x !in s
    ensures Distinct(s + [x])
  {
  }
}
