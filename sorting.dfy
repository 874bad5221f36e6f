/**
 * Ascending sort of a sequence of day numbers, the model of Python's built-in
 * `sorted` as the date selector applies it to its input.  Python's sort is
 * stable, but on plain integers stability is unobservable, so any sorting
 * function whose result is ordered and a permutation of its input is the same
 * function; insertion sort is the simplest one to reason about.
 */
module Sorting {

  /** Every earlier element is at most every later one. */
  predicate Sorted(s: seq<int>) {
    forall i, j :: 0 <= i < j < |s| ==> s[i] <= s[j]
  }

  /** Inserts `x` in front of the first element of `s` that is not smaller. */
  function Insert(x: int, s: seq<int>): (r: seq<int>)
    ensures multiset(r) == multiset(s) + multiset{x}
    ensures Sorted(s) ==> Sorted(r)
  {
    if s == [] then [x]
    else if x <= s[0] then
      if Sorted(s) then
        HeadIsLeast(s);
        ConsSorted(x, s);
        [x] + s
      else
        [x] + s
    else
      var tail := Insert(x, s[1..]);
      assert s == [s[0]] + s[1..];
      if Sorted(s) then
        HeadIsLeast(s);
        TailSorted(s);
        assert forall y :: y in tail ==> s[0] <= y by {
          forall y | y in tail ensures s[0] <= y {
            assert y in multiset(tail);
            assert y == x || y in s[1..];
          }
        }
        ConsSorted(s[0], tail);
        [s[0]] + tail
      else
        [s[0]] + tail
  }

  /** The first element of a sorted sequence is a lower bound of it. */
  lemma HeadIsLeast(s: seq<int>)
    requires Sorted(s) && |s| > 0
    ensures forall y :: y in s ==> s[0] <= y
  {
    forall y | y in s ensures s[0] <= y {
      var k :| 0 <= k < |s| && s[k] == y;
      assert k == 0 || s[0] <= s[k];
    }
  }

  /** The elements of `s` in ascending order. */
  function Sort(s: seq<int>): (r: seq<int>)
    ensures Sorted(r)
    ensures multiset(r) == multiset(s)
    ensures |r| == |s|
  {
    if s == [] then []
    else
      assert s == [s[0]] + s[1..];
      Insert(s[0], Sort(s[1..]))
  }

  /** A suffix of a sorted sequence is sorted. */
  lemma TailSorted(s: seq<int>)
    requires Sorted(s) && |s| > 0
    ensures Sorted(s[1..])
  {
    forall i, j | 0 <= i < j < |s| - 1 ensures s[1..][i] <= s[1..][j] {
      assert s[1..][i] == s[i + 1] && s[1..][j] == s[j + 1];
    }
  }

  /** Putting a lower bound of a sorted sequence in front keeps it sorted. */
  lemma ConsSorted(x: int, s: seq<int>)
    requires Sorted(s)
    requires forall y :: y in s ==> x <= y
    ensures Sorted([x] + s)
  {
    forall i, j | 0 <= i < j < |s| + 1 ensures ([x] + s)[i] <= ([x] + s)[j] {
      assert ([x] + s)[j] == s[j - 1] && s[j - 1] in s;
      if i > 0 {
        assert ([x] + s)[i] == s[i - 1];
      }
    }
  }

  /** Sorting keeps exactly the members of its input. */
  lemma SortSameMembers(s: seq<int>)
    ensures forall x :: x in Sort(s) <==> x in s
  {
    forall x ensures x in Sort(s) <==> x in s {
      assert x in Sort(s) <==> x in multiset(Sort(s));
      assert x in s <==> x in multiset(s);
    }
  }
}
