/**
 * The representative-date selector of the reservoir pipeline
 * (`select_dates` in analysis/date_selector.py).
 *
 * An observation date is a calendar day, written here as an integer day
 * number: the caller builds midnight timestamps from `YYYY-MM-dd` strings, so
 * the difference of two dates in whole days is an exact integer difference.
 * The selector sorts the dates, takes the last one as `latest`, and for the
 * targets 30 and 60 days before `latest` picks the earliest date within seven
 * days of the target other than `latest`; an empty pick falls back to
 * `latest` and is flagged.
 */
module DateSelector {
  import opened Sorting

  datatype Option<T> = None | Some(value: T)

  /**
   * The selector's result: the three date slots `latest`, `m1` (about 30 days
   * back) and `m2` (about 60 days back), and one fallback flag per prior slot.
   * Every slot always holds a date.
   */
  datatype Selection = Selection(latest: int, m1: int, m2: int, fb1: bool, fb2: bool)

  /** Largest distance in days between a picked date and its target. */
  const Tolerance: int := 7
  /** Days between `latest` and the target of slot `m1`. */
  const Offset1: int := 30
  /** Days between `latest` and the target of slot `m2`. */
  const Offset2: int := 60

  function Abs(x: int): nat {
    if x < 0 then -x else x
  }

  /** `d` lies within the tolerance window around `target`. */
  predicate InWindow(d: int, target: int) {
    Abs(d - target) <= Tolerance
  }

  /** `d` is a candidate for a slot: in the window and not the excluded date. */
  predicate Qualifies(d: int, target: int, exclude: int) {
    InWindow(d, target) && d != exclude
  }

  /**
   * The list comprehension inside `pick`: the elements of `dates` that qualify,
   * kept in their original order.
   */
  function Candidates(dates: seq<int>, target: int, exclude: int): seq<int> {
    if dates == [] then []
    else if Qualifies(dates[0], target, exclude) then [dates[0]] + Candidates(dates[1..], target, exclude)
    else Candidates(dates[1..], target, exclude)
  }

  /**
   * The filter keeps exactly the qualifying dates, and keeps sorted dates
   * sorted.
   */
  lemma {:induction false} CandidatesSpec(dates: seq<int>, target: int, exclude: int)
    ensures forall x :: x in Candidates(dates, target, exclude) <==> x in dates && Qualifies(x, target, exclude)
    ensures Sorted(dates) ==> Sorted(Candidates(dates, target, exclude))
  {
    if dates != [] {
      var rest := Candidates(dates[1..], target, exclude);
      CandidatesSpec(dates[1..], target, exclude);
      assert forall x :: x in dates <==> x == dates[0] || x in dates[1..] by {
        assert dates == [dates[0]] + dates[1..];
      }
      if Sorted(dates) {
        TailSorted(dates);
        HeadIsLeast(dates);
        ConsSorted(dates[0], rest);
      }
    }
  }

  /** The filter keeps every occurrence of a qualifying date and none of the others. */
  lemma {:induction false} CandidatesKeepsOccurrences(dates: seq<int>, target: int, exclude: int, x: int)
    ensures multiset(Candidates(dates, target, exclude))[x]
            == if Qualifies(x, target, exclude) then multiset(dates)[x] else 0
  {
    if dates != [] {
      CandidatesKeepsOccurrences(dates[1..], target, exclude, x);
      assert dates == [dates[0]] + dates[1..];
    }
  }

  /** The first element of a list, or None when it is empty. */
  function First(s: seq<int>): Option<int> {
    if |s| > 0 then Some(s[0]) else None
  }

  /** The nested `pick(target, exclude)`, run over the sorted dates. */
  function Pick(dates: seq<int>, target: int, exclude: int): Option<int> {
    First(Candidates(dates, target, exclude))
  }

  /** Python's `m or latest`: a date is always truthy, so only None is replaced. */
  function OrElse(o: Option<int>, default: int): int {
    match o
    case Some(v) => v
    case None => default
  }

  /**
   * `select_dates(images)`.  The source indexes `dates[-1]`, which raises on an
   * empty list, so an empty input is outside what the selector accepts.
   */
  function SelectDates(images: seq<int>): Selection
    requires |images| > 0
  {
    SelectFromSorted(Sort(images))
  }

  /** The body of `select_dates` after its first line, on the sorted `dates`. */
  function SelectFromSorted(dates: seq<int>): Selection
    requires |dates| > 0
  {
    var latest := dates[|dates| - 1];
    var m1 := Pick(dates, latest - Offset1, latest);
    var m2 := Pick(dates, latest - Offset2, latest);
    Selection(latest, OrElse(m1, latest), OrElse(m2, latest), m1.None?, m2.None?)
  }

  // ---------------------------------------------------------------------------
  // `pick` against its specification: the least qualifying date, or None.
  // ---------------------------------------------------------------------------

  /** `m` is the smallest element of `dates` that qualifies for the slot. */
  ghost predicate IsLeastQualifying(m: int, dates: seq<int>, target: int, exclude: int) {
    && m in dates
    && Qualifies(m, target, exclude)
    && forall d :: d in dates && Qualifies(d, target, exclude) ==> m <= d
  }

  /**
   * On sorted dates the head of the filtered list is the smallest qualifying
   * date, and the pick is empty exactly when no date qualifies.
   */
  lemma PickIsLeastQualifying(dates: seq<int>, target: int, exclude: int)
    requires Sorted(dates)
    ensures Pick(dates, target, exclude).None? <==>
              forall d :: d in dates ==> !Qualifies(d, target, exclude)
    ensures Pick(dates, target, exclude).Some? ==>
              IsLeastQualifying(Pick(dates, target, exclude).value, dates, target, exclude)
  {
    var c := Candidates(dates, target, exclude);
    CandidatesSpec(dates, target, exclude);
    if |c| > 0 {
      assert c[0] in c;
      forall d | d in dates && Qualifies(d, target, exclude) ensures c[0] <= d {
        assert d in c;
        var k :| 0 <= k < |c| && c[k] == d;
        assert k == 0 || c[0] <= c[k];
      }
    } else {
      forall d | d in dates ensures !Qualifies(d, target, exclude) {
        assert d !in c;
      }
    }
  }

  /** The least qualifying date of a collection depends only on its members. */
  lemma LeastQualifyingIsUnique(m: int, n: int, a: seq<int>, b: seq<int>, target: int, exclude: int)
    requires forall x :: x in a <==> x in b
    requires IsLeastQualifying(m, a, target, exclude)
    requires IsLeastQualifying(n, b, target, exclude)
    ensures m == n
  {
    assert m in b && n in a;
  }

  // ---------------------------------------------------------------------------
  // Properties of `select_dates`, stated in terms of its unsorted input.
  // ---------------------------------------------------------------------------

  /** `latest` is a member of the input and no input date is later. */
  lemma LatestIsMaximum(images: seq<int>)
    requires |images| > 0
    ensures SelectDates(images).latest in images
    ensures forall d :: d in images ==> d <= SelectDates(images).latest
  {
    var dates := Sort(images);
    SortSameMembers(images);
    assert dates[|dates| - 1] in dates;
    forall d | d in images ensures d <= dates[|dates| - 1] {
      assert d in dates;
      var k :| 0 <= k < |dates| && dates[k] == d;
      assert k == |dates| - 1 || dates[k] <= dates[|dates| - 1];
    }
  }

  /**
   * What `pick` returns for a prior slot, read off the unsorted input: on a
   * sorted list with the input's members, None exactly when no input date
   * qualifies, and otherwise the least qualifying input date.
   */
  lemma SlotPickSpec(dates: seq<int>, images: seq<int>, offset: int)
    requires |dates| > 0 && Sorted(dates)
    requires forall x :: x in dates <==> x in images
    ensures var latest := dates[|dates| - 1];
            var p := Pick(dates, latest - offset, latest);
            && (p.None? <==> forall d :: d in images ==> !Qualifies(d, latest - offset, latest))
            && (p.Some? ==> IsLeastQualifying(p.value, images, latest - offset, latest))
  {
    var latest := dates[|dates| - 1];
    PickIsLeastQualifying(dates, latest - offset, latest);
  }

  /**
   * Slot `m1`: flagged exactly when no input date qualifies for its window;
   * a flagged slot holds `latest`, an unflagged one the least qualifying date.
   */
  lemma M1Spec(images: seq<int>)
    requires |images| > 0
    ensures var s := SelectDates(images);
            && (s.fb1 <==> forall d :: d in images ==> !Qualifies(d, s.latest - Offset1, s.latest))
            && (s.fb1 ==> s.m1 == s.latest)
            && (!s.fb1 ==> IsLeastQualifying(s.m1, images, s.latest - Offset1, s.latest))
  {
    var dates := Sort(images);
    SortSameMembers(images);
    SlotPickSpec(dates, images, Offset1);
  }

  /** Slot `m2`: as for `m1`, with the target 60 days before `latest`. */
  lemma M2Spec(images: seq<int>)
    requires |images| > 0
    ensures var s := SelectDates(images);
            && (s.fb2 <==> forall d :: d in images ==> !Qualifies(d, s.latest - Offset2, s.latest))
            && (s.fb2 ==> s.m2 == s.latest)
            && (!s.fb2 ==> IsLeastQualifying(s.m2, images, s.latest - Offset2, s.latest))
  {
    var dates := Sort(images);
    SortSameMembers(images);
    SlotPickSpec(dates, images, Offset2);
  }

  /**
   * A slot that is not a fallback holds an input date within seven days of its
   * target (30 or 60 days before `latest`) that differs from `latest`.
   */
  lemma SlotInWindow(images: seq<int>)
    requires |images| > 0
    ensures var s := SelectDates(images);
            !s.fb1 ==> s.m1 in images && Abs(s.m1 - (s.latest - 30)) <= 7 && s.m1 != s.latest
    ensures var s := SelectDates(images);
            !s.fb2 ==> s.m2 in images && Abs(s.m2 - (s.latest - 60)) <= 7 && s.m2 != s.latest
  {
    M1Spec(images);
    M2Spec(images);
  }

  /**
   * The fallback flag of a slot is set exactly when no input date other than
   * `latest` lies in the slot's window, and a fallback slot holds `latest`.
   */
  lemma FallbackExactlyWhenWindowEmpty(images: seq<int>)
    requires |images| > 0
    ensures var s := SelectDates(images);
            s.fb1 <==> !exists d :: d in images && InWindow(d, s.latest - 30) && d != s.latest
    ensures var s := SelectDates(images);
            s.fb2 <==> !exists d :: d in images && InWindow(d, s.latest - 60) && d != s.latest
    ensures var s := SelectDates(images);
            (s.fb1 ==> s.m1 == s.latest) && (s.fb2 ==> s.m2 == s.latest)
  {
    M1Spec(images);
    M2Spec(images);
  }

  /**
   * Tie-break: an unflagged slot is the earliest input date in its window, not
   * the one closest to the target.
   */
  lemma SlotIsEarliestInWindow(images: seq<int>)
    requires |images| > 0
    ensures var s := SelectDates(images);
            !s.fb1 ==> forall d :: d in images && InWindow(d, s.latest - 30) ==> s.m1 <= d
    ensures var s := SelectDates(images);
            !s.fb2 ==> forall d :: d in images && InWindow(d, s.latest - 60) ==> s.m2 <= d
  {
    M1Spec(images);
    M2Spec(images);
  }

  /**
   * The selection depends only on which dates occur in the input: neither their
   * order nor how often a date repeats changes it.
   */
  lemma SelectionDependsOnlyOnMembers(a: seq<int>, b: seq<int>)
    requires |a| > 0 && |b| > 0
    requires forall x :: x in a <==> x in b
    ensures SelectDates(a) == SelectDates(b)
  {
    SameMembersSameM1(a, b);
    SameMembersSameM2(a, b);
  }

  /** Inputs with the same members agree on `latest`. */
  lemma SameMembersSameLatest(a: seq<int>, b: seq<int>)
    requires |a| > 0 && |b| > 0
    requires forall x :: x in a <==> x in b
    ensures SelectDates(a).latest == SelectDates(b).latest
  {
    LatestIsMaximum(a);
    LatestIsMaximum(b);
    assert SelectDates(a).latest in b && SelectDates(b).latest in a;
  }

  /** Inputs with the same members agree on `latest`, `m1` and `fb1`. */
  lemma SameMembersSameM1(a: seq<int>, b: seq<int>)
    requires |a| > 0 && |b| > 0
    requires forall x :: x in a <==> x in b
    ensures SelectDates(a).latest == SelectDates(b).latest
    ensures SelectDates(a).m1 == SelectDates(b).m1 && SelectDates(a).fb1 == SelectDates(b).fb1
  {
    var sa, sb := SelectDates(a), SelectDates(b);
    SameMembersSameLatest(a, b);
    M1Spec(a);
    M1Spec(b);
    assert sa.fb1 == sb.fb1;
    if !sa.fb1 {
      LeastQualifyingIsUnique(sa.m1, sb.m1, a, b, sa.latest - Offset1, sa.latest);
    }
  }

  /** Inputs with the same members agree on `m2` and `fb2`. */
  lemma SameMembersSameM2(a: seq<int>, b: seq<int>)
    requires |a| > 0 && |b| > 0
    requires forall x :: x in a <==> x in b
    ensures SelectDates(a).m2 == SelectDates(b).m2 && SelectDates(a).fb2 == SelectDates(b).fb2
  {
    var sa, sb := SelectDates(a), SelectDates(b);
    SameMembersSameLatest(a, b);
    M2Spec(a);
    M2Spec(b);
    assert sa.fb2 == sb.fb2;
    if !sa.fb2 {
      LeastQualifyingIsUnique(sa.m2, sb.m2, a, b, sa.latest - Offset2, sa.latest);
    }
  }

  /** Permuting the input gives an identical selection. */
  lemma PermutationInvariant(a: seq<int>, b: seq<int>)
    requires |a| > 0
    requires multiset(a) == multiset(b)
    ensures |b| > 0
    ensures SelectDates(a) == SelectDates(b)
  {
    assert |multiset(b)| == |multiset(a)|;
    forall x ensures x in a <==> x in b {
      assert x in a <==> x in multiset(a);
      assert x in b <==> x in multiset(b);
    }
    SelectionDependsOnlyOnMembers(a, b);
  }

  /**
   * Every slot is at most `latest`, and when both prior slots are true matches
   * they are strictly ordered, since their windows
   * [latest-67, latest-53] and [latest-37, latest-23] are disjoint.
   */
  lemma SlotsOrdered(images: seq<int>)
    requires |images| > 0
    ensures var s := SelectDates(images);
            s.m1 <= s.latest && s.m2 <= s.latest
    ensures var s := SelectDates(images);
            !s.fb1 && !s.fb2 ==> s.m2 < s.m1 < s.latest
  {
    M1Spec(images);
    M2Spec(images);
  }

  // ---------------------------------------------------------------------------
  // The `d != exclude` test is redundant for the offsets the selector uses.
  // ---------------------------------------------------------------------------

  /** The dates of `dates` within the window, with no exclusion. */
  function WindowDates(dates: seq<int>, target: int): seq<int> {
    if dates == [] then []
    else if InWindow(dates[0], target) then [dates[0]] + WindowDates(dates[1..], target)
    else WindowDates(dates[1..], target)
  }

  /** An excluded date beyond the window's upper end filters out nothing. */
  lemma {:induction false} ExclusionOutsideWindow(dates: seq<int>, target: int, exclude: int)
    requires exclude > target + Tolerance
    ensures Candidates(dates, target, exclude) == WindowDates(dates, target)
  {
    if dates != [] {
      ExclusionOutsideWindow(dates[1..], target, exclude);
    }
  }

  /**
   * Dropping the `d != exclude` test from `pick` changes neither slot: with
   * `latest` the last of the sorted dates, the candidate lists for both
   * offsets are exactly the window filters, since any date in either window
   * is at most `latest - 23`.
   */
  lemma {:induction false} ExclusionIsRedundant(dates: seq<int>)
    requires |dates| > 0
    ensures var latest := dates[|dates| - 1];
            && Candidates(dates, latest - Offset1, latest) == WindowDates(dates, latest - Offset1)
            && Candidates(dates, latest - Offset2, latest) == WindowDates(dates, latest - Offset2)
  {
    var latest := dates[|dates| - 1];
    ExclusionOutsideWindow(dates, latest - Offset1, latest);
    ExclusionOutsideWindow(dates, latest - Offset2, latest);
  }

  /** `select_dates` with `pick` reduced to the window test alone. */
  function SelectNoExclusion(dates: seq<int>): Selection
    requires |dates| > 0
  {
    var latest := dates[|dates| - 1];
    var m1 := First(WindowDates(dates, latest - Offset1));
    var m2 := First(WindowDates(dates, latest - Offset2));
    Selection(latest, OrElse(m1, latest), OrElse(m2, latest), m1.None?, m2.None?)
  }

  /** Dropping the `d != exclude` test from `pick` gives the identical selection. */
  lemma SelectionIgnoresExclusion(dates: seq<int>)
    requires |dates| > 0
    ensures SelectFromSorted(dates) == SelectNoExclusion(dates)
  {
    ExclusionIsRedundant(dates);
  }

  // ---------------------------------------------------------------------------
  // Scenarios, each stated for every input with the given members (in any
  // order, with any repetitions) and an arbitrary `latest`.  With day numbers
  // counted from 1970-01-01 and latest = 2024-01-01 = 19723:
  // latest - 29 = 2023-12-03, latest - 60 = 2023-11-02, latest - 92 = 2023-10-01.
  // ---------------------------------------------------------------------------

  /** Both prior slots find a true match. */
  lemma ScenarioBothMatch(images: seq<int>, latest: int)
    requires forall d :: d in images <==> d == latest || d == latest - 29 || d == latest - 60
    ensures |images| > 0
    ensures SelectDates(images) == Selection(latest, latest - 29, latest - 60, false, false)
  {
    assert latest in images && latest - 29 in images && latest - 60 in images;
    var s := SelectDates(images);
    LatestIsMaximum(images);
    assert s.latest == latest;
    M1Spec(images);
    assert Qualifies(latest - 29, latest - Offset1, latest);
    assert s.m1 in images && Qualifies(s.m1, latest - Offset1, latest);
    M2Spec(images);
    assert Qualifies(latest - 60, latest - Offset2, latest);
    assert s.m2 in images && Qualifies(s.m2, latest - Offset2, latest);
  }

  /** A single date: both prior slots fall back to it. */
  lemma ScenarioSingleDate(images: seq<int>, latest: int)
    requires forall d :: d in images <==> d == latest
    ensures |images| > 0
    ensures SelectDates(images) == Selection(latest, latest, latest, true, true)
  {
    assert latest in images;
    var s := SelectDates(images);
    LatestIsMaximum(images);
    assert s.latest == latest;
    M1Spec(images);
    M2Spec(images);
  }

  /** A second date outside both windows: both prior slots fall back. */
  lemma ScenarioNoCandidate(images: seq<int>, latest: int)
    requires forall d :: d in images <==> d == latest || d == latest - 92
    ensures |images| > 0
    ensures SelectDates(images) == Selection(latest, latest, latest, true, true)
  {
    assert latest in images && latest - 92 in images;
    var s := SelectDates(images);
    LatestIsMaximum(images);
    assert s.latest == latest;
    M1Spec(images);
    M2Spec(images);
  }

  /**
   * The tie-break takes the earliest date in the window even when another date
   * lies exactly on the target.
   */
  lemma ScenarioEarliestNotClosest(images: seq<int>, latest: int)
    requires forall d :: d in images <==> d == latest || d == latest - 30 || d == latest - 36
    ensures |images| > 0
    ensures SelectDates(images).m1 == latest - 36
  {
    assert latest in images && latest - 30 in images && latest - 36 in images;
    var s := SelectDates(images);
    LatestIsMaximum(images);
    assert s.latest == latest;
    M1Spec(images);
    assert Qualifies(latest - 36, latest - Offset1, latest);
    assert s.m1 in images && Qualifies(s.m1, latest - Offset1, latest);
  }
}
