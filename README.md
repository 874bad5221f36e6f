# Representative-date selector of the reservoir water-quality pipeline

The pipeline watches reservoirs through cloud-filtered satellite passes. For
each reservoir it gets an irregular list of observation dates. From that list
it picks three representative dates: `latest` (the newest pass), `m1` (about
30 days earlier) and `m2` (about 60 days earlier). A prior slot with no pass
close enough falls back to `latest`, and a per-slot flag records the
fallback. This project models that selector, `select_dates` in
`analysis/date_selector.py`, and proves its properties.

Dates are integer day numbers. The caller builds midnight timestamps from
`YYYY-MM-dd` strings, so `(d - target).days` is an exact integer difference.
The model follows the code:

- `Sorting.Sort` is Python's `sorted`. On integers a stable sort and any other
  ordered permutation give the same list.
- `SelectDates` takes the last sorted date as `latest`.
- `Pick` is the nested `pick`: the first element of the list comprehension
  `Candidates`, or `None`.
- `OrElse` is `m or latest`. A date is always truthy in Python, so only
  `None` is replaced.
- The fallback flags are `m is None`.
- The result is the record `Selection(latest, m1, m2, fb1, fb2)` in place of
  the source's dict. Every slot always holds a date.

The empty list raises on `dates[-1]` in the source. The model makes this the
precondition `|images| > 0`. Observation dates are conceptually distinct, but
the code accepts any list, including repeated days (several tiles on one day),
and the model follows the code.

The tie-break is the earliest date in the window, not the one closest to the
target. The model keeps this rule, and `ScenarioEarliestNotClosest` exhibits
it. Closest-to-target may have been intended, but nothing in the code
confirms that.

Files: `sorting.dfy` (module `Sorting`) and `date_selector.dfy` (module
`DateSelector`).

## Model

| member | source | states |
|---|---|---|
| DateSelector.SelectDates | analysis/date_selector.py:3-22 | computes the selection: sorts the input, then applies `SelectFromSorted`; no contract of its own, it is specified by LatestIsMaximum, M1Spec, M2Spec and the lemmas built on them |
| DateSelector.SelectFromSorted | analysis/date_selector.py:5-22 | computes the selection from the sorted list; no contract of its own, it is specified by SlotPickSpec, SelectionIgnoresExclusion and, through SelectDates, M1Spec and M2Spec |
| DateSelector.Pick | analysis/date_selector.py:7-9 | the nested `pick`; no contract of its own, it is specified by PickIsLeastQualifying and SlotPickSpec |
| DateSelector.Candidates | analysis/date_selector.py:8 | the list comprehension; no contract of its own, it is specified by CandidatesSpec and CandidatesKeepsOccurrences |
| DateSelector.First | analysis/date_selector.py:9 | `cands[0] if cands else None`; no contract of its own, it is specified through PickIsLeastQualifying |
| DateSelector.OrElse | analysis/date_selector.py:16-17 | `m or latest`; no contract of its own, it is specified by M1Spec and M2Spec (a flagged slot equals `latest`, an unflagged one the picked date) |
| Sorting.Sort | analysis/date_selector.py:4 | the result is in ascending order, is a permutation of the input (same multiset) and has the same length |
| Sorting.Insert | analysis/date_selector.py:4 | inserting adds exactly one occurrence of the element and keeps a sorted list sorted |
| Sorting.SortSameMembers | analysis/date_selector.py:4 | the sorted list has exactly the members of the input |
| DateSelector.CandidatesSpec | analysis/date_selector.py:8 | the comprehension keeps exactly the dates within 7 days of the target that differ from the excluded date, and keeps a sorted list sorted |
| DateSelector.CandidatesKeepsOccurrences | analysis/date_selector.py:8 | every qualifying date occurs in the filtered list exactly as often as in the input, and every other date not at all |
| DateSelector.PickIsLeastQualifying | analysis/date_selector.py:7-9 | on the sorted dates, `pick` is None exactly when no date qualifies, and otherwise returns a qualifying member that is at most every other qualifying date (the minimum of the filtered elements) |
| DateSelector.LeastQualifyingIsUnique | analysis/date_selector.py:8-9 | two lists with the same members have the same least qualifying date |
| DateSelector.LatestIsMaximum | analysis/date_selector.py:4-5 | `latest` is a member of the input and no input date is later |
| DateSelector.SlotPickSpec | analysis/date_selector.py:5-12 | for either offset, `pick` over any sorted list with the input's members, with `latest` its last element, is None exactly when no input date qualifies, and otherwise the least qualifying input date |
| DateSelector.M1Spec | analysis/date_selector.py:11-21 | `fb1` holds exactly when no input date qualifies for the 30-day window; a flagged `m1` equals `latest`; an unflagged `m1` is the least qualifying input date |
| DateSelector.M2Spec | analysis/date_selector.py:12-21 | the same for `m2` and `fb2` with the 60-day window |
| DateSelector.SlotInWindow | analysis/date_selector.py:8-12 | an unflagged `m1` (`m2`) is an input date with distance at most 7 from `latest - 30` (`latest - 60`) and differs from `latest` |
| DateSelector.FallbackExactlyWhenWindowEmpty | analysis/date_selector.py:8-21 | a slot's flag is true exactly when no input date other than `latest` lies in its window, and then the slot equals `latest` |
| DateSelector.SlotIsEarliestInWindow | analysis/date_selector.py:4-9 | an unflagged slot is at most every input date in its window (tie-break by earliest date, not by closeness) |
| DateSelector.SameMembersSameLatest | analysis/date_selector.py:4-5 | two non-empty inputs with the same members have the same `latest` |
| DateSelector.SameMembersSameM1 | analysis/date_selector.py:4-11 | two non-empty inputs with the same members give the same `m1` and `fb1` |
| DateSelector.SameMembersSameM2 | analysis/date_selector.py:4-12 | two non-empty inputs with the same members give the same `m2` and `fb2` |
| DateSelector.SelectionDependsOnlyOnMembers | analysis/date_selector.py:4-22 | two non-empty inputs with the same members give identical selections, whatever their order and repetitions |
| DateSelector.PermutationInvariant | analysis/date_selector.py:4-22 | a permutation of a non-empty input is non-empty and gives an identical selection |
| DateSelector.SlotsOrdered | analysis/date_selector.py:11-17 | both prior slots are at most `latest`; when neither falls back, `m2 < m1 < latest` |
| DateSelector.ExclusionOutsideWindow | analysis/date_selector.py:8 | an excluded date beyond the upper end of the window removes nothing: the filter equals the window filter alone |
| DateSelector.ExclusionIsRedundant | analysis/date_selector.py:8-12 | with `latest` the last sorted date, the candidate lists for offsets 30 and 60 equal the window filters without the `d != exclude` test, so dropping the test changes no slot |
| DateSelector.SelectNoExclusion | analysis/date_selector.py:5-22 | a reference selection computed without the `d != exclude` test; no contract of its own, it is the partner that SelectionIgnoresExclusion relates to SelectFromSorted |
| DateSelector.SelectionIgnoresExclusion | analysis/date_selector.py:8-12 | on any non-empty list (in particular the sorted input) the selection equals the reference selection without the exclusion test |
| DateSelector.ScenarioBothMatch | analysis/date_selector.py:3-22 | an input whose members are latest, latest-29 and latest-60 (2024-01-01, 2023-12-03, 2023-11-02) selects all three with no fallback |
| DateSelector.ScenarioSingleDate | analysis/date_selector.py:3-22 | an input whose only member is latest gives both prior slots equal to latest, both flagged |
| DateSelector.ScenarioNoCandidate | analysis/date_selector.py:3-22 | an input whose members are latest and latest-92 (2024-01-01, 2023-10-01) flags both prior slots, which equal latest |
| DateSelector.ScenarioEarliestNotClosest | analysis/date_selector.py:7-11 | with members latest, latest-30 and latest-36, `m1` is latest-36, the earliest in the window, although latest-30 lies on the target |

The result type carries all three slots and both flags by construction, so no
slot can be missing. `m1 or latest` never yields None.

## Left out

- analysis/run_batch.py: batch orchestration, left out as I/O and foreign calls. That covers reading the region GeoJSON, creating directories, blocking Earth Engine `getInfo()` calls, PNG export through `geemap`, CSV writing with pandas, and the wall-clock timestamp and JSON of `meta.json`. Its only local logic is skipping the `fallback` key when iterating over the result dict. That is not needed for a record with typed slots.
- analysis/indices.py: floating-point spectral index formulas that Earth Engine evaluates server-side. This is not part of this model.
- analysis/gee_utils.py: the Earth Engine session and the collection filtering and cloud mask, expressed as remote operations. This is not part of this model.
- dashboard/app.py: Flask routes and file reading for the viewer. This is not part of this model.
- SelectDates: the empty input is a precondition rather than an error value. The source raises `IndexError` there and defines no result.
- SelectDates: Python's `OverflowError` is not modelled. It is raised when `latest - 60 days` would fall before year 1. Day numbers here are unbounded.
- SelectDates: timestamps carrying a time of day are not modelled. There `.days` would round the difference down; the caller only passes midnight timestamps.
