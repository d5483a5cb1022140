# Artworks table: row selection across pages

This project models the row-selection logic of the paginated artworks table
(`PaginationTable` in `frontend/src/components/Pagination_Table.tsx`). The
table shows one page of artwork records fetched from a public catalogue. It
keeps a selection of artwork ids that survives page changes. It also offers
a "select N rows" action: that action selects what it can from the page on
display and carries the rest over as a quota, which later page loads serve.

The model has four modules:

- `JsArray` (`js_array.dfy`): the JavaScript array operations the component
  builds its values from. `FilterOut` is `filter` with a negated `includes`.
  `SliceFront` is `slice(0, n)`, including what a negative `n` does.
  `DedupFrom` and `Dedup` are `Array.from(new Set(...))`, which keeps
  insertion order.
- `Selection` (`selection.dfy`): each handler's new selection and quota as a
  pure function of the old ones and of the ids on the page, plus the lemmas
  about them.
- `Paging` (`paging.dfy`): the paginator event and the request it leads to.
- `Table` (`pagination_table.dfy`): the class `PaginationTable`. It holds
  the component's state: page ids, total, loading flag, page, rows,
  selection, target and quota. Each handler is a method that updates these
  fields in place by calling the functions above. The network fetch is
  replaced by a `Response` parameter of `LoadPage`.

An artwork record is represented by its id alone. No other field of a
record is used by the logic.

### Behaviour the model takes from the code

Each of these follows from the handlers as written, and the model keeps it.

- A negative "select N" target is not rejected: the guard refuses only an
  unset or zero target. With a negative `n`, `slice(0, n)` drops `-n` ids
  from the end of the unselected page ids and appends the rest. The quota
  then becomes negative, so later page loads never serve it
  (`Selection.NegativeTargetSelects`). So the quota stays non-negative only
  for non-negative targets.
- Neither the quota fill nor "select N" removes repeated ids within a page:
  an id that occurs twice on the page is appended twice
  (`Selection.RepeatedPageIdSelectedTwice`). So the selection stays free of
  repetitions only when page ids are distinct. The `Valid()` preservation
  clauses of `LoadPage` and `SubmitSelectFirst` carry that condition.
- Clicking the header twice does not always restore the selection. It does
  when no id of the page was selected and the selection has no
  repetitions. When all were selected, the same set of ids comes back,
  possibly in a different order. When only some were selected, the second
  click also removes the ids that had been selected before the first click
  (`Selection.HeaderClickTwicePartial`).
- Clicking a selected row twice keeps the same set of ids but moves the id
  to the end (`Selection.ToggleTwiceReorders`).

## Model

| member | source | states |
|---|---|---|
| `JsArray.FilterOut` | frontend/src/components/Pagination_Table.tsx:106 | keeps exactly the elements the exclusion list does not include; never longer than the input; no repetitions in, none out |
| `JsArray.FilterOutKeepsOrder` | frontend/src/components/Pagination_Table.tsx:106 | what the filter keeps stays in input order, with every copy kept |
| `JsArray.SliceFront` | frontend/src/components/Pagination_Table.tsx:161 | the result is a prefix: `min(n, len)` long for `n >= 0`, `max(len + n, 0)` long for negative `n` |
| `JsArray.DedupFrom` | frontend/src/components/Pagination_Table.tsx:103 | what a Set that already holds `seen` gains from the sequence: each new element once, nothing already seen |
| `JsArray.Dedup` | frontend/src/components/Pagination_Table.tsx:103 | the Set's contents have no repetitions and hold exactly the input's elements |
| `JsArray.DedupFromAppend` | frontend/src/components/Pagination_Table.tsx:103 | building the Set from `a + b` gives the Set of `a`, then the elements of `b` that `a` did not add |
| `JsArray.DedupFromKeepsOrder` | frontend/src/components/Pagination_Table.tsx:103 | what the Set adds keeps the input order |
| `JsArray.DedupFromDistinct` | frontend/src/components/Pagination_Table.tsx:103 | on a sequence without repetitions, the Set just filters out what it already held |
| `Selection.Toggle` | frontend/src/components/Pagination_Table.tsx:79-83 | the clicked id's membership flips and no other id's membership changes; an unselected id is appended at the end; no repetitions are introduced |
| `Selection.ToggleRemovesEveryCopy` | frontend/src/components/Pagination_Table.tsx:80-82 | deselecting keeps every other id, as many times as before and in the same order |
| `Selection.ToggleTwice` | frontend/src/components/Pagination_Table.tsx:79-83 | two clicks on one row restore the same set of ids, and the very same sequence when the id started unselected |
| `Selection.ToggleTwiceMovesToEnd` | frontend/src/components/Pagination_Table.tsx:79-83 | two clicks on a selected row move that id to the end |
| `Selection.ToggleTwiceReorders` | frontend/src/components/Pagination_Table.tsx:79-83 | counterexample: `[1, 2]` becomes `[2, 1]` after two clicks on 1 |
| `Selection.ToggleEachParity` | frontend/src/components/Pagination_Table.tsx:77-84 | after any series of row clicks, an id is selected iff its initial state differs from "clicked an odd number of times" |
| `Selection.OddTimesCounts` | frontend/src/components/Pagination_Table.tsx:77-84 | "clicked an odd number of times" means the id's count in the series of clicks is odd |
| `Selection.CheckPage` | frontend/src/components/Pagination_Table.tsx:101-104 | checking the header gives a selection without repetitions holding exactly the old selection and the page ids |
| `Selection.CheckPageOrder` | frontend/src/components/Pagination_Table.tsx:103 | old ids come first in first-occurrence order, then the page's new ids in page order; with distinct inputs: old selection followed by the page's unselected ids |
| `Selection.UncheckPage` | frontend/src/components/Pagination_Table.tsx:105-107 | unchecking removes exactly the page's ids; no repetitions are introduced |
| `Selection.UncheckKeepsOthers` | frontend/src/components/Pagination_Table.tsx:106 | ids of other pages stay, in order, with the same multiplicity |
| `Selection.AllSelected` | frontend/src/components/Pagination_Table.tsx:113-115 | whether the header shows checked; the lemmas below prove it holds after checking a non-empty page, fails after unchecking, and, for a selection without repetitions, holds exactly when the page is non-empty and checking it would change nothing |
| `Selection.HeaderAfterCheck` | frontend/src/components/Pagination_Table.tsx:101-104 | after checking a non-empty page, the header shows checked |
| `Selection.HeaderAfterUncheck` | frontend/src/components/Pagination_Table.tsx:105-107 | after unchecking, the header shows unchecked |
| `Selection.HeaderCheckedIffNothingToAdd` | frontend/src/components/Pagination_Table.tsx:113-115 | with no repetitions, the header shows checked iff the page is non-empty and checking would change nothing |
| `Selection.HeaderClick` | frontend/src/components/Pagination_Table.tsx:100-121 | a click on a checked header removes the page ids; a click on an unchecked one adds them |
| `Selection.HeaderClickTwiceFromNone` | frontend/src/components/Pagination_Table.tsx:100-121 | two clicks restore the exact selection when no page id was selected and the selection has no repetitions |
| `Selection.HeaderClickTwiceFromAll` | frontend/src/components/Pagination_Table.tsx:100-121 | two clicks from a fully selected page restore the same set of ids |
| `Selection.HeaderClickTwicePartial` | frontend/src/components/Pagination_Table.tsx:100-121 | counterexample: selection `[1]` on page `[1, 2]` becomes `[]` after two clicks |
| `Selection.FirstUnselected` | frontend/src/components/Pagination_Table.tsx:158-161 | a prefix of the page's unselected ids, `min(n, count)` long for `n >= 0` and `max(count + n, 0)` long for negative `n`; every id is on the page and unselected; no repetitions when the page has none |
| `Selection.FirstUnselectedInPageOrder` | frontend/src/components/Pagination_Table.tsx:158-161 | the ids picked keep page order |
| `Selection.AppendFirstUnselected` | frontend/src/components/Pagination_Table.tsx:163 | appending the picked ids keeps the selection free of repetitions for a distinct page; if fewer than asked were picked, every page id is now selected |
| `Selection.SelectFirst` | frontend/src/components/Pagination_Table.tsx:155-166 | an unset or zero target changes nothing; otherwise the old selection stays a prefix, the appended ids are the first unselected page ids, and the new quota is the target minus their number. For a positive target: exactly `min(N, count of unselected page ids)` appended, counting repeated page ids each time, quota in `[0, N]`, and a quota left over means the whole page is selected. For a negative target: `max(count + N, 0)` appended and the quota is negative |
| `Selection.RepeatedPageIdSelectedTwice` | frontend/src/components/Pagination_Table.tsx:158-163 | scenario: N = 5 on page `[3, 3]` with nothing selected appends 3 twice and leaves quota 3 |
| `Selection.NegativeTargetSelects` | frontend/src/components/Pagination_Table.tsx:156-164 | counterexample: target -1 on page `[1, 2, 3]` selects `[1, 2]` and leaves quota -3 |
| `Selection.FillQuota` | frontend/src/components/Pagination_Table.tsx:45-55 | a quota of zero or less changes nothing; otherwise the selection stays a prefix and the appended ids are the first unselected fetched ids, exactly `min(quota, count of unselected fetched ids)` of them. The quota drops by exactly their number, stays in `[0, old]`, and a quota left over means every fetched id is selected |
| `Selection.FillEachKeepsCount` | frontend/src/components/Pagination_Table.tsx:45-55 | over any series of page loads the quota never grows or goes negative, the selection only grows, and selected count plus quota is constant |
| `Selection.SelectThenLoad` | frontend/src/components/Pagination_Table.tsx:155-166 | "select N" (N > 0) followed by any page loads appends exactly N minus the quota ids (never more than N); while quota remains, every id shown so far is selected |
| `Selection.SelectSevenOfFive` | frontend/src/components/Pagination_Table.tsx:155-166 | scenario: N = 7 on page `[1..5]` selects all five and leaves quota 2 |
| `Selection.CarryTwoToNextPage` | frontend/src/components/Pagination_Table.tsx:45-55 | scenario: quota 2 and next page `[6..10]` select 6 and 7 and leave quota 0 |
| `Paging.OnPage` | frontend/src/components/Pagination_Table.tsx:68-75 | the rows always become the event's; a new page size resets the page to 0; the same size takes the event's page |
| `Paging.RequestFor` | frontend/src/components/Pagination_Table.tsx:38-39 | the request's limit is the page size and its page number is the zero-based page index plus one |
| `Paging.RequestAfterEvent` | frontend/src/components/Pagination_Table.tsx:68-75 | after a page event for an index of 0 or more, the request uses the new size and a page number of at least 1: page 1 when the size changed, the event's index plus one otherwise |
| `Paging.OnPageTwice` | frontend/src/components/Pagination_Table.tsx:68-75 | the same paginator event twice in a row leaves page and rows where the event asks, whatever the state before |
| `Table.PaginationTable.constructor` | frontend/src/components/Pagination_Table.tsx:25-32 | initial state: no records, page 0 of 5 rows, empty selection, no target, quota 0; the invariant holds |
| `Table.PaginationTable.LoadPage` | frontend/src/components/Pagination_Table.tsx:35-62 | on success, records and total are replaced and the quota is served by `FillQuota`; on failure nothing changes; loading ends false; the invariant is kept when page ids are distinct |
| `Table.PaginationTable.PageChange` | frontend/src/components/Pagination_Table.tsx:68-75 | page and rows become `OnPage` of the event; nothing else changes |
| `Table.PaginationTable.ToggleRow` | frontend/src/components/Pagination_Table.tsx:77-84 | the selection becomes `Toggle` of it; the invariant is kept |
| `Table.PaginationTable.HeaderChange` | frontend/src/components/Pagination_Table.tsx:100-109 | the selection becomes `CheckPage` or `UncheckPage` of it; the invariant is kept |
| `Table.PaginationTable.SetTarget` | frontend/src/components/Pagination_Table.tsx:151 | the target becomes the typed number |
| `Table.PaginationTable.SubmitSelectFirst` | frontend/src/components/Pagination_Table.tsx:155-166 | selection and quota become `SelectFirst` of them; the invariant is kept for distinct page ids and a non-negative target |

## Left out

- The `fetch` call, `response.json()` and the request URL are network I/O. A
  page load is `LoadPage` with a `Response` parameter. `RequestFor` gives the
  page number and limit the URL would carry.
- A response that parses but lacks `data` or `pagination.total` is not
  modelled. In the source it can leave the records replaced while the total
  is not, because the second field access throws.
- The `useEffect` trigger and out-of-order responses are concurrency on the
  event loop. Each handler is one atomic step.
- For the same reason, stale closures are not modelled. In the source, the
  quota fill and the "select" button filter against the selection captured
  by the closure, but append to the latest one through `prev`. The model
  uses a single current selection.
- Parsing the typed text with `Number` is not modelled, so NaN and fractions
  are not either. The target is an `int`, or `None` before anything is typed.
- The header checkbox widget reports the negation of what it shows. Only
  `HeaderClick` relies on this. `HeaderChange` takes the reported value as a
  parameter.
- The intermediate `loading = true` state is not modelled. It is only seen
  while awaiting the network.
- Rendering, the table, checkbox and overlay widgets, the popover's
  show/hide and the `console` logging are left out. So are the record fields
  other than `id`.
- `frontend/src/App.tsx` is a router shell with no logic.
- `Selection.ToggleEach`, `Selection.OddTimes` and `Selection.FillEach`
  are ghost definitions that state properties of series of events. They are not handlers of the source.
