# Row selection of the artwork table, in Dafny

The application shows artworks from a paginated public API in a table. The
user can tick single rows, tick the header box to select or clear the shown
page, or type a count N into a small form to select the next N unticked rows,
starting at the current page and running on to later pages as needed. All of
this is bookkeeping over one map, `checkedRows`, from record id to a
"checked" flag. An id that is absent from the map counts as unchecked.

This project models that bookkeeping in `src/App.tsx` as pure functions over
immutable values:

- `selection.dfy` (module `Selection`): the map and its operations. These are
  the absent-is-false reading (`IsChecked`), the page-level `every` check
  (`AllChecked`), the eligible-row filter (`Unchecked`), the marking loop
  (`MarkChecked`) and the single-id toggle (`Flip`).
- `rows.dfy` (module `Rows`): a table row (`Artwork`, id and `isChecked`) and
  `fetchData`'s annotation of a fetched page (`Annotate`).
- `bulk_select.dfy` (module `BulkSelect`): the bulk selector. `PageStep` is one
  pass of its `while` body. `Loop` is the loop itself, bounded by a page
  budget `fuel`. `Walk` is a reference run with no stopping test, and the loop
  is proved against it. `SelectRowsLoop` is the imperative loop with its inner
  marking `for` loop (`MarkFirst`).
- `app.dfy` (module `App`): the component state (`data`, `currentPage`,
  `checkedRows`, `selectAll`). It holds one function per handler and the effect
  that reloads a page when `currentPage` changes (`PageEffect`).
- `scenarios.dfy` (module `Scenarios`): two worked bulk selections on
  twelve-row pages.

A fetch is a total function `pages: nat -> seq<int>`. It maps a page number
to that page's ids, in the order the server returns them. The parsed count
of the form is `Parsed`: either `NaN` or an integer.

The model follows the code literally, including these behaviours a reader
might not expect:

- `handleSelectAll` builds a fresh map (line 80). Ids of other pages are
  dropped, not left untouched, and entries do get removed from the map.
  `HandleSelectAll` and `SelectAllTwice` state this. Select-all twice does
  not restore the earlier selection. It leaves every shown id with the
  original header value.
- After a bulk select, the rows shown come from `fetchData` of the render
  that created the handler (lines 35, 99, 112). Their `isChecked` flags are
  those of the map from before the call, not the updated one. The header box
  is not recomputed either. Only when the page changed does the
  `currentPage` effect reload the page from the new map.
  `SelectRowsThenRender` states both cases. On the same page this is
  visible: the header box (line 135) stays unticked although every shown row
  is now checked. `StaleFlagsExample` exhibits it on a one-row page. The row
  checkboxes themselves read `checkedRows` (line 142), so they are current.
- The selection is never restored from storage: the map starts empty (line 25).
- Unticking the header box on an empty page leaves it unticked, although
  `every` over no rows is true (`SelectAllHeaderConsistent`).

## Model

| member | source | states |
|---|---|---|
| `Selection.Unchecked` | src/App.tsx:100 | the eligible rows are never more than the page's rows |
| `Selection.UncheckedMembers` | src/App.tsx:100 | an id is eligible exactly when it is on the page and not checked in the accumulating map, with absent read as unchecked |
| `Selection.UncheckedDistinct` | src/App.tsx:100 | filtering a page without repeated ids yields no repeated ids |
| `Selection.MarkChecked` | src/App.tsx:103-105 | the marking loop only ever writes `true`: no key disappears, and no key goes from true to false |
| `Selection.MarkCheckedEffect` | src/App.tsx:103-105 | after marking, the keys are the old keys plus the marked ids, and an id is checked iff it was checked before or was marked |
| `Selection.MarkCheckedNewly` | src/App.tsx:103-105 | marking ids none of which was checked makes exactly those ids newly checked |
| `Selection.NewlyChain` | src/App.tsx:96-107 | along two check-only updates, the newly checked ids split into the two legs, disjointly, so their counts add |
| `Selection.Flip` | src/App.tsx:61-64 | a toggle negates the id's flag (absent counts as false), adds the id as a key and leaves every other key's value alone |
| `Selection.TogglesParity` | src/App.tsx:61-64 | after any run of toggles, an id is checked iff it was checked before XOR it was toggled an odd number of times |
| `Rows.Annotate` | src/App.tsx:33-36 | a fetched page keeps its ids in order, and every row's `isChecked` equals the map's flag for its id |
| `BulkSelect.PageStep` | src/App.tsx:99-107 | one page takes `min(remaining, eligible)` rows, never more than either bound, and only writes `true` |
| `BulkSelect.PageStepMarks` | src/App.tsx:100-105 | a page checks exactly the first `toSelect` eligible rows in source order on top of what was checked; if a remainder is carried on, every row of the page is now checked |
| `BulkSelect.PageStepCount` | src/App.tsx:100-107 | on a page without repeated ids, the number of newly checked ids equals `toSelect` |
| `BulkSelect.Walk` | src/App.tsx:98-114 | the reference run over consecutive pages never increases the remainder and only ever writes `true` |
| `BulkSelect.Loop` | src/App.tsx:98-114 | when the loop stops, it does so on a page at or after the start page within the page budget, its rows are that page's fetch, and the map only gained checks |
| `BulkSelect.ZeroWalk` | src/App.tsx:101-107 | with nothing left to select, visiting further pages changes nothing |
| `BulkSelect.WalkStaysDone` | src/App.tsx:98 | once the remainder is 0 the run's state is final |
| `BulkSelect.WalkRemainingShrinks` | src/App.tsx:101-107 | the remainder is non-increasing from page to page |
| `BulkSelect.LoopStopsWhereWalkEnds` | src/App.tsx:98-114 | the loop stops on the first page after which the remainder is 0; the remainder was still positive before that page, and the final map is the reference run's |
| `BulkSelect.LoopOutOfFuelIff` | src/App.tsx:98-114 | the loop is still running after `fuel` pages iff the reference run over `fuel` pages has a positive remainder |
| `BulkSelect.WalkExhausts` | src/App.tsx:100-107 | while rows are still to be selected, every id of every visited page has been checked |
| `BulkSelect.WalkChecksOnlySeen` | src/App.tsx:100-105 | the run checks no id outside the pages it visited |
| `BulkSelect.LoopStopsIff` | src/App.tsx:94-114 | with pages free of repeated ids, the loop stops within `fuel` pages iff those pages hold at least N ids unchecked at the start |
| `BulkSelect.NeverStops` | src/App.tsx:98-110 | when no page from the start page on has an unchecked row, each page takes nothing, the remainder stays positive and the loop never stops, whatever the budget |
| `BulkSelect.LoopFuelIrrelevant` | src/App.tsx:98-114 | a larger page budget never changes where a stopping loop stops or what it selects |
| `BulkSelect.WalkCount` | src/App.tsx:94-107 | the counting invariant: with pages free of repeated ids, newly checked ids plus the remainder always equal the requested count |
| `BulkSelect.LoopSelectsExactly` | src/App.tsx:94-107 | with pages free of repeated ids, a loop that stops has newly checked exactly N ids |
| `BulkSelect.StopsOnStartPage` | src/App.tsx:98-113 | if the start page has at least N eligible rows, the loop checks its first N eligible rows and stops there |
| `BulkSelect.SpillsToNextPage` | src/App.tsx:98-113 | if the start page has k < N eligible rows and the next page has at least N - k, all k and the next page's first N - k are checked, and the loop stops on the next page |
| `BulkSelect.MarkFirst` | src/App.tsx:103-105 | the imperative marking loop computes the same map as marking the first `toSelect` eligible ids |
| `BulkSelect.SelectRowsLoop` | src/App.tsx:94-114 | the imperative `while` loop agrees with the reference run: it finishes iff the run reaches remainder 0 within the budget, on the first such page, with the run's map |
| `App.LoadPageData` | src/App.tsx:40-46 | a loaded page shows the fetched ids with flags from the map, and the header box is ticked iff every shown row is flagged (vacuously so for an empty page) |
| `App.PageEffect` | src/App.tsx:48-50 | a render with a new current page reloads that page from the current map; otherwise the state is left as it is |
| `App.Mount` | src/App.tsx:23-50 | the first load shows page 1 with nothing checked; the header box is ticked only if page 1 is empty |
| `App.HandleApiChanges` | src/App.tsx:56-58 | clicking the page already shown changes nothing; another page is shown with flags from the unchanged map |
| `App.HandleCheckboxChange` | src/App.tsx:60-74 | a row toggle negates only that id's flag and flips only the shown rows with that id; the header box then says whether every shown id is checked in the new map |
| `App.CheckboxTwice` | src/App.tsx:60-74 | toggling the same row twice restores every id's checked state and the shown rows |
| `App.ToggleRowsParity` | src/App.tsx:60-65 | after any run of row toggles an id is checked iff it was checked before XOR it was toggled an odd number of times |
| `App.HandleSelectAll` | src/App.tsx:76-88 | the header box is negated; the new map's keys are exactly the shown ids, each set to the new value; the shown rows all carry that value |
| `App.SelectAllTwice` | src/App.tsx:76-86 | two clicks restore the header box, but leave exactly the shown ids as keys, all mapped to the original header value |
| `App.SelectAllHeaderConsistent` | src/App.tsx:76-86 | after select-all the header box equals "every shown row is checked" iff it was just ticked or the page is not empty |
| `App.HandleSelectRows` | src/App.tsx:90-119 | a count that is NaN or at most 0 changes nothing; otherwise the map only gains checks, the header box is untouched, the loop is still running iff the reference run has a positive remainder after `fuel` pages, and a finished call shows the first page at or after the start where the remainder hit 0, with rows flagged from the old map |
| `App.SelectRowsCount` | src/App.tsx:94-107 | with pages free of repeated ids, a bulk select of N that returns newly checks exactly N ids and unchecks none |
| `App.SelectRowsReturnsIff` | src/App.tsx:90-117 | with pages free of repeated ids, a bulk select of N > 0 returns within the page budget iff the pages from the current one on, within the budget, hold at least N ids unchecked when it started |
| `App.SelectRowsFuel` | src/App.tsx:98-114 | the page budget never changes the result of a bulk select that returns |
| `App.SelectRowsThenRender` | src/App.tsx:109-117 | after a bulk select that moved pages, the effect shows the new page with flags and header from the new map; on the same page, the rows keep the old map's flags and the header box keeps its old value |
| `App.StaleFlagsExample` | src/App.tsx:99-112 | a one-row page, bulk select of 1: the row is checked in the map while the shown row still says unchecked; the page does not change, so nothing reloads, and the header box stays unticked although every shown row is checked |
| `Scenarios.FiveFromFreshPage` | src/App.tsx:90-117 | nothing checked, N = 5: the first five ids of the page are checked, the other seven are not, and the page stays |
| `Scenarios.FiveSpillingToPageTwo` | src/App.tsx:90-117 | ten of twelve checked, N = 5: the last two of page 1 and the first three of page 2 are checked, and the table moves to page 2 |

## Left out

- The `fetch` of the artworks API and its JSON decoding (lines 30-32): network I/O. A page is a total function from page number to ids, so fetch failures are not modelled. The display strings (title, place of origin, artist, dates) are not modelled either.
- `parseInt` of the text box (line 91): JavaScript library semantics. The input is `Parsed`, NaN or an integer.
- Number precision: ids, counts and pages are unbounded integers. JavaScript numbers are doubles, so counts beyond 2^53 are not modelled.
- Writing the map to `localStorage` (lines 52-54): a write-only side effect. Nothing reads it back.
- React scheduling: the model does not cover async interleaving of handlers and fetches, stale responses that overwrite newer state, or the development-mode double run of effects. Each handler is modelled as running alone to completion. Its state updates are applied together, then the `currentPage` effect runs.
- The text box's `value` state, the overlay panel's `hide()`, and all rendering: table, columns, checkboxes and the ten pager buttons (lines 121-203). This is presentation only.
- `src/main.tsx`: application bootstrap and style imports.
- `BulkSelect.Loop`: the source loop has no bound, and it never ends when later pages run out of eligible rows (`NeverStops`). The model stops after `fuel` pages and reports that it is still running (`OutOfFuel`, `StillLooping`). `LoopOutOfFuelIff` and `LoopFuelIrrelevant` show that the bound only decides whether the end is seen, never where the loop stops or what it selects; `LoopStopsIff` says in terms of the pages' contents when it is seen.
- `App.SelectRowsCount`: the exact count of N assumes no page repeats an id. The code does not check this. A page that repeats an eligible id counts it twice against N but checks it once.
