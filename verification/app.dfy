/**
 The table component: its state and the event handlers that change it.

 React state is a value here: every handler maps the state it reads to the
 state it sets, and the effect that reloads a page when `currentPage` changes
 is the separate function `PageEffect`, applied to the states before and after
 a render. Fetching is a total function `pages` from page number to the ids
 of that page, in the order the server returns them.
 */
module App {
  import opened Selection
  import opened Rows
  import opened BulkSelect

  /** `parseInt(value, 10)` of the bulk-select text box. */
  datatype Parsed = NaN | Number(value: int)

  /** The component state: the displayed rows, the current page, the
      selection map and the header checkbox. */
  datatype State = State(data: seq<Artwork>, currentPage: nat, checked: CheckedRows, selectAll: bool)

  /** The bulk selector either returns and sets state, or is still fetching
      pages when the model's page bound is reached. */
  datatype Outcome = Settled(state: State) | StillLooping

  /** The state of the first render. */
  function Initial(): State {
    State([], 1, map[], false)
  }

  /** `loadPageData`: fetch a page annotated from the current selection map,
      show it, and set the header box to "every row of the page is checked". */
  function LoadPageData(s: State, pages: nat -> seq<int>, page: nat): (r: State)
    ensures r.checked == s.checked && r.currentPage == s.currentPage
    ensures Ids(r.data) == pages(page) && FlagsAgree(r.data, s.checked)
    ensures r.selectAll <==> forall i | 0 <= i < |r.data| :: r.data[i].isChecked
  {
    s.(data := Annotate(pages(page), s.checked), selectAll := AllChecked(pages(page), s.checked))
  }

  /** The effect keyed on `currentPage`: after a render whose current page
      differs from the previous render's, the new current page is loaded. */
  function PageEffect(prev: State, next: State, pages: nat -> seq<int>): (r: State)
    ensures r.checked == next.checked && r.currentPage == next.currentPage
    ensures next.currentPage == prev.currentPage ==> r == next
    ensures next.currentPage != prev.currentPage ==>
      && Ids(r.data) == pages(next.currentPage)
      && FlagsAgree(r.data, next.checked)
      && (r.selectAll <==> AllChecked(pages(next.currentPage), next.checked))
  {
    if next.currentPage != prev.currentPage then LoadPageData(next, pages, next.currentPage) else next
  }

  /** The mount effect: page 1 is loaded with nothing checked. */
  function Mount(pages: nat -> seq<int>): (r: State)
    ensures r.currentPage == 1 && r.checked == map[]
    ensures Ids(r.data) == pages(1)
    ensures forall i | 0 <= i < |r.data| :: !r.data[i].isChecked
    ensures r.selectAll <==> |pages(1)| == 0
  {
    LoadPageData(Initial(), pages, 1)
  }

  /** A pager button: set the current page, then let the effect load it.
      Clicking the page already shown changes nothing. */
  function HandleApiChanges(s: State, pages: nat -> seq<int>, page: nat): (r: State)
    ensures page == s.currentPage ==> r == s
    ensures page != s.currentPage ==>
      && r.currentPage == page && r.checked == s.checked
      && Ids(r.data) == pages(page) && FlagsAgree(r.data, s.checked)
      && (r.selectAll <==> AllChecked(pages(page), s.checked))
  {
    PageEffect(s, s.(currentPage := page), pages)
  }

  /** `handleCheckboxChange(row)`: flip the row's id in the selection map,
      flip the `isChecked` of the displayed rows with that id, and set the
      header box from the shown rows and the new map. */
  function HandleCheckboxChange(s: State, row: Artwork): (r: State)
    ensures IsChecked(r.checked, row.id) == !IsChecked(s.checked, row.id)
    ensures r.checked.Keys == s.checked.Keys + {row.id}
    ensures forall k | k in s.checked && k != row.id :: r.checked[k] == s.checked[k]
    ensures Ids(r.data) == Ids(s.data)
    ensures forall i | 0 <= i < |s.data| ::
      r.data[i].isChecked == (s.data[i].isChecked != (s.data[i].id == row.id))
    ensures r.selectAll <==> AllChecked(Ids(s.data), r.checked)
    ensures r.currentPage == s.currentPage
  {
    var updated := Flip(s.checked, row.id);
    var data := seq(|s.data|, i requires 0 <= i < |s.data| =>
      if s.data[i].id == row.id then s.data[i].(isChecked := !s.data[i].isChecked) else s.data[i]);
    s.(checked := updated, data := data, selectAll := AllChecked(Ids(s.data), updated))
  }

  /** `handleSelectAll`: negate the header box and REPLACE the selection map
      by one holding only the shown page's ids, all set to the new value. */
  function HandleSelectAll(s: State): (r: State)
    ensures r.selectAll == !s.selectAll
    ensures forall k :: k in r.checked <==> k in Ids(s.data)
    ensures forall k | k in r.checked :: r.checked[k] == r.selectAll
    ensures Ids(r.data) == Ids(s.data)
    ensures forall i | 0 <= i < |r.data| :: r.data[i].isChecked == r.selectAll
    ensures r.currentPage == s.currentPage
  {
    var value := !s.selectAll;
    var data := seq(|s.data|, i requires 0 <= i < |s.data| => s.data[i].(isChecked := value));
    s.(selectAll := value, checked := map k | k in Ids(s.data) :: value, data := data)
  }

  /** `handleSelectRows`: a no-op unless the box parses to a positive count;
      otherwise the bulk selector runs from the current page and, if it
      stops, sets the accumulated map, the page it stopped on, and that
      page's rows as data. The rows carry the flags of the map the handler
      started from, because `fetchData` reads the map of the render that
      created the handler. The header box is not touched. */
  function HandleSelectRows(s: State, pages: nat -> seq<int>, input: Parsed, fuel: nat): (r: Outcome)
    ensures input.NaN? || input.value <= 0 ==> r == Settled(s)
    ensures r.Settled? ==> OnlyChecks(s.checked, r.state.checked) && r.state.selectAll == s.selectAll
    ensures input.Number? && input.value > 0 ==>
      (r.StillLooping? <==> Walk(pages, s.currentPage, input.value, s.checked, fuel).remaining > 0)
    ensures input.Number? && input.value > 0 && r.Settled? ==>
      && s.currentPage <= r.state.currentPage < s.currentPage + fuel
      && Ids(r.state.data) == pages(r.state.currentPage)
      && FlagsAgree(r.state.data, s.checked)
      && Walk(pages, s.currentPage, input.value, s.checked, r.state.currentPage - s.currentPage + 1)
           == Progress(r.state.checked, 0)
      && Walk(pages, s.currentPage, input.value, s.checked, r.state.currentPage - s.currentPage).remaining > 0
  {
    if input.NaN? || input.value <= 0 then Settled(s)
    else
      var n: nat := input.value;
      LoopOutOfFuelIff(pages, s.currentPage, n, s.checked, fuel);
      match Loop(pages, s.currentPage, n, s.checked, fuel)
      case OutOfFuel => StillLooping
      case Stopped(c, p, rows) =>
        LoopStopsWhereWalkEnds(pages, s.currentPage, n, s.checked, fuel);
        Settled(s.(data := Annotate(rows, s.checked), currentPage := p, checked := c))
  }

  /** Row toggles applied one after another, first to last. */
  function ToggleRows(s: State, rows: seq<Artwork>): State
  {
    if |rows| == 0 then s else HandleCheckboxChange(ToggleRows(s, rows[..|rows| - 1]), rows[|rows| - 1])
  }

  /** After any run of row toggles, an id is checked exactly when it was
      checked before XOR it was toggled an odd number of times. */
  lemma {:induction false} ToggleRowsParity(s: State, rows: seq<Artwork>, k: int)
    ensures IsChecked(ToggleRows(s, rows).checked, k)
      == (IsChecked(s.checked, k) != (multiset(Ids(rows))[k] % 2 == 1))
  {
    ToggleRowsMap(s, rows);
    TogglesParity(s.checked, Ids(rows), k);
  }

  lemma {:induction false} ToggleRowsMap(s: State, rows: seq<Artwork>)
    ensures ToggleRows(s, rows).checked == Toggles(s.checked, Ids(rows))
  {
    if |rows| > 0 {
      var init := rows[..|rows| - 1];
      ToggleRowsMap(s, init);
      assert Ids(rows)[..|rows| - 1] == Ids(init);
    }
  }

  /** Toggling the same row twice restores every id's checked state and the
      shown rows; the header box then says whether every shown row is checked. */
  lemma CheckboxTwice(s: State, row: Artwork)
    ensures var r := HandleCheckboxChange(HandleCheckboxChange(s, row), row);
      && (forall k :: IsChecked(r.checked, k) == IsChecked(s.checked, k))
      && r.data == s.data
      && (r.selectAll <==> AllChecked(Ids(s.data), s.checked))
  {
  }

  /** Select-all twice restores the header box but not the selection: every
      shown id ends up with the original header value, whatever it was
      before, and ids of other pages are gone. */
  lemma SelectAllTwice(s: State)
    ensures var r := HandleSelectAll(HandleSelectAll(s));
      && r.selectAll == s.selectAll
      && (forall k :: k in r.checked <==> k in Ids(s.data))
      && forall k | k in r.checked :: r.checked[k] == s.selectAll
  {
  }

  /** After select-all the header box agrees with "every shown row is
      checked" exactly when it was just ticked or the page is not empty:
      unticking it on an empty page leaves the box unticked although
      `every` over no rows is true. */
  lemma SelectAllHeaderConsistent(s: State)
    ensures var r := HandleSelectAll(s);
      (r.selectAll == AllChecked(Ids(r.data), r.checked)) <==> (r.selectAll || |s.data| > 0)
  {
    var r := HandleSelectAll(s);
    if r.selectAll {
      forall i | 0 <= i < |r.data| ensures IsChecked(r.checked, Ids(r.data)[i]) {
        assert Ids(r.data)[i] == s.data[i].id by { assert Ids(r.data)[i] == Ids(s.data)[i]; }
      }
    } else if |s.data| > 0 {
      assert Ids(r.data)[0] == s.data[0].id by { assert Ids(r.data)[0] == Ids(s.data)[0]; }
      assert !IsChecked(r.checked, Ids(r.data)[0]);
    }
  }

  /** With duplicate-free pages, a bulk select of `n` rows that returns has
      newly checked exactly `n` ids, and never unchecked any. */
  lemma SelectRowsCount(s: State, pages: nat -> seq<int>, n: int, fuel: nat)
    requires n > 0
    requires forall q: nat :: Distinct(pages(q))
    requires HandleSelectRows(s, pages, Number(n), fuel).Settled?
    ensures var r := HandleSelectRows(s, pages, Number(n), fuel).state;
      |Newly(s.checked, r.checked)| == n && OnlyChecks(s.checked, r.checked)
  {
    LoopSelectsExactly(pages, s.currentPage, n, s.checked, fuel);
  }

  /** With pages free of repeated ids, a bulk select of N returns within
      `fuel` pages exactly when the current page and the pages after it, up
      to the bound, hold at least N ids that were unchecked when it started. */
  lemma SelectRowsReturnsIff(s: State, pages: nat -> seq<int>, n: int, fuel: nat)
    requires n > 0
    requires forall q: nat :: Distinct(pages(q))
    ensures HandleSelectRows(s, pages, Number(n), fuel).Settled?
      <==> n <= |Available(pages, s.currentPage, fuel, s.checked)|
  {
    LoopOutOfFuelIff(pages, s.currentPage, n, s.checked, fuel);
    LoopStopsIff(pages, s.currentPage, n, s.checked, fuel);
  }

  /** A bigger page bound never changes what a returning bulk select does. */
  lemma SelectRowsFuel(s: State, pages: nat -> seq<int>, input: Parsed, fuel: nat, fuel': nat)
    requires fuel <= fuel'
    requires HandleSelectRows(s, pages, input, fuel).Settled?
    ensures HandleSelectRows(s, pages, input, fuel') == HandleSelectRows(s, pages, input, fuel)
  {
    if input.Number? && input.value > 0 {
      LoopFuelIrrelevant(pages, s.currentPage, input.value, s.checked, fuel, fuel');
    }
  }

  /** The render after a bulk select: when it moved to another page the
      effect reloads that page from the new map; when it stayed on the
      same page the rows keep the flags of the old map and the header box
      keeps its old value. */
  lemma SelectRowsThenRender(s: State, pages: nat -> seq<int>, n: int, fuel: nat)
    requires n > 0
    requires HandleSelectRows(s, pages, Number(n), fuel).Settled?
    ensures var t := HandleSelectRows(s, pages, Number(n), fuel).state;
      var r := PageEffect(s, t, pages);
      && r.checked == t.checked
      && (t.currentPage != s.currentPage ==>
            FlagsAgree(r.data, t.checked) && (r.selectAll <==> AllChecked(Ids(r.data), t.checked)))
      && (t.currentPage == s.currentPage ==>
            FlagsAgree(r.data, s.checked) && r.selectAll == s.selectAll)
  {
  }

  /** The staleness is visible: on a one-row page nothing is checked, a
      bulk select of 1 checks the row, yet the shown row still says
      unchecked; the page does not change, so the effect reloads nothing,
      and the header box stays unticked although every shown row is checked. */
  lemma StaleFlagsExample()
    ensures var pages := (q: nat) => [7];
      var s := State([Artwork(7, false)], 1, map[], false);
      var r := HandleSelectRows(s, pages, Number(1), 1);
      && r.Settled?
      && IsChecked(r.state.checked, 7)
      && r.state.data == [Artwork(7, false)]
      && PageEffect(s, r.state, pages) == r.state
      && !r.state.selectAll
      && AllChecked(Ids(r.state.data), r.state.checked)
  {
  }
}
