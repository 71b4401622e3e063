/**
 The bulk selector behind the "select N rows" form: starting at the current
 page it walks pages in increasing order, checks the first still-unchecked
 rows of each page in source order, and carries the remainder to the next
 page until the remainder reaches 0.

 Page fetching is abstracted to a total function from page number to the
 page's ids. The source loop has no bound on the pages it visits, so the
 model bounds it by `fuel`, a number of pages; `Walk` is the unbounded
 reference run the bounded loop is proved against.
 */
module BulkSelect {
  import opened Selection

  /** What one pass of the loop body does: the accumulating map after the
      marking, and `toSelect`, the number of rows it marked. */
  datatype Step = Step(checked: CheckedRows, take: nat)

  /** The remainder still to select and the accumulating map. */
  datatype Progress = Progress(checked: CheckedRows, remaining: nat)

  /** The loop's outcome: it stopped on `page`, whose ids are `rows`, or it
      was still looking when the fuel ran out. */
  datatype Run = Stopped(checked: CheckedRows, page: nat, rows: seq<int>) | OutOfFuel

  /** One page of the loop: filter out the rows already checked in the
      accumulating map, take `min(remaining, |eligible|)` of them and mark
      those, in source order. */
  function PageStep(ids: seq<int>, m: CheckedRows, remaining: nat): (r: Step)
    ensures r.take <= remaining && r.take <= |Unchecked(ids, m)|
    ensures r.take == remaining || r.take == |Unchecked(ids, m)|
    ensures OnlyChecks(m, r.checked)
  {
    var eligible := Unchecked(ids, m);
    var take := if remaining < |eligible| then remaining else |eligible|;
    Step(MarkChecked(m, eligible[..take]), take)
  }

  /** The state after visiting `k` pages from `page` on, with no stopping
      test: once the remainder is 0 a page takes nothing. */
  function Walk(pages: nat -> seq<int>, page: nat, remaining: nat, m: CheckedRows, k: nat): (r: Progress)
    ensures r.remaining <= remaining
    ensures OnlyChecks(m, r.checked)
    decreases k
  {
    if k == 0 then Progress(m, remaining)
    else
      var st := PageStep(pages(page), m, remaining);
      Walk(pages, page + 1, remaining - st.take, st.checked, k - 1)
  }

  /** `while (remaining > 0)` with at most `fuel` passes. On stopping it
      reports the page it stopped on and that page's ids, which the handler
      shows as the table's data. */
  function Loop(pages: nat -> seq<int>, page: nat, remaining: nat, m: CheckedRows, fuel: nat): (r: Run)
    requires remaining > 0
    ensures r.Stopped? ==> page <= r.page < page + fuel && r.rows == pages(r.page)
    ensures r.Stopped? ==> OnlyChecks(m, r.checked)
    decreases fuel
  {
    if fuel == 0 then OutOfFuel
    else
      var st := PageStep(pages(page), m, remaining);
      if remaining - st.take > 0 then Loop(pages, page + 1, remaining - st.take, st.checked, fuel - 1)
      else Stopped(st.checked, page, pages(page))
  }

  /** Once the remainder is 0, further pages change nothing. */
  lemma {:induction false} WalkStaysDone(pages: nat -> seq<int>, page: nat, remaining: nat, m: CheckedRows, k: nat, k': nat)
    requires k <= k'
    requires Walk(pages, page, remaining, m, k).remaining == 0
    ensures Walk(pages, page, remaining, m, k') == Walk(pages, page, remaining, m, k)
    decreases k
  {
    if k == 0 {
      ZeroWalk(pages, page, m, k');
    } else {
      var st := PageStep(pages(page), m, remaining);
      var r': nat := remaining - st.take;
      assert Walk(pages, page, remaining, m, k) == Walk(pages, page + 1, r', st.checked, k - 1);
      assert Walk(pages, page, remaining, m, k') == Walk(pages, page + 1, r', st.checked, k' - 1);
      WalkStaysDone(pages, page + 1, r', st.checked, k - 1, k' - 1);
    }
  }

  /** A page checks exactly the first `take` of its eligible rows on top of
      what was checked; and if it leaves a remainder, it has checked every
      row of the page. */
  lemma PageStepMarks(ids: seq<int>, m: CheckedRows, remaining: nat)
    ensures var r := PageStep(ids, m, remaining);
      forall k :: IsChecked(r.checked, k) <==> IsChecked(m, k) || k in Unchecked(ids, m)[..r.take]
    ensures var r := PageStep(ids, m, remaining);
      r.take < remaining ==> AllChecked(ids, r.checked)
  {
    var eligible := Unchecked(ids, m);
    var r := PageStep(ids, m, remaining);
    MarkCheckedEffect(m, eligible[..r.take]);
    if r.take < remaining {
      UncheckedMembers(ids, m);
      assert eligible[..r.take] == eligible;
    }
  }

  /** A walk with nothing left to select leaves the map alone. */
  lemma {:induction false} ZeroWalk(pages: nat -> seq<int>, page: nat, m: CheckedRows, k: nat)
    ensures Walk(pages, page, 0, m, k) == Progress(m, 0)
    decreases k
  {
    if k > 0 {
      assert PageStep(pages(page), m, 0).checked == m;
      ZeroWalk(pages, page + 1, m, k - 1);
    }
  }

  /** The remainder never grows from one page to the next. */
  lemma {:induction false} WalkRemainingShrinks(pages: nat -> seq<int>, page: nat, remaining: nat, m: CheckedRows, k: nat, k': nat)
    requires k <= k'
    ensures Walk(pages, page, remaining, m, k').remaining <= Walk(pages, page, remaining, m, k).remaining
    decreases k
  {
    if k > 0 {
      var st := PageStep(pages(page), m, remaining);
      assert st.take <= remaining;
      var r' : nat := remaining - st.take;
      WalkRemainingShrinks(pages, page + 1, r', st.checked, k - 1, k' - 1);
      assert Walk(pages, page, remaining, m, k) == Walk(pages, page + 1, r', st.checked, k - 1);
      assert Walk(pages, page, remaining, m, k') == Walk(pages, page + 1, r', st.checked, k' - 1);
    }
  }

  /** The loop stops on the first page after which the reference walk's
      remainder is 0, with the walk's map. */
  lemma LoopStopsWhereWalkEnds(pages: nat -> seq<int>, page: nat, remaining: nat, m: CheckedRows, fuel: nat)
    requires remaining > 0
    requires Loop(pages, page, remaining, m, fuel).Stopped?
    ensures var r := Loop(pages, page, remaining, m, fuel);
      && Walk(pages, page, remaining, m, r.page - page + 1) == Progress(r.checked, 0)
      && Walk(pages, page, remaining, m, r.page - page).remaining > 0
  {
    LoopStopsWalkDone(pages, page, remaining, m, fuel);
    LoopStopsWalkNotDone(pages, page, remaining, m, fuel);
  }

  /** The walk through the page the loop stops on ends with the loop's map
      and nothing left to select. */
  lemma {:induction false} LoopStopsWalkDone(pages: nat -> seq<int>, page: nat, remaining: nat, m: CheckedRows, fuel: nat)
    requires remaining > 0
    requires Loop(pages, page, remaining, m, fuel).Stopped?
    ensures var r := Loop(pages, page, remaining, m, fuel);
      Walk(pages, page, remaining, m, r.page - page + 1) == Progress(r.checked, 0)
    decreases fuel
  {
    var st := PageStep(pages(page), m, remaining);
    var r': nat := remaining - st.take;
    var run := Loop(pages, page, remaining, m, fuel);
    if r' > 0 {
      assert run == Loop(pages, page + 1, r', st.checked, fuel - 1);
      LoopStopsWalkDone(pages, page + 1, r', st.checked, fuel - 1);
      var k := run.page - page;
      assert Walk(pages, page, remaining, m, k + 1) == Walk(pages, page + 1, r', st.checked, k);
    } else {
      assert run == Stopped(st.checked, page, pages(page));
      assert Walk(pages, page, remaining, m, 1) == Walk(pages, page + 1, 0, st.checked, 0);
    }
  }

  /** The walk up to, but not through, the page the loop stops on still has
      rows to select. */
  lemma {:induction false} LoopStopsWalkNotDone(pages: nat -> seq<int>, page: nat, remaining: nat, m: CheckedRows, fuel: nat)
    requires remaining > 0
    requires Loop(pages, page, remaining, m, fuel).Stopped?
    ensures var r := Loop(pages, page, remaining, m, fuel);
      Walk(pages, page, remaining, m, r.page - page).remaining > 0
    decreases fuel
  {
    var st := PageStep(pages(page), m, remaining);
    var r': nat := remaining - st.take;
    var run := Loop(pages, page, remaining, m, fuel);
    if r' > 0 {
      assert run == Loop(pages, page + 1, r', st.checked, fuel - 1);
      LoopStopsWalkNotDone(pages, page + 1, r', st.checked, fuel - 1);
      var k := run.page - page;
      assert k > 0;
      assert Walk(pages, page, remaining, m, k) == Walk(pages, page + 1, r', st.checked, k - 1);
    } else {
      assert run.page == page;
    }
  }

  /** The loop runs out of fuel exactly when the reference walk over `fuel`
      pages still has rows to select. */
  lemma {:induction false} LoopOutOfFuelIff(pages: nat -> seq<int>, page: nat, remaining: nat, m: CheckedRows, fuel: nat)
    requires remaining > 0
    ensures Loop(pages, page, remaining, m, fuel).OutOfFuel? <==> Walk(pages, page, remaining, m, fuel).remaining > 0
    decreases fuel
  {
    if fuel > 0 {
      var st := PageStep(pages(page), m, remaining);
      var r': nat := remaining - st.take;
      assert Walk(pages, page, remaining, m, fuel) == Walk(pages, page + 1, r', st.checked, fuel - 1);
      if r' > 0 {
        assert Loop(pages, page, remaining, m, fuel) == Loop(pages, page + 1, r', st.checked, fuel - 1);
        LoopOutOfFuelIff(pages, page + 1, r', st.checked, fuel - 1);
      } else {
        ZeroWalk(pages, page + 1, st.checked, fuel - 1);
      }
    }
  }

  /** The fuel bound only decides whether the loop is seen to stop, never
      where it stops or what it selects. */
  lemma {:induction false} LoopFuelIrrelevant(pages: nat -> seq<int>, page: nat, remaining: nat, m: CheckedRows, fuel: nat, fuel': nat)
    requires remaining > 0 && fuel <= fuel'
    requires Loop(pages, page, remaining, m, fuel).Stopped?
    ensures Loop(pages, page, remaining, m, fuel') == Loop(pages, page, remaining, m, fuel)
    decreases fuel
  {
    var st := PageStep(pages(page), m, remaining);
    var r': nat := remaining - st.take;
    if r' > 0 {
      assert Loop(pages, page, remaining, m, fuel) == Loop(pages, page + 1, r', st.checked, fuel - 1);
      assert Loop(pages, page, remaining, m, fuel') == Loop(pages, page + 1, r', st.checked, fuel' - 1);
      LoopFuelIrrelevant(pages, page + 1, r', st.checked, fuel - 1, fuel' - 1);
    }
  }

  /** With duplicate-free pages, the ids a page newly checks number exactly
      the rows it took. */
  lemma PageStepCount(ids: seq<int>, m: CheckedRows, remaining: nat)
    requires Distinct(ids)
    ensures |Newly(m, PageStep(ids, m, remaining).checked)| == PageStep(ids, m, remaining).take
  {
    var eligible := Unchecked(ids, m);
    var st := PageStep(ids, m, remaining);
    var chosen := eligible[..st.take];
    UncheckedDistinct(ids, m);
    UncheckedMembers(ids, m);
    assert Distinct(chosen);
    assert forall i | 0 <= i < |chosen| :: chosen[i] in eligible;
    MarkCheckedNewly(m, chosen);
    DistinctCard(chosen);
  }

  /** The loop's counting invariant: with duplicate-free pages, the ids newly
      checked so far plus the remainder always equal the requested count. */
  lemma {:induction false} WalkCount(pages: nat -> seq<int>, page: nat, remaining: nat, m: CheckedRows, k: nat)
    requires forall q: nat :: Distinct(pages(q))
    ensures |Newly(m, Walk(pages, page, remaining, m, k).checked)| + Walk(pages, page, remaining, m, k).remaining == remaining
    decreases k
  {
    if k > 0 {
      var st := PageStep(pages(page), m, remaining);
      var r': nat := remaining - st.take;
      var w := Walk(pages, page + 1, r', st.checked, k - 1);
      assert Walk(pages, page, remaining, m, k) == w;
      WalkCount(pages, page + 1, r', st.checked, k - 1);
      PageStepCount(pages(page), m, remaining);
      NewlyChain(m, st.checked, w.checked);
    }
  }

  /** With duplicate-free pages, a loop that stops has newly checked exactly
      the requested number of ids. */
  lemma LoopSelectsExactly(pages: nat -> seq<int>, page: nat, n: nat, m: CheckedRows, fuel: nat)
    requires n > 0
    requires forall q: nat :: Distinct(pages(q))
    requires Loop(pages, page, n, m, fuel).Stopped?
    ensures |Newly(m, Loop(pages, page, n, m, fuel).checked)| == n
  {
    var r := Loop(pages, page, n, m, fuel);
    LoopStopsWhereWalkEnds(pages, page, n, m, fuel);
    WalkCount(pages, page, n, m, r.page - page + 1);
  }

  /** When the start page alone has enough unchecked rows, the loop stops
      there, having checked the first `n` of them. */
  lemma StopsOnStartPage(pages: nat -> seq<int>, page: nat, n: nat, m: CheckedRows, fuel: nat)
    requires 0 < n <= |Unchecked(pages(page), m)|
    requires fuel > 0
    ensures Loop(pages, page, n, m, fuel)
      == Stopped(MarkChecked(m, Unchecked(pages(page), m)[..n]), page, pages(page))
  {
  }

  /** When the start page has only `k < n` unchecked rows and the next page
      has at least `n - k` rows unchecked after that, the loop checks all of
      the first page's and the first `n - k` of the next page's, and stops on
      the next page. */
  lemma SpillsToNextPage(pages: nat -> seq<int>, page: nat, n: nat, m: CheckedRows, fuel: nat)
    requires |Unchecked(pages(page), m)| < n
    requires n - |Unchecked(pages(page), m)|
      <= |Unchecked(pages(page + 1), MarkChecked(m, Unchecked(pages(page), m)))|
    requires fuel > 1
    ensures var m1 := MarkChecked(m, Unchecked(pages(page), m));
      var rest := n - |Unchecked(pages(page), m)|;
      Loop(pages, page, n, m, fuel)
        == Stopped(MarkChecked(m1, Unchecked(pages(page + 1), m1)[..rest]), page + 1, pages(page + 1))
  {
    var e := Unchecked(pages(page), m);
    assert e[..|e|] == e;
  }

  /** The ids on the `k` pages from `page` on. */
  function Seen(pages: nat -> seq<int>, page: nat, k: nat): set<int>
    decreases k
  {
    if k == 0 then {} else (set x | x in pages(page)) + Seen(pages, page + 1, k - 1)
  }

  /** The ids on those pages that `m` leaves unchecked: what a bulk select
      over them has to choose from. */
  function Available(pages: nat -> seq<int>, page: nat, k: nat, m: CheckedRows): set<int> {
    set x | x in Seen(pages, page, k) && !IsChecked(m, x)
  }

  lemma {:induction false} SeenGrows(pages: nat -> seq<int>, page: nat, k: nat, k': nat)
    requires k <= k'
    ensures Seen(pages, page, k) <= Seen(pages, page, k')
    decreases k
  {
    if k > 0 {
      SeenGrows(pages, page + 1, k - 1, k' - 1);
    }
  }

  lemma SubsetCard(a: set<int>, b: set<int>)
    requires a <= b
    ensures |a| <= |b|
  {
    assert b == a + (b - a);
    assert a * (b - a) == {};
  }

  /** A walk that still has rows to select has checked every id of every
      page it visited. */
  lemma {:induction false} WalkExhausts(pages: nat -> seq<int>, page: nat, remaining: nat, m: CheckedRows, k: nat)
    requires Walk(pages, page, remaining, m, k).remaining > 0
    ensures forall x | x in Seen(pages, page, k) :: IsChecked(Walk(pages, page, remaining, m, k).checked, x)
    decreases k
  {
    if k > 0 {
      var st := PageStep(pages(page), m, remaining);
      var r': nat := remaining - st.take;
      var w := Walk(pages, page + 1, r', st.checked, k - 1);
      assert Walk(pages, page, remaining, m, k) == w;
      WalkExhausts(pages, page + 1, r', st.checked, k - 1);
      PageStepMarks(pages(page), m, remaining);
      forall x | x in pages(page) ensures IsChecked(w.checked, x) {
        var i :| 0 <= i < |pages(page)| && pages(page)[i] == x;
        assert IsChecked(st.checked, pages(page)[i]);
      }
    }
  }

  /** A walk checks nothing outside the pages it visited. */
  lemma {:induction false} WalkChecksOnlySeen(pages: nat -> seq<int>, page: nat, remaining: nat, m: CheckedRows, k: nat)
    ensures forall x | IsChecked(Walk(pages, page, remaining, m, k).checked, x) :: IsChecked(m, x) || x in Seen(pages, page, k)
    decreases k
  {
    if k > 0 {
      var st := PageStep(pages(page), m, remaining);
      var r': nat := remaining - st.take;
      var w := Walk(pages, page + 1, r', st.checked, k - 1);
      assert Walk(pages, page, remaining, m, k) == w;
      WalkChecksOnlySeen(pages, page + 1, r', st.checked, k - 1);
      PageStepMarks(pages(page), m, remaining);
      UncheckedMembers(pages(page), m);
      forall x | IsChecked(st.checked, x) && !IsChecked(m, x) ensures x in pages(page) {
        assert x in Unchecked(pages(page), m)[..st.take];
      }
    }
  }

  /** With pages free of repeated ids, the loop stops within `fuel` pages
      exactly when those pages hold at least `n` ids unchecked at the start. */
  lemma LoopStopsIff(pages: nat -> seq<int>, page: nat, n: nat, m: CheckedRows, fuel: nat)
    requires n > 0
    requires forall q: nat :: Distinct(pages(q))
    ensures Loop(pages, page, n, m, fuel).Stopped? <==> n <= |Available(pages, page, fuel, m)|
  {
    LoopOutOfFuelIff(pages, page, n, m, fuel);
    var run := Loop(pages, page, n, m, fuel);
    if run.Stopped? {
      var k := run.page - page + 1;
      LoopStopsWhereWalkEnds(pages, page, n, m, fuel);
      WalkCount(pages, page, n, m, k);
      WalkChecksOnlySeen(pages, page, n, m, k);
      SeenGrows(pages, page, k, fuel);
      SubsetCard(Newly(m, run.checked), Available(pages, page, fuel, m));
    } else {
      var w := Walk(pages, page, n, m, fuel);
      WalkCount(pages, page, n, m, fuel);
      WalkExhausts(pages, page, n, m, fuel);
      SubsetCard(Available(pages, page, fuel, m), Newly(m, w.checked));
    }
  }

  /** When no page from `page` on has an unchecked row, the loop never
      stops, whatever the page budget: each page takes nothing and the
      remainder stays where it was. */
  lemma {:induction false} NeverStops(pages: nat -> seq<int>, page: nat, n: nat, m: CheckedRows, fuel: nat)
    requires n > 0
    requires forall q: nat | q >= page :: Unchecked(pages(q), m) == []
    ensures Loop(pages, page, n, m, fuel).OutOfFuel?
    decreases fuel
  {
    if fuel > 0 {
      var st := PageStep(pages(page), m, n);
      assert st.checked == m;
      NeverStops(pages, page + 1, n, m, fuel - 1);
    }
  }

  /** The marking `for` loop of one page: writes `true` for the first
      `count` ids of `selectable`, in order. */
  method MarkFirst(m: CheckedRows, selectable: seq<int>, count: nat) returns (r: CheckedRows)
    requires count <= |selectable|
    ensures r == MarkChecked(m, selectable[..count])
  {
    r := m;
    var i := 0;
    while i < count
      invariant 0 <= i <= count
      invariant r == MarkChecked(m, selectable[..i])
    {
      assert selectable[..i + 1][..i] == selectable[..i];
      r := r[selectable[i] := true];
      i := i + 1;
    }
  }

  /** The imperative loop of the handler, run for at most `fuel` pages. It
      agrees with the reference walk: when it finishes, the walk up to and
      including `page` has selected everything and the walk before it had
      not; when it does not, the walk over `fuel` pages still has rows to
      select. */
  method SelectRowsLoop(pages: nat -> seq<int>, start: nat, n: nat, m0: CheckedRows, fuel: nat)
    returns (checked: CheckedRows, page: nat, rows: seq<int>, finished: bool)
    requires n > 0
    ensures finished ==> start <= page < start + fuel && rows == pages(page)
    ensures finished ==> Walk(pages, start, n, m0, page - start + 1) == Progress(checked, 0)
    ensures finished ==> Walk(pages, start, n, m0, page - start).remaining > 0
    ensures !finished <==> Walk(pages, start, n, m0, fuel).remaining > 0
  {
    var remaining: nat := n;
    page := start;
    checked := m0;
    rows := [];
    var left: nat := fuel;
    while remaining > 0 && left > 0
      invariant remaining > 0 ==> Loop(pages, page, remaining, checked, left) == Loop(pages, start, n, m0, fuel)
      invariant remaining == 0 ==> Loop(pages, start, n, m0, fuel) == Stopped(checked, page, rows)
      decreases left
    {
      ghost var before := Loop(pages, page, remaining, checked, left);
      rows := pages(page);
      var selectable := Unchecked(rows, checked);
      var toSelect: nat := if remaining < |selectable| then remaining else |selectable|;
      ghost var st := PageStep(rows, checked, remaining);
      assert st == Step(MarkChecked(checked, selectable[..toSelect]), toSelect);
      checked := MarkFirst(checked, selectable, toSelect);
      remaining := remaining - toSelect;
      left := left - 1;
      if remaining > 0 {
        assert before == Loop(pages, page + 1, remaining, checked, left);
        page := page + 1;
      } else {
        assert before == Stopped(checked, page, rows);
      }
    }
    finished := remaining == 0;
    if !finished {
      assert Loop(pages, page, remaining, checked, left) == OutOfFuel;
    }
    LoopOutOfFuelIff(pages, start, n, m0, fuel);
    if finished {
      LoopStopsWhereWalkEnds(pages, start, n, m0, fuel);
    }
  }
}
