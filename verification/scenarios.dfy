/**
 Two worked runs of the bulk selector on twelve-row pages: one that is
 satisfied on the start page, and one that spills over to the next page.
 */
module Scenarios {
  import opened Selection
  import opened Rows
  import opened BulkSelect
  import opened App

  /** The ids `lo, lo + 1, ..., hi - 1`. */
  function Range(lo: int, hi: int): (r: seq<int>)
    requires lo <= hi
    ensures |r| == hi - lo
    ensures forall i | 0 <= i < |r| :: r[i] == lo + i
  {
    seq(hi - lo, i requires 0 <= i < hi - lo => lo + i)
  }

  lemma RangeMembers(lo: int, hi: int)
    requires lo <= hi
    ensures forall k :: k in Range(lo, hi) <==> lo <= k < hi
  {
    forall k | lo <= k < hi ensures k in Range(lo, hi) {
      assert Range(lo, hi)[k - lo] == k;
    }
  }

  lemma RangeSplit(lo: int, mid: int, hi: int)
    requires lo <= mid <= hi
    ensures Range(lo, hi)[..mid - lo] == Range(lo, mid)
    ensures Range(lo, hi) == Range(lo, mid) + Range(mid, hi)
  {
  }

  /** Page 1 holds the twelve ids from `b` on, page 2 the twelve after
      those, later pages nothing. */
  function TwoPages(b: int): nat -> seq<int> {
    (q: nat) => if q == 1 then Range(b, b + 12) else if q == 2 then Range(b + 12, b + 24) else []
  }

  /** Nothing checked, page 1 shown, five rows requested, any page bound:
      the first five ids of page 1 are checked, its other seven are not, and
      the table stays on page 1. */
  lemma FiveFromFreshPage(b: int, fuel: nat)
    requires fuel > 0
    ensures var s := State(Annotate(Range(b, b + 12), map[]), 1, map[], false);
      var r := HandleSelectRows(s, TwoPages(b), Number(5), fuel);
      && r.Settled?
      && r.state.currentPage == 1
      && forall k | b <= k < b + 12 :: IsChecked(r.state.checked, k) <==> k < b + 5
  {
    var p1 := Range(b, b + 12);
    var s := State(Annotate(p1, map[]), 1, map[], false);
    var c := MarkChecked(map[], Range(b, b + 5));
    assert HandleSelectRows(s, TwoPages(b), Number(5), fuel) == Settled(s.(checked := c)) by {
      UncheckedExtremes(p1, map[]);
      RangeSplit(b, b + 5, b + 12);
      StopsOnStartPage(TwoPages(b), 1, 5, map[], fuel);
    }
    forall k | b <= k < b + 12 ensures IsChecked(c, k) <==> k < b + 5 {
      MarkCheckedEffect(map[], Range(b, b + 5));
      RangeMembers(b, b + 5);
    }
  }

  /** The map with the first ten ids of page 1 checked. */
  function FirstTenChecked(b: int): CheckedRows {
    MarkChecked(map[], Range(b, b + 10))
  }

  /** With the first ten ids checked, page 1 has its last two ids eligible. */
  lemma SpillFirstPage(b: int)
    ensures Unchecked(Range(b, b + 12), FirstTenChecked(b)) == Range(b + 10, b + 12)
  {
    var m := FirstTenChecked(b);
    RangeSplit(b, b + 10, b + 12);
    RangeMembers(b, b + 10);
    RangeMembers(b + 10, b + 12);
    MarkCheckedEffect(map[], Range(b, b + 10));
    UncheckedAppend(Range(b, b + 10), Range(b + 10, b + 12), m);
    UncheckedExtremes(Range(b, b + 10), m);
    UncheckedExtremes(Range(b + 10, b + 12), m);
  }

  /** After page 1 is exhausted, every id of page 2 is eligible. */
  lemma SpillSecondPage(b: int)
    ensures var m1 := MarkChecked(FirstTenChecked(b), Range(b + 10, b + 12));
      Unchecked(Range(b + 12, b + 24), m1) == Range(b + 12, b + 24)
  {
    var m := FirstTenChecked(b);
    var m1 := MarkChecked(m, Range(b + 10, b + 12));
    RangeMembers(b, b + 10);
    RangeMembers(b + 10, b + 12);
    RangeMembers(b + 12, b + 24);
    MarkCheckedEffect(map[], Range(b, b + 10));
    MarkCheckedEffect(m, Range(b + 10, b + 12));
    UncheckedExtremes(Range(b + 12, b + 24), m1);
  }

  /** The bulk-select loop for the spill-over scenario. */
  lemma SpillRun(b: int, fuel: nat)
    requires fuel > 1
    ensures Loop(TwoPages(b), 1, 5, FirstTenChecked(b), fuel)
      == Stopped(MarkChecked(MarkChecked(FirstTenChecked(b), Range(b + 10, b + 12)), Range(b + 12, b + 15)),
                 2, Range(b + 12, b + 24))
  {
    SpillFirstPage(b);
    SpillSecondPage(b);
    RangeSplit(b + 12, b + 15, b + 24);
    SpillsToNextPage(TwoPages(b), 1, 5, FirstTenChecked(b), fuel);
  }

  /** The first ten ids of page 1 already checked, page 1 shown, five rows
      requested: the last two ids of page 1 and the first three of page 2
      are checked, and the table moves to page 2. */
  lemma FiveSpillingToPageTwo(b: int, fuel: nat)
    requires fuel > 1
    ensures var m := FirstTenChecked(b);
      var s := State(Annotate(Range(b, b + 12), m), 1, m, false);
      var r := HandleSelectRows(s, TwoPages(b), Number(5), fuel);
      && r.Settled?
      && r.state.currentPage == 2
      && forall k | b <= k < b + 24 :: IsChecked(r.state.checked, k) <==> k < b + 15
  {
    var m := FirstTenChecked(b);
    var s := State(Annotate(Range(b, b + 12), m), 1, m, false);
    var m1 := MarkChecked(m, Range(b + 10, b + 12));
    var c := MarkChecked(m1, Range(b + 12, b + 15));
    SpillRun(b, fuel);
    assert HandleSelectRows(s, TwoPages(b), Number(5), fuel)
      == Settled(s.(checked := c, currentPage := 2, data := Annotate(Range(b + 12, b + 24), m)));
    SpillChecks(b);
  }

  /** Which ids the spill-over scenario leaves checked. */
  lemma SpillChecks(b: int)
    ensures var c := MarkChecked(MarkChecked(FirstTenChecked(b), Range(b + 10, b + 12)), Range(b + 12, b + 15));
      forall k | b <= k < b + 24 :: IsChecked(c, k) <==> k < b + 15
  {
    var m := FirstTenChecked(b);
    var m1 := MarkChecked(m, Range(b + 10, b + 12));
    RangeMembers(b, b + 10);
    RangeMembers(b + 10, b + 12);
    RangeMembers(b + 12, b + 15);
    MarkCheckedEffect(map[], Range(b, b + 10));
    MarkCheckedEffect(m, Range(b + 10, b + 12));
    MarkCheckedEffect(m1, Range(b + 12, b + 15));
  }
}
