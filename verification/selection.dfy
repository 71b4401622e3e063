/**
 The selection map of the artwork table: a map from record id to its
 "checked" flag. A key that is absent reads as unchecked, because indexing a
 JavaScript object with an id never written yields `undefined`, which is falsy.
 */
module Selection {

  type CheckedRows = map<int, bool>

  /** `checkedRows[id]` read as a truth value: an absent id is unchecked. */
  predicate IsChecked(m: CheckedRows, id: int) {
    id in m && m[id]
  }

  /** `ids.every(id => checkedRows[id])`: vacuously true for an empty page. */
  predicate AllChecked(ids: seq<int>, m: CheckedRows) {
    forall i | 0 <= i < |ids| :: IsChecked(m, ids[i])
  }

  predicate Distinct(s: seq<int>) {
    forall i, j | 0 <= i < j < |s| :: s[i] != s[j]
  }

  /** `after` arises from `before` by writing only `true`: no key is removed,
      and a key that reads false afterwards was present and false before. */
  predicate OnlyChecks(before: CheckedRows, after: CheckedRows) {
    && before.Keys <= after.Keys
    && forall k | k in after && !after[k] :: k in before && !before[k]
  }

  /** The ids checked in `after` that were not checked in `before`. */
  function Newly(before: CheckedRows, after: CheckedRows): set<int> {
    set k | k in after && after[k] && !IsChecked(before, k)
  }

  /** The rows of a page still eligible for selection, in source order: the
      `filter((row) => !checked[row.id])` of the bulk selector. */
  function Unchecked(ids: seq<int>, m: CheckedRows): (r: seq<int>)
    ensures |r| <= |ids|
  {
    if |ids| == 0 then []
    else (if IsChecked(m, ids[0]) then [] else [ids[0]]) + Unchecked(ids[1..], m)
  }

  /** Writes `true` for each id of `ids` in turn, as the marking `for` loop does. */
  function MarkChecked(m: CheckedRows, ids: seq<int>): (r: CheckedRows)
    ensures OnlyChecks(m, r)
  {
    if |ids| == 0 then m
    else MarkChecked(m, ids[..|ids| - 1])[ids[|ids| - 1] := true]
  }

  /** `{ ...checkedRows, [id]: !checkedRows[id] }`: the single-row toggle. */
  function Flip(m: CheckedRows, id: int): (r: CheckedRows)
    ensures IsChecked(r, id) == !IsChecked(m, id)
    ensures r.Keys == m.Keys + {id}
    ensures forall k | k in m && k != id :: r[k] == m[k]
  {
    m[id := !IsChecked(m, id)]
  }

  /** The map after the row toggles `ts`, applied first to last. */
  function Toggles(m: CheckedRows, ts: seq<int>): CheckedRows {
    if |ts| == 0 then m else Flip(Toggles(m, ts[..|ts| - 1]), ts[|ts| - 1])
  }

  /** The filter keeps exactly the page's ids that are not checked. */
  lemma {:induction false} UncheckedMembers(ids: seq<int>, m: CheckedRows)
    ensures forall x :: x in Unchecked(ids, m) <==> x in ids && !IsChecked(m, x)
  {
    if |ids| > 0 {
      UncheckedMembers(ids[1..], m);
      assert ids == [ids[0]] + ids[1..];
    }
  }

  /** The filter distributes over concatenation of pages. */
  lemma {:induction false} UncheckedAppend(a: seq<int>, b: seq<int>, m: CheckedRows)
    ensures Unchecked(a + b, m) == Unchecked(a, m) + Unchecked(b, m)
  {
    if |a| > 0 {
      assert (a + b)[1..] == a[1..] + b;
      UncheckedAppend(a[1..], b, m);
    } else {
      assert a + b == b;
    }
  }

  /** With nothing on the page checked, every row is eligible; with
      everything checked, none is. */
  lemma {:induction false} UncheckedExtremes(ids: seq<int>, m: CheckedRows)
    ensures (forall i | 0 <= i < |ids| :: !IsChecked(m, ids[i])) ==> Unchecked(ids, m) == ids
    ensures AllChecked(ids, m) ==> Unchecked(ids, m) == []
  {
    if |ids| > 0 {
      UncheckedExtremes(ids[1..], m);
      assert ids == [ids[0]] + ids[1..];
    }
  }

  /** Marking adds the marked ids as keys and checks exactly them on top of
      what was checked before. */
  lemma {:induction false} MarkCheckedEffect(m: CheckedRows, ids: seq<int>)
    ensures MarkChecked(m, ids).Keys == m.Keys + set x | x in ids
    ensures forall k :: IsChecked(MarkChecked(m, ids), k) <==> IsChecked(m, k) || k in ids
  {
    if |ids| > 0 {
      var init := ids[..|ids| - 1];
      MarkCheckedEffect(m, init);
      assert ids == init + [ids[|ids| - 1]];
    }
  }

  /** Filtering keeps distinct ids distinct. */
  lemma {:induction false} UncheckedDistinct(ids: seq<int>, m: CheckedRows)
    requires Distinct(ids)
    ensures Distinct(Unchecked(ids, m))
  {
    if |ids| > 0 {
      assert Distinct(ids[1..]) by {
        forall i, j | 0 <= i < j < |ids[1..]| ensures ids[1..][i] != ids[1..][j] {
          assert ids[1..][i] == ids[i + 1] && ids[1..][j] == ids[j + 1];
        }
      }
      UncheckedDistinct(ids[1..], m);
      var head := if IsChecked(m, ids[0]) then [] else [ids[0]];
      var tail := Unchecked(ids[1..], m);
      UncheckedMembers(ids[1..], m);
      assert ids[0] !in tail;
      assert Unchecked(ids, m) == head + tail;
    }
  }

  /** A duplicate-free sequence has as many distinct elements as entries. */
  lemma {:induction false} DistinctCard(s: seq<int>)
    requires Distinct(s)
    ensures |set x | x in s| == |s|
  {
    if |s| > 0 {
      var init := s[..|s| - 1];
      assert Distinct(init);
      DistinctCard(init);
      assert s[|s| - 1] !in init;
      assert (set x | x in s) == (set x | x in init) + {s[|s| - 1]} by {
        assert s == init + [s[|s| - 1]];
      }
    }
  }

  /** Marking ids none of which was checked makes exactly those ids newly checked. */
  lemma MarkCheckedNewly(m: CheckedRows, ids: seq<int>)
    requires forall i | 0 <= i < |ids| :: !IsChecked(m, ids[i])
    ensures Newly(m, MarkChecked(m, ids)) == set x | x in ids
  {
    var r := MarkChecked(m, ids);
    MarkCheckedEffect(m, ids);
    forall k | k in Newly(m, r) ensures k in ids {
      assert IsChecked(r, k);
    }
    forall k | k in ids ensures k in Newly(m, r) {
      assert IsChecked(r, k);
    }
  }

  /** The ids newly checked along a chain of check-only updates split into
      the two legs, which are disjoint, so their counts add up. */
  lemma NewlyChain(a: CheckedRows, b: CheckedRows, c: CheckedRows)
    requires OnlyChecks(a, b) && OnlyChecks(b, c)
    ensures Newly(a, c) == Newly(a, b) + Newly(b, c)
    ensures |Newly(a, c)| == |Newly(a, b)| + |Newly(b, c)|
  {
  }

  /** Every row toggle flips one id, so an id's flag after a run of toggles is
      its initial flag flipped once per toggle of that id. */
  lemma {:induction false} TogglesParity(m: CheckedRows, ts: seq<int>, k: int)
    ensures IsChecked(Toggles(m, ts), k) == (IsChecked(m, k) != (multiset(ts)[k] % 2 == 1))
  {
    if |ts| > 0 {
      var init, last := ts[..|ts| - 1], ts[|ts| - 1];
      TogglesParity(m, init, k);
      assert ts == init + [last];
      if last == k {
        assert multiset(ts)[k] == multiset(init)[k] + 1;
        assert IsChecked(Toggles(m, ts), k) == !IsChecked(Toggles(m, init), k);
      } else {
        assert multiset(ts)[k] == multiset(init)[k];
        assert IsChecked(Toggles(m, ts), k) == IsChecked(Toggles(m, init), k);
      }
    }
  }
}
