/**
 The rows the table displays. A fetched page is abstracted to the ordered
 sequence of its record ids; each row carries the derived `isChecked` flag
 that `fetchData` attaches from the selection map it closes over.
 */
module Rows {
  import opened Selection

  /** One artwork row. The display strings (title, place of origin, artist,
      start and end dates) are opaque to the selection logic and omitted. */
  datatype Artwork = Artwork(id: int, isChecked: bool)

  /** The ids of `rows`, in order. */
  function Ids(rows: seq<Artwork>): (r: seq<int>)
    ensures |r| == |rows|
    ensures forall i | 0 <= i < |rows| :: r[i] == rows[i].id
  {
    if |rows| == 0 then [] else Ids(rows[..|rows| - 1]) + [rows[|rows| - 1].id]
  }

  /** Every row's flag says what `m` says about its id. */
  predicate FlagsAgree(rows: seq<Artwork>, m: CheckedRows) {
    forall i | 0 <= i < |rows| :: rows[i].isChecked == IsChecked(m, rows[i].id)
  }

  /** `fetchData`'s annotation of a fetched page: every record keeps its id
      and position and gets `isChecked: checkedRows[row.id] || false`. */
  function Annotate(ids: seq<int>, m: CheckedRows): (r: seq<Artwork>)
    ensures Ids(r) == ids
    ensures FlagsAgree(r, m)
  {
    seq(|ids|, i requires 0 <= i < |ids| => Artwork(ids[i], IsChecked(m, ids[i])))
  }
}
