/**
  The rows of a `SignalVectorModel` as values: the two index translations, and how the
  vector is read back from the rows.
 */
module RowIndex {
  import opened Wrappers
  import opened Sequences

  /** A model row: its cells, the item it was made from, and whether it is an extra, non-vector row. */
  datatype Row<+T, +C> = Row(cells: C, original: Option<T>, isCustom: bool)

  ghost predicate WellFormed<T, C>(rows: seq<Row<T, C>>) {
    forall r :: r in rows && !r.isCustom ==> r.original.Some?
  }

  function PlainCount<T, C>(rows: seq<Row<T, C>>): nat {
    if rows == [] then 0 else (if rows[0].isCustom then 0 else 1) + PlainCount(rows[1..])
  }

  /** The vector item that the plain row `p` shows; any other `p` maps to the vector's size. */
  function VectorIndex<T, C>(rows: seq<Row<T, C>>, p: nat): nat {
    if p < |rows| && !rows[p].isCustom then PlainCount(rows[..p]) else PlainCount(rows)
  }

  /** The row of the `v`-th plain row, or the number of rows. */
  function ModelIndex<T, C>(rows: seq<Row<T, C>>, v: nat): (p: nat)
    ensures p <= |rows|
  {
    if rows == [] then 0
    else if rows[0].isCustom then 1 + ModelIndex(rows[1..], v)
    else if v == 0 then 0
    else 1 + ModelIndex(rows[1..], v - 1)
  }

  /** The items the plain rows stand for, in row order. */
  function Mirror<T, C>(fromRow: (C, T) -> T, rows: seq<Row<T, C>>): (items: seq<T>)
    requires WellFormed(rows)
    ensures |items| == PlainCount(rows)
  {
    if rows == [] then []
    else if rows[0].isCustom then Mirror(fromRow, rows[1..])
    else [fromRow(rows[0].cells, rows[0].original.value)] + Mirror(fromRow, rows[1..])
  }

  function Without<T>(s: seq<T>, i: nat): (r: seq<T>)
    requires i < |s|
    ensures |r| == |s| - 1
  {
    s[..i] + s[i + 1..]
  }

  // ----- the translations are inverse on plain rows

  /** A vector index finds the row that shows it, and that row leads back to it. */
  lemma {:induction false} ModelIndexInverse<T, C>(rows: seq<Row<T, C>>, v: nat)
    ensures if v < PlainCount(rows)
            then var p := ModelIndex(rows, v); p < |rows| && !rows[p].isCustom && VectorIndex(rows, p) == v
            else ModelIndex(rows, v) == |rows|
  {
    if rows != [] {
      var v' := if rows[0].isCustom then v else v - 1;
      if v' >= 0 {
        ModelIndexInverse(rows[1..], v');
        var p := ModelIndex(rows[1..], v');
        assert rows[..p + 1][1..] == rows[1..][..p];
      }
    }
  }

  /** A plain row leads to a vector index that finds the row again; a custom row leads past the end. */
  lemma {:induction false} VectorIndexInverse<T, C>(rows: seq<Row<T, C>>, p: nat)
    requires p < |rows|
    ensures if rows[p].isCustom then VectorIndex(rows, p) == PlainCount(rows)
            else VectorIndex(rows, p) < PlainCount(rows) && ModelIndex(rows, VectorIndex(rows, p)) == p
  {
    if !rows[p].isCustom && p != 0 {
      VectorIndexInverse(rows[1..], p - 1);
      assert rows[..p][1..] == rows[1..][..p - 1];
    }
  }

  // ----- what row changes do to the mirrored items

  lemma {:induction false} MirrorConcat<T, C>(fromRow: (C, T) -> T, a: seq<Row<T, C>>, b: seq<Row<T, C>>)
    requires WellFormed(a + b)
    ensures WellFormed(a) && WellFormed(b)
    ensures Mirror(fromRow, a + b) == Mirror(fromRow, a) + Mirror(fromRow, b)
  {
    assert forall r :: r in a ==> r in a + b;
    assert forall r :: r in b ==> r in a + b;
    if a == [] {
      assert a + b == b;
    } else {
      assert (a + b)[1..] == a[1..] + b;
      MirrorConcat(fromRow, a[1..], b);
    }
  }

  /** The item a row shows, if it shows one. */
  function Shown<T, C>(fromRow: (C, T) -> T, row: Row<T, C>): seq<T>
    requires row.isCustom || row.original.Some?
  {
    if row.isCustom then [] else [fromRow(row.cells, row.original.value)]
  }

  lemma WellFormedParts<T, C>(rows: seq<Row<T, C>>, p: nat)
    requires WellFormed(rows) && p < |rows|
    ensures WellFormed(rows[..p]) && WellFormed(rows[p + 1..]) && (rows[p].isCustom || rows[p].original.Some?)
    ensures rows == rows[..p] + [rows[p]] + rows[p + 1..]
  {
  }

  /** What rows show when one of them stands between `a` and `b`. */
  lemma MirrorAround<T, C>(fromRow: (C, T) -> T, a: seq<Row<T, C>>, row: Row<T, C>, b: seq<Row<T, C>>)
    requires WellFormed(a) && WellFormed(b) && (row.isCustom || row.original.Some?)
    ensures WellFormed(a + [row] + b)
    ensures Mirror(fromRow, a + [row] + b) == Mirror(fromRow, a) + Shown(fromRow, row) + Mirror(fromRow, b)
  {
    assert WellFormed([row]) && Mirror(fromRow, [row]) == Shown(fromRow, row) by { assert [row][1..] == []; }
    MirrorConcat(fromRow, a, [row]);
    MirrorConcat(fromRow, a + [row], b);
  }

  /** The part in front of the row of vector index `v` shows `v` items. */
  lemma {:induction false} ModelIndexPrefix<T, C>(rows: seq<Row<T, C>>, v: nat)
    requires v <= PlainCount(rows)
    ensures PlainCount(rows[..ModelIndex(rows, v)]) == v
  {
    if rows != [] {
      if rows[0].isCustom {
        ModelIndexPrefix(rows[1..], v);
        assert rows[..ModelIndex(rows, v)][1..] == rows[1..][..ModelIndex(rows[1..], v)];
      } else if v != 0 {
        ModelIndexPrefix(rows[1..], v - 1);
        assert rows[..ModelIndex(rows, v)][1..] == rows[1..][..ModelIndex(rows[1..], v - 1)];
      }
    }
  }

  /** A plain row put where vector index `v` is shown becomes item `v`. */
  lemma MirrorInsert<T, C>(fromRow: (C, T) -> T, rows: seq<Row<T, C>>, v: nat, row: Row<T, C>)
    requires WellFormed(rows) && v <= PlainCount(rows) && !row.isCustom && row.original.Some?
    ensures var rows' := InsertAt(rows, ModelIndex(rows, v), row);
            && WellFormed(rows')
            && Mirror(fromRow, rows') == InsertAt(Mirror(fromRow, rows), v, fromRow(row.cells, row.original.value))
  {
    hide WellFormed, Mirror, PlainCount, ModelIndex;
    var p := ModelIndex(rows, v);
    ModelIndexPrefix(rows, v);
    MirrorSplit(fromRow, rows, p);
    MirrorAround(fromRow, rows[..p], row, rows[p..]);
  }

  /** Taking away the row that shows vector index `v` takes away item `v`. */
  lemma MirrorRemove<T, C>(fromRow: (C, T) -> T, rows: seq<Row<T, C>>, v: nat)
    requires WellFormed(rows) && v < PlainCount(rows)
    ensures var p := ModelIndex(rows, v);
            && p < |rows| && WellFormed(Without(rows, p))
            && Mirror(fromRow, Without(rows, p)) == Without(Mirror(fromRow, rows), v)
  {
    hide WellFormed, Mirror, PlainCount, ModelIndex;
    var p := ModelIndex(rows, v);
    ModelIndexInverse(rows, v);
    ModelIndexPrefix(rows, v);
    WellFormedParts(rows, p);
    MirrorAround(fromRow, rows[..p], rows[p], rows[p + 1..]);
    WellFormedConcat(rows[..p], rows[p + 1..]);
    MirrorConcat(fromRow, rows[..p], rows[p + 1..]);
  }

  lemma WellFormedConcat<T, C>(a: seq<Row<T, C>>, b: seq<Row<T, C>>)
    requires WellFormed(a) && WellFormed(b)
    ensures WellFormed(a + b)
  {
  }

  /** Editing the cells of a plain row changes just the item it shows. */
  lemma MirrorEdit<T, C>(fromRow: (C, T) -> T, rows: seq<Row<T, C>>, p: nat, cells: C)
    requires WellFormed(rows) && p < |rows| && !rows[p].isCustom
    ensures var rows' := rows[p := rows[p].(cells := cells)];
            && WellFormed(rows') && rows[p].original.Some?
            && VectorIndex(rows, p) < PlainCount(rows)
            && Mirror(fromRow, rows') ==
               Mirror(fromRow, rows)[VectorIndex(rows, p) := fromRow(cells, rows[p].original.value)]
  {
    hide WellFormed, Mirror, PlainCount, ModelIndex;
    VectorIndexInverse(rows, p);
    WellFormedParts(rows, p);
    var row := rows[p].(cells := cells);
    MirrorAround(fromRow, rows[..p], rows[p], rows[p + 1..]);
    MirrorAround(fromRow, rows[..p], row, rows[p + 1..]);
    assert rows[p := row] == rows[..p] + [row] + rows[p + 1..];
  }

  lemma CustomBetween<T, C>(fromRow: (C, T) -> T, a: seq<Row<T, C>>, row: Row<T, C>, b: seq<Row<T, C>>)
    requires WellFormed(a) && WellFormed(b) && row.isCustom
    ensures WellFormed(a + [row] + b)
    ensures Mirror(fromRow, a + [row] + b) == Mirror(fromRow, a) + Mirror(fromRow, b)
  {
    hide WellFormed, Mirror;
    MirrorAround(fromRow, a, row, b);
    assert Mirror(fromRow, a) + [] == Mirror(fromRow, a);
  }

  /** Custom rows are invisible to the vector, wherever they come and go. */
  lemma MirrorIgnoresCustom<T, C>(fromRow: (C, T) -> T, rows: seq<Row<T, C>>, p: nat, row: Row<T, C>)
    requires WellFormed(rows) && p <= |rows| && row.isCustom
    ensures var rows' := InsertAt(rows, p, row);
            && WellFormed(rows')
            && Mirror(fromRow, rows') == Mirror(fromRow, rows)
  {
    hide WellFormed, Mirror;
    MirrorSplit(fromRow, rows, p);
    CustomBetween(fromRow, rows[..p], row, rows[p..]);
  }

  lemma MirrorSplit<T, C>(fromRow: (C, T) -> T, rows: seq<Row<T, C>>, p: nat)
    requires WellFormed(rows) && p <= |rows|
    ensures WellFormed(rows[..p]) && WellFormed(rows[p..])
    ensures Mirror(fromRow, rows) == Mirror(fromRow, rows[..p]) + Mirror(fromRow, rows[p..])
  {
    assert rows == rows[..p] + rows[p..];
    MirrorConcat(fromRow, rows[..p], rows[p..]);
  }
}
