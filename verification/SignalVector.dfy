/**
  `SignalVector` and the `SignalVectorModel`s that mirror it: every change of the vector is
  announced to all models, except that the model which made the change itself skips the
  announcement.
 */
module SignalVector {
  import opened Wrappers
  import opened Sequences
  import opened RowIndex

  class SignalVectorModel<T(!new), C> {
    /** `getRowFromItem` and `getItemFromRow`, which a concrete model supplies. */
    const toRow: T -> C
    const fromRow: (C, T) -> T
    var rows: seq<Row<T, C>>

    ghost predicate Valid()
      reads this
    {
      WellFormed(rows) && forall x: T :: fromRow(toRow(x), x) == x
    }

    /** The vector as this model shows it. */
    ghost function Items(): seq<T>
      requires Valid()
      reads this
    {
      Mirror(fromRow, rows)
    }

    /** Compared with `before`, there is one row more, made from `item` and standing where vector index `v` belongs. */
    ghost predicate ShowsNew(before: seq<Row<T, C>>, v: nat, item: T)
      reads this
    {
      RowAdded(before, rows, v, Row(toRow(item), Some(item), false))
    }

    /** The row of vector index `v` is gone, and one made from `item` stands where vector index `at` belongs. */
    ghost predicate ShowsMoved(before: seq<Row<T, C>>, v: nat, at: nat, item: T)
      reads this
    {
      ModelIndex(before, v) < |before| && ShowsNew(Without(before, ModelIndex(before, v)), at, item)
    }

    constructor (toRow: T -> C, fromRow: (C, T) -> T)
      requires forall x: T :: fromRow(toRow(x), x) == x
      ensures Valid() && rows == [] && this.toRow == toRow && this.fromRow == fromRow
    {
      this.toRow, this.fromRow, rows := toRow, fromRow, [];
    }

    /** The loop of the source: `index` loses one for every custom row it passes. */
    method GetVectorIndexFromModelIndex(index: nat) returns (i: nat)
      ensures i == VectorIndex(rows, index)
    {
      i := 0;
      var left: int := index;
      for k := 0 to |rows|
        invariant i == PlainCount(rows[..k]) && left == index - (k - i)
        invariant index < k ==> rows[index].isCustom
      {
        PlainCountSnoc(rows, k);
        if rows[k].isCustom {
          left := left - 1;
        } else if i == left {
          return;
        } else {
          i := i + 1;
        }
      }
      assert rows[..|rows|] == rows;
    }

    method GetModelIndexFromVectorIndex(vectorIndex: nat) returns (modelIndex: nat)
      ensures modelIndex == ModelIndex(rows, vectorIndex)
    {
      modelIndex := 0;
      var v := vectorIndex;
      while modelIndex < |rows|
        invariant modelIndex <= |rows| && modelIndex <= v
        invariant ModelIndex(rows, vectorIndex) == modelIndex + ModelIndex(rows[modelIndex..], v - modelIndex)
      {
        if rows[modelIndex].isCustom {
          v := v + 1;
        }
        if modelIndex == v {
          return;
        }
        modelIndex := modelIndex + 1;
      }
    }

    /** The handler of `itemInserted`, when the change comes from elsewhere. */
    method OnInserted(item: T, v: nat)
      requires Valid() && v <= |Items()|
      modifies this
      ensures Valid() && Items() == InsertAt(old(Items()), v, item)
      ensures ShowsNew(old(rows), v, item)
    {
      var index := GetModelIndexFromVectorIndex(v);
      var row := Row(toRow(item), Some(item), false);
      MirrorInsert(fromRow, rows, v, row);
      ModelIndexInverse(rows, v);
      ModelIndexPrefix(rows, v);
      AddedAt(rows, index, v, row);
      rows := InsertAt(rows, index, row);
    }

    /** The handler of `itemRemoved`, when the change comes from elsewhere. */
    method OnRemoved(v: nat)
      requires Valid() && v < |Items()|
      modifies this
      ensures Valid() && Items() == Without(old(Items()), v)
      ensures RowGone(old(rows), rows, v)
    {
      var row := GetModelIndexFromVectorIndex(v);
      MirrorRemove(fromRow, rows, v);
      rows := Without(rows, row);
    }

    /** The cells of a plain row are edited in place, before the vector hears of it. */
    method EditRow(row: nat, cells: C)
      requires Valid() && row < |rows| && !rows[row].isCustom
      modifies this
      ensures Valid() && rows == old(rows)[row := old(rows)[row].(cells := cells)]
      ensures EditedAt(old(rows), row, old(Items()))
      ensures VectorIndex(rows, row) == VectorIndex(old(rows), row)
      ensures Items() == old(Items())[VectorIndex(rows, row) := fromRow(cells, old(rows)[row].original.value)]
    {
      MirrorEdit(fromRow, rows, row, cells);
      SameVectorIndex(rows, row, cells);
      rows := rows[row := rows[row].(cells := cells)];
    }

    method EditCustomRow(row: nat, cells: C)
      requires Valid() && row < |rows| && rows[row].isCustom
      modifies this
      ensures Valid() && rows == old(rows)[row := old(rows)[row].(cells := cells)]
      ensures Items() == old(Items())
    {
      CustomEdit(fromRow, rows, row, cells);
      rows := rows[row := rows[row].(cells := cells)];
    }

    method InsertCustomRow(cells: C, index: nat)
      requires Valid() && index <= |rows|
      modifies this
      ensures Valid() && Items() == old(Items())
      ensures rows == InsertAt(old(rows), index, Row(cells, None, true))
    {
      MirrorIgnoresCustom(fromRow, rows, index, Row(cells, None, true));
      rows := InsertAt(rows, index, Row(cells, None, true));
    }

    method RemoveCustomRow(index: nat)
      requires Valid() && index < |rows| && rows[index].isCustom
      modifies this
      ensures Valid() && Items() == old(Items())
      ensures rows == Without(old(rows), index)
    {
      var rest := Without(rows, index);
      assert forall r :: r in rest ==> r in rows;
      assert rows == InsertAt(rest, index, rows[index]);
      MirrorIgnoresCustom(fromRow, rest, index, rows[index]);
      rows := rest;
    }
  }

  lemma {:induction false} PlainCountSnoc<T, C>(rows: seq<Row<T, C>>, k: nat)
    requires k < |rows|
    ensures PlainCount(rows[..k + 1]) == PlainCount(rows[..k]) + if rows[k].isCustom then 0 else 1
  {
    if k != 0 {
      PlainCountSnoc(rows[1..], k - 1);
      assert rows[..k + 1][1..] == rows[1..][..k] && rows[..k][1..] == rows[1..][..k - 1];
    }
  }

  class SignalVector<T(!new), C> {
    var items: seq<T>
    var readOnly: seq<T>
    var models: seq<SignalVectorModel<T, C>>
    /** The comparison of a sorted vector. */
    const less: Option<(T, T) -> bool>

    /** Every attached model but `caller` shows the vector. */
    ghost predicate InStep(caller: SignalVectorModel?<T, C>)
      reads this, models
    {
      && Distinct(models)
      && readOnly == items
      && forall m :: m in models ==> m.Valid() && (m != caller ==> m.Items() == items)
    }

    /** Every attached model shows the vector. */
    ghost predicate Synced()
      reads this, models
    {
      InStep(null)
    }

    constructor (less: Option<(T, T) -> bool>)
      ensures Synced() && items == [] && models == [] && this.less == less
    {
      this.less := less;
      items, readOnly, models := [], [], [];
    }

    /** `initialize`: a fresh model copies the vector item by item and then listens. */
    method Attach(m: SignalVectorModel<T, C>)
      requires Synced() && m !in models && m.Valid() && m.rows == []
      modifies this`models, m
      ensures Synced() && models == old(models) + [m] && items == old(items)
      ensures m.rows == PlainRows(m.toRow, items)
    {
      for i := 0 to |items|
        invariant m.Valid() && m.Items() == items[..i] && m.rows == PlainRows(m.toRow, items[..i])
        invariant Synced() && models == old(models) && items == old(items)
      {
        m.OnInserted(items[i], i);
        AddedAtEnd(m.toRow, items[..i], m.rows, items[i]);
        assert InsertAt(items[..i], i, items[i]) == items[..i + 1];
      }
      models := models + [m];
    }

    /** `itemInserted.invoke`. */
    method AnnounceInsert(item: T, index: nat, caller: SignalVectorModel?<T, C>, ghost before: seq<T>)
      requires Distinct(models) && index <= |before| && items == InsertAt(before, index, item)
      requires forall m :: m in models ==> m.Valid() && (m != caller ==> m.Items() == before)
      modifies models
      ensures forall m :: m in models ==> m.Valid() && (m != caller ==> m.Items() == items)
      ensures caller != null ==> caller.rows == old(caller.rows)
      ensures forall m :: m in models && m != caller ==> m.ShowsNew(old(m.rows), index, item)
    {
      hide Without, InsertAt, RowGone, RowAdded, WellFormed, Mirror, SignalVectorModel.Items, SignalVectorModel.Valid;
      for k := 0 to |models|
        invariant forall m :: m in models ==> m.Valid()
        invariant forall j :: 0 <= j < k && models[j] != caller ==> models[j].Items() == items
        invariant forall j :: k <= j < |models| && models[j] != caller ==> models[j].Items() == before
        invariant caller != null ==> caller.rows == old(caller.rows)
        invariant forall j :: 0 <= j < k && models[j] != caller ==> models[j].ShowsNew(old(models[j].rows), index, item)
        invariant forall j :: k <= j < |models| ==> models[j].rows == old(models[j].rows)
      {
        if models[k] != caller {
          models[k].OnInserted(item, index);
        }
      }
    }

    /** `itemRemoved.invoke`. */
    method AnnounceRemove(index: nat, caller: SignalVectorModel?<T, C>, ghost before: seq<T>)
      requires Distinct(models) && index < |before| && items == Without(before, index)
      requires forall m :: m in models ==> m.Valid() && (m != caller ==> m.Items() == before)
      modifies models
      ensures forall m :: m in models ==> m.Valid() && (m != caller ==> m.Items() == items)
      ensures caller != null ==> caller.rows == old(caller.rows)
      ensures forall m :: m in models && m != caller ==> RowGone(old(m.rows), m.rows, index)
    {
      hide Without, InsertAt, RowGone, WellFormed, Mirror, SignalVectorModel.Items, SignalVectorModel.Valid;
      for k := 0 to |models|
        invariant forall m :: m in models ==> m.Valid()
        invariant forall j :: 0 <= j < k && models[j] != caller ==> models[j].Items() == items
        invariant forall j :: k <= j < |models| && models[j] != caller ==> models[j].Items() == before
        invariant caller != null ==> caller.rows == old(caller.rows)
        invariant forall j :: 0 <= j < k && models[j] != caller ==> RowGone(old(models[j].rows), models[j].rows, index)
        invariant forall j :: k <= j < |models| ==> models[j].rows == old(models[j].rows)
      {
        if models[k] != caller {
          models[k].OnRemoved(index);
        }
      }
    }

    /** A sorted vector ignores the requested index; otherwise -1 means the end. */
    method Insert(item: T, index: int, caller: SignalVectorModel?<T, C>) returns (at: nat)
      requires InStep(caller)
      requires less.None? ==> -1 <= index <= |items|
      modifies this`items, this`readOnly, models
      ensures InStep(caller) && models == old(models)
      ensures at <= |old(items)| && items == InsertAt(old(items), at, item)
      ensures less.None? ==> at == if index == -1 then |old(items)| else index
      ensures less.Some? ==> at == LowerBound(less.value, old(items), item)
      ensures caller != null ==> caller.rows == old(caller.rows)
      ensures forall m :: m in models && m != caller ==> m.ShowsNew(old(m.rows), at, item)
    {
      if less.Some? {
        at := LowerBound(less.value, items, item);
      } else {
        at := if index == -1 then |items| else index;
      }
      items := InsertAt(items, at, item);
      AnnounceInsert(item, at, caller, old(items));
      readOnly := items;
    }

    method RemoveAt(index: nat, caller: SignalVectorModel?<T, C>)
      requires InStep(caller) && index < |items|
      modifies this`items, this`readOnly, models
      ensures InStep(caller) && models == old(models)
      ensures items == Without(old(items), index)
      ensures caller != null ==> caller.rows == old(caller.rows)
      ensures forall m :: m in models && m != caller ==> RowGone(old(m.rows), m.rows, index)
    {
      items := Without(items, index);
      AnnounceRemove(index, caller, old(items));
      readOnly := items;
    }

    method RemoveFirstMatching(matcher: T -> bool, caller: SignalVectorModel?<T, C>) returns (removed: bool)
      requires InStep(caller)
      modifies this`items, this`readOnly, models
      ensures InStep(caller) && models == old(models)
      ensures !removed ==> items == old(items) && forall x :: x in items ==> !matcher(x)
      ensures removed ==> exists i :: 0 <= i < |old(items)| && matcher(old(items)[i])
                                   && (forall k :: 0 <= k < i ==> !matcher(old(items)[k]))
                                   && items == Without(old(items), i)
                                   && (forall m :: m in models && m != caller ==> RowGone(old(m.rows), m.rows, i))
      ensures !removed ==> forall m :: m in models ==> m.rows == old(m.rows)
      ensures caller != null ==> caller.rows == old(caller.rows)
    {
      for i := 0 to |items|
        invariant forall k :: 0 <= k < i ==> !matcher(items[k])
        invariant InStep(caller) && items == old(items) && models == old(models)
        invariant forall m :: m in models ==> m.rows == old(m.rows)
        invariant caller != null ==> caller.rows == old(caller.rows)
      {
        if matcher(items[i]) {
          RemoveAt(i, caller);
          return true;
        }
      }
      return false;
    }

    /** Where an item goes that is inserted at `index`. */
    ghost function InsertIndex(rest: seq<T>, index: nat, item: T): (at: nat)
      requires index <= |rest|
      reads this
      ensures at <= |rest|
    {
      if less.Some? then LowerBound(less.value, rest, item) else index
    }

    /**
      `setData`: the model edits its own cells, then swaps the vector item for what the row
      now says, announcing that only to the other models. The edited row stays where it is,
      so in a sorted vector the model remains in step just when the item does.
     */
    method SetData(m: SignalVectorModel<T, C>, row: nat, cells: C) returns (ok: bool)
      requires Synced() && m in models
      modifies this`items, this`readOnly, models
      ensures models == old(models)
      ensures ok == (row < |old(m.rows)|)
      ensures !ok ==> Synced() && items == old(items) && m.rows == old(m.rows)
      ensures ok ==> m.rows == old(m.rows)[row := old(m.rows)[row].(cells := cells)]
      ensures ok && old(m.rows)[row].isCustom ==> Synced() && items == old(items)
      ensures !ok || old(m.rows)[row].isCustom ==> forall n :: n in models && n != m ==> n.rows == old(n.rows)
      ensures ok && !old(m.rows)[row].isCustom ==>
                && EditedAt(old(m.rows), row, old(items))
                && InStep(m) && m.Valid()
                && var v := VectorIndex(old(m.rows), row);
                   var item := m.fromRow(cells, old(m.rows)[row].original.value);
                   var rest := Without(old(items), v);
                   && m.Items() == old(items)[v := item]
                   && items == InsertAt(rest, InsertIndex(rest, v, item), item)
                   && (Synced() <==> OnlyBetween(rest, InsertIndex(rest, v, item), v, item))
                   && forall n :: n in models && n != m ==> n.ShowsMoved(old(n.rows), v, InsertIndex(rest, v, item), item)
      ensures less.None? ==> Synced()
    {
      hide Mirror, Without, InsertAt, WellFormed, PlainCount, LowerBound;
      if |m.rows| <= row {
        return false;
      }
      if m.rows[row].isCustom {
        m.EditCustomRow(row, cells);
        return true;
      }
      ghost var before := m.Items();
      m.EditRow(row, cells);
      var v := m.GetVectorIndexFromModelIndex(row);
      ok := v < |readOnly|;
      if ok {
        RemoveAt(v, m);
        var item := m.fromRow(m.rows[row].cells, m.rows[row].original.value);
        var at := Insert(item, v, m);
        SameOnlyBetween(before, at, v, item);
      }
    }

    /** `moveRows` with one row; moving a custom row throws in the source. */
    method MoveRow(m: SignalVectorModel<T, C>, source: nat, destination: nat) returns (at: nat)
      requires Synced() && m in models && source < |m.rows| && !m.rows[source].isCustom
      requires destination <= |m.rows|
      modifies this`items, this`readOnly, models
      ensures Synced() && models == old(models)
      ensures var v := VectorIndex(old(m.rows), source);
              && v < |old(items)| && at < |old(items)|
              && items == InsertAt(Without(old(items), v), at, old(items)[v])
      ensures less.None? ==> at == VectorIndex(Without(old(m.rows), source), destination)
      ensures var v := VectorIndex(old(m.rows), source);
              forall n :: n in models ==> n.ShowsMoved(old(n.rows), v, at, old(items)[v])
    {
      var v := m.GetVectorIndexFromModelIndex(source);
      var item := m.fromRow(m.rows[source].cells, m.rows[source].original.value);
      ghost var rows := m.rows;
      VectorIndexInverse(rows, source);
      MirrorEdit(m.fromRow, rows, source, rows[source].cells);
      assert rows[source := rows[source].(cells := rows[source].cells)] == rows;
      RemoveAt(v, null);
      assert m.rows == Without(rows, source);
      if destination < |m.rows| {
        VectorIndexInverse(m.rows, destination);
      }
      var d := m.GetVectorIndexFromModelIndex(destination);
      at := Insert(item, d, null);
    }

    /** Extra rows of an attached model come and go without anyone else noticing. */
    method InsertCustomRow(m: SignalVectorModel<T, C>, cells: C, index: nat)
      requires Synced() && m in models && index <= |m.rows|
      modifies m
      ensures Synced() && m.rows == InsertAt(old(m.rows), index, Row(cells, None, true))
    {
      m.InsertCustomRow(cells, index);
    }

    method RemoveCustomRow(m: SignalVectorModel<T, C>, index: nat)
      requires Synced() && m in models && index < |m.rows| && m.rows[index].isCustom
      modifies m
      ensures Synced() && m.rows == Without(old(m.rows), index)
    {
      m.RemoveCustomRow(index);
    }

    method RemoveRow(m: SignalVectorModel<T, C>, row: nat)
      requires Synced() && m in models && row < |m.rows| && !m.rows[row].isCustom
      modifies this`items, this`readOnly, models
      ensures Synced() && models == old(models)
      ensures var v := VectorIndex(old(m.rows), row);
              && v < |old(items)| && items == Without(old(items), v)
              && forall n :: n in models ==> RowGone(old(n.rows), n.rows, v)
    {
      var v := m.GetVectorIndexFromModelIndex(row);
      VectorIndexInverse(m.rows, row);
      RemoveAt(v, null);
    }
  }

  /** A plain row that shows one of the items. */
  ghost predicate EditedAt<T, C>(rows: seq<Row<T, C>>, row: nat, items: seq<T>) {
    row < |rows| && rows[row].original.Some? && VectorIndex(rows, row) < |items|
  }

  /** Between the two positions there are only copies of `x`. */
  ghost predicate OnlyBetween<T>(s: seq<T>, i: nat, j: nat, x: T)
    requires i <= |s| && j <= |s|
  {
    forall k :: i <= k < j || j <= k < i ==> s[k] == x
  }

  lemma SameOnlyBetween<T>(s: seq<T>, at: nat, v: nat, x: T)
    requires v < |s| && at < |s|
    ensures InsertAt(Without(s, v), at, x) == s[v := x] <==> OnlyBetween(Without(s, v), at, v, x)
  {
    assert InsertAt(Without(s, v), v, x) == s[v := x];
    if at <= v {
      InsertSame(Without(s, v), at, v, x);
    } else {
      InsertSame(Without(s, v), v, at, x);
    }
  }

  /**
    All old rows stay in order, and `row` is new: directly in front of the plain row that
    showed vector index `v`, or at the end if there was none.
   */
  ghost predicate RowAdded<T, C>(before: seq<Row<T, C>>, after: seq<Row<T, C>>, v: nat, row: Row<T, C>) {
    exists p: nat :: IsRowFor(before, p, v) && after == InsertAt(before, p, row)
  }

  /** `p` is the plain row with `v` plain rows in front of it, or the end. */
  ghost predicate IsRowFor<T, C>(rows: seq<Row<T, C>>, p: nat, v: nat) {
    p <= |rows| && PlainCount(rows[..p]) == v && (p < |rows| ==> !rows[p].isCustom)
  }

  /** One plain row for each item, in order. */
  function PlainRows<T, C>(toRow: T -> C, items: seq<T>): (rows: seq<Row<T, C>>)
    ensures |rows| == |items|
  {
    seq(|items|, i requires 0 <= i < |items| => Row(toRow(items[i]), Some(items[i]), false))
  }

  lemma {:induction false} PlainCountBound<T, C>(rows: seq<Row<T, C>>)
    ensures PlainCount(rows) <= |rows|
  {
    if rows != [] {
      PlainCountBound(rows[1..]);
    }
  }

  lemma AddedAtEnd<T, C>(toRow: T -> C, items: seq<T>, after: seq<Row<T, C>>, x: T)
    requires RowAdded(PlainRows(toRow, items), after, |items|, Row(toRow(x), Some(x), false))
    ensures after == PlainRows(toRow, items + [x])
  {
    var before := PlainRows(toRow, items);
    var p: nat :| IsRowFor(before, p, |items|) && after == InsertAt(before, p, Row(toRow(x), Some(x), false));
    PlainCountBound(before[..p]);
  }

  lemma AddedAt<T, C>(rows: seq<Row<T, C>>, p: nat, v: nat, row: Row<T, C>)
    requires IsRowFor(rows, p, v)
    ensures RowAdded(rows, InsertAt(rows, p, row), v, row)
  {
  }

  /** The row showing vector index `v` is gone, all others are as before. */
  ghost predicate RowGone<T, C>(before: seq<Row<T, C>>, after: seq<Row<T, C>>, v: nat) {
    ModelIndex(before, v) < |before| && after == Without(before, ModelIndex(before, v))
  }

  /** `std::lower_bound`: the number of leading items less than `x`. */
  function LowerBound<T>(less: (T, T) -> bool, items: seq<T>, x: T): (i: nat)
    ensures i <= |items|
    ensures forall k :: 0 <= k < i ==> less(items[k], x)
    ensures i < |items| ==> !less(items[i], x)
  {
    if items == [] then 0 else if less(items[0], x) then 1 + LowerBound(less, items[1..], x) else 0
  }

  lemma CustomEdit<T, C>(fromRow: (C, T) -> T, rows: seq<Row<T, C>>, p: nat, cells: C)
    requires WellFormed(rows) && p < |rows| && rows[p].isCustom
    ensures var rows' := rows[p := rows[p].(cells := cells)];
            WellFormed(rows') && Mirror(fromRow, rows') == Mirror(fromRow, rows)
  {
    var rows' := rows[p := rows[p].(cells := cells)];
    var rest := Without(rows, p);
    assert forall r :: r in rest ==> r in rows;
    assert rows == InsertAt(rest, p, rows[p]) && rows' == InsertAt(rest, p, rows'[p]);
    MirrorIgnoresCustom(fromRow, rest, p, rows[p]);
    MirrorIgnoresCustom(fromRow, rest, p, rows'[p]);
  }

  lemma SameVectorIndex<T, C>(rows: seq<Row<T, C>>, p: nat, cells: C)
    requires p < |rows| && !rows[p].isCustom
    ensures VectorIndex(rows[p := rows[p].(cells := cells)], p) == VectorIndex(rows, p)
  {
  }
}
