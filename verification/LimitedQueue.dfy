/** The queue itself: a ring of slots with a head and a count, and the operations on it. */
module LimitedQueue {
  import opened Wrappers
  import opened Sequences
  import opened MessageLog

  /** `boost::circular_buffer`: `count` items starting at slot `head`, wrapping around. */
  class RingBuffer<T(0)> {
    const data: array<T>
    var head: nat
    var count: nat

    ghost predicate Valid()
      reads this
    {
      0 < data.Length && head < data.Length && count <= data.Length
    }

    /** The slot of the `i`-th item. */
    static function Slot(capacity: nat, head: nat, i: nat): (s: nat)
      requires head < capacity && i <= capacity
      ensures s < capacity
    {
      if head + i < capacity then head + i else head + i - capacity
    }

    ghost function Contents(): (s: seq<T>)
      requires Valid()
      reads this, data
      ensures |s| == count
    {
      seq(count, i requires Valid() && 0 <= i < count reads this, data => data[Slot(data.Length, head, i)])
    }

    constructor (capacity: nat)
      requires 0 < capacity
      ensures Valid() && fresh(data) && data.Length == capacity && Contents() == []
    {
      data := new T[capacity];
      head, count := 0, 0;
    }

    method Clear()
      requires Valid()
      modifies this
      ensures Valid() && Contents() == []
    {
      head, count := 0, 0;
    }

    method Get(i: nat) returns (x: T)
      requires Valid() && i < count
      ensures x == Contents()[i]
    {
      x := data[Slot(data.Length, head, i)];
    }

    method Set(i: nat, x: T)
      requires Valid() && i < count
      modifies data
      ensures Valid() && Contents() == old(Contents())[i := x]
    {
      data[Slot(data.Length, head, i)] := x;
    }

    /** Appends; a full buffer overwrites its first item. */
    method PushBack(x: T)
      requires Valid()
      modifies this, data
      ensures Valid()
      ensures Contents() ==
              if old(count) == data.Length then old(Contents())[1..] + [x] else old(Contents()) + [x]
    {
      if count == data.Length {
        data[head] := x;
        head := Slot(data.Length, head, 1);
      } else {
        data[Slot(data.Length, head, count)] := x;
        count := count + 1;
      }
    }

    /** Prepends into free space. */
    method PushFront(x: T)
      requires Valid() && count < data.Length
      modifies this, data
      ensures Valid() && Contents() == [x] + old(Contents())
    {
      head := if head == 0 then data.Length - 1 else head - 1;
      data[head] := x;
      count := count + 1;
    }

    /** Forgets the first item. */
    method PopFront()
      requires Valid() && 0 < count
      modifies this
      ensures Valid() && Contents() == old(Contents())[1..]
    {
      head, count := Slot(data.Length, head, 1), count - 1;
    }

    /** Moves the items from `pos` on one slot up. */
    method ShiftUp(pos: nat)
      requires Valid() && pos <= count < data.Length
      modifies data
      ensures forall k :: 0 <= k <= count && k != pos ==>
        data[Slot(data.Length, head, k)] == old(Contents())[if k < pos then k else k - 1]
    {
      ghost var s := Contents();
      var i := count;
      while pos < i
        invariant pos <= i <= count
        invariant forall k :: 0 <= k < i ==> data[Slot(data.Length, head, k)] == s[k]
        invariant forall k :: i < k <= count ==> data[Slot(data.Length, head, k)] == s[k - 1]
      {
        data[Slot(data.Length, head, i)] := data[Slot(data.Length, head, i - 1)];
        i := i - 1;
      }
    }

    /** Makes room at `pos` and writes `x` there. */
    method OpenGap(pos: nat, x: T)
      requires Valid() && pos <= count < data.Length
      modifies this, data
      ensures Valid() && Contents() == InsertAt(old(Contents()), pos, x)
    {
      hide Slot, InsertAt;
      ghost var s := Contents();
      ShiftUp(pos);
      forall k: nat | k <= count && k != pos
        ensures Slot(data.Length, head, k) != Slot(data.Length, head, pos)
      {
        SlotsDiffer(data.Length, head, k, pos);
      }
      data[Slot(data.Length, head, pos)] := x;
      count := count + 1;
      assert forall k :: 0 <= k < count && k != pos ==> Contents()[k] == s[if k < pos then k else k - 1];
      InsertedIs(s, pos, x, Contents());
    }

    static lemma SlotsDiffer(capacity: nat, head: nat, i: nat, j: nat)
      requires head < capacity && i < capacity && j < capacity && i != j
      ensures Slot(capacity, head, i) != Slot(capacity, head, j)
    {
    }

    method Insert(pos: nat, x: T)
      requires Valid() && pos <= count
      modifies this, data
      ensures Valid() && Contents() == CircularInsert(data.Length, old(Contents()), pos, x)
    {
      if count < data.Length {
        OpenGap(pos, x);
      } else if pos != 0 {
        PopFront();
        OpenGap(pos - 1, x);
      }
    }
  }

  class LimitedQueue<T(0,==)> {
    const limit: nat
    const buffer: RingBuffer<T>

    ghost predicate Valid()
      reads buffer
    {
      buffer.Valid() && buffer.data.Length == limit
    }

    ghost function Contents(): (s: seq<T>)
      requires Valid()
      reads buffer, buffer.data
      ensures |s| <= limit
    {
      buffer.Contents()
    }

    constructor (limit: nat)
      requires 0 < limit
      ensures Valid() && fresh(buffer) && fresh(buffer.data)
      ensures this.limit == limit && Contents() == []
    {
      this.limit := limit;
      buffer := new RingBuffer(limit);
    }

    method Clear()
      requires Valid()
      modifies buffer
      ensures Valid() && Contents() == QueueStep(limit, old(Contents()), Op.Clear)
    {
      buffer.Clear();
    }

    method PushBack(item: T) returns (deleted: Option<T>)
      requires Valid()
      modifies buffer, buffer.data
      ensures Valid() && Contents() == QueueStep(limit, old(Contents()), Op.PushBack(item))
      ensures deleted == if |old(Contents())| == limit then Some(old(Contents())[0]) else None
    {
      deleted := None;
      if buffer.count == limit {
        var front := buffer.Get(0);
        deleted := Some(front);
      }
      buffer.PushBack(item);
    }

    /** The two indices of the source: `b` walks down over what is pushed, `f` up over what is reported. */
    method PushFront(items: seq<T>) returns (pushed: seq<T>)
      requires Valid()
      modifies buffer, buffer.data
      ensures Valid() && Contents() == QueueStep(limit, old(Contents()), Op.PushFront(items))
      ensures Contents() == pushed + old(Contents())
    {
      hide RingBuffer.Contents, QueueStep;
      ghost var before := Contents();
      var numToPush := if |items| <= limit - buffer.count then |items| else limit - buffer.count;
      pushed := [];
      var f, b := |items| - numToPush, |items| - 1;
      PushNone(items, f, before);
      while f < |items|
        invariant Valid() && |items| - numToPush <= f <= |items|
        invariant b == |items| - 1 - (f - (|items| - numToPush))
        invariant pushed == items[|items| - numToPush..f]
        invariant Contents() == items[b + 1..] + before
      {
        PushOne(items, b, before);
        ReportOne(items, |items| - numToPush, f);
        buffer.PushFront(items[b]);
        pushed := pushed + [items[f]];
        f, b := f + 1, b - 1;
      }
      PushAll(limit, before, items);
    }

    static lemma PushNone(items: seq<T>, f: nat, before: seq<T>)
      requires f <= |items|
      ensures items[f..f] == [] && items[|items|..] + before == before
    {
    }

    static lemma PushAll(limit: nat, before: seq<T>, items: seq<T>)
      requires 0 < limit && |before| <= limit
      ensures var n := PushFrontCount(limit, before, items);
              && QueueStep(limit, before, Op.PushFront(items)) == items[|items| - n..] + before
              && items[|items| - n..|items|] == items[|items| - n..]
    {
    }

    static lemma PushOne(items: seq<T>, b: nat, before: seq<T>)
      requires b < |items|
      ensures [items[b]] + (items[b + 1..] + before) == items[b..] + before
    {
    }

    static lemma ReportOne(items: seq<T>, from: nat, f: nat)
      requires from <= f < |items|
      ensures items[from..f] + [items[f]] == items[from..f + 1]
    {
    }

    /** The first position of the needle, the search loop of the source. */
    method Search(needle: T) returns (i: nat)
      requires Valid()
      ensures i == IndexOf(Contents(), needle)
    {
      i := 0;
      while i < buffer.count
        invariant i <= |Contents()| && needle !in Contents()[..i]
      {
        var x := buffer.Get(i);
        if x == needle {
          IndexOfUnique(Contents(), needle, i);
          return;
        }
        i := i + 1;
      }
      assert Contents()[..i] == Contents();
    }

    method ReplaceItem(needle: T, replacement: T) returns (index: int)
      requires Valid()
      modifies buffer.data
      ensures Valid() && Contents() == QueueStep(limit, old(Contents()), Replace(needle, replacement))
      ensures index == if needle in old(Contents()) then IndexOf(old(Contents()), needle) else -1
    {
      index := Search(needle);
      if index == buffer.count {
        return -1;
      }
      buffer.Set(index, replacement);
    }

    method ReplaceItemAt(index: nat, replacement: T) returns (prev: Option<T>)
      requires Valid()
      modifies buffer.data
      ensures Valid() && Contents() == QueueStep(limit, old(Contents()), ReplaceAt(index, replacement))
      ensures prev == if index < |old(Contents())| then Some(old(Contents())[index]) else None
    {
      if buffer.count <= index {
        return None;
      }
      var x := buffer.Get(index);
      buffer.Set(index, replacement);
      return Some(x);
    }

    /** The hint only speeds up the search when items are distinct. */
    method ReplaceItemHint(hint: nat, needle: T, replacement: T) returns (index: int)
      requires Valid()
      modifies buffer.data
      ensures Valid()
      ensures -1 <= index < |old(Contents())|
      ensures index == -1 <==> needle !in old(Contents())
      ensures Contents() == if index == -1 then old(Contents()) else old(Contents())[index := replacement]
      ensures Distinct(old(Contents())) ==>
                && Contents() == QueueStep(limit, old(Contents()), Replace(needle, replacement))
                && index == if needle in old(Contents()) then IndexOf(old(Contents()), needle) else -1
    {
      hide RingBuffer.Contents, QueueStep, Distinct;
      ReplaceStep(limit, Contents(), needle, replacement);
      if hint < buffer.count {
        var x := buffer.Get(hint);
        if x == needle {
          if Distinct(Contents()) {
            IndexOfDistinct(Contents(), hint);
          }
          buffer.Set(hint, replacement);
          return hint;
        }
      }
      index := ReplaceItem(needle, replacement);
    }

    static lemma ReplaceStep(limit: nat, s: seq<T>, needle: T, replacement: T)
      requires 0 < limit && |s| <= limit
      ensures QueueStep(limit, s, Replace(needle, replacement)) ==
              if needle in s then s[IndexOf(s, needle) := replacement] else s
    {
    }

    method InsertBefore(needle: T, item: T) returns (inserted: bool)
      requires Valid()
      modifies buffer, buffer.data
      ensures Valid() && Contents() == QueueStep(limit, old(Contents()), Op.InsertBefore(needle, item))
      ensures inserted == (needle in old(Contents()))
    {
      hide CircularInsert, RingBuffer.Contents;
      var i := Search(needle);
      inserted := i != buffer.count;
      if inserted {
        buffer.Insert(i, item);
      }
    }

    method InsertAfter(needle: T, item: T) returns (inserted: bool)
      requires Valid()
      modifies buffer, buffer.data
      ensures Valid() && Contents() == QueueStep(limit, old(Contents()), Op.InsertAfter(needle, item))
      ensures inserted == (needle in old(Contents()))
    {
      hide CircularInsert, RingBuffer.Contents;
      var i := Search(needle);
      inserted := i != buffer.count;
      if inserted {
        buffer.Insert(i + 1, item);
      }
    }

    method GetSnapshot() returns (snapshot: seq<T>)
      requires Valid()
      ensures snapshot == Contents()
    {
      snapshot := [];
      for i := 0 to buffer.count
        invariant snapshot == Contents()[..i]
      {
        var x := buffer.Get(i);
        snapshot := snapshot + [x];
      }
    }
  }
}
