/**
  The bounded message log as a value: what each `LimitedQueue` operation does to the
  buffer, and the unbounded log that the buffer is a window of.
 */
module MessageLog {
  import opened Sequences

  datatype Op<T> =
    | PushBack(item: T)
    | PushFront(items: seq<T>)
    | InsertBefore(needle: T, item: T)
    | InsertAfter(needle: T, item: T)
    | Replace(needle: T, item: T)
    | ReplaceAt(index: nat, item: T)
    | Clear

  // ----- the bounded queue

  /**
    `boost::circular_buffer::insert`: a full buffer overwrites its first element, except
    that inserting at the beginning of a full buffer inserts nothing.
   */
  function CircularInsert<T>(limit: nat, s: seq<T>, pos: nat, x: T): seq<T>
    requires pos <= |s| <= limit
  {
    if |s| < limit then InsertAt(s, pos, x)
    else if pos == 0 then s
    else InsertAt(s[1..], pos - 1, x)
  }

  function PushFrontCount<T>(limit: nat, buf: seq<T>, items: seq<T>): nat
    requires |buf| <= limit
  {
    if |items| <= limit - |buf| then |items| else limit - |buf|
  }

  function QueueStep<T(==)>(limit: nat, buf: seq<T>, op: Op<T>): (r: seq<T>)
    requires 0 < limit && |buf| <= limit
    ensures |r| <= limit
  {
    match op
    case PushBack(x) =>
      if |buf| == limit then buf[1..] + [x] else buf + [x]
    case PushFront(items) =>
      items[|items| - PushFrontCount(limit, buf, items)..] + buf
    case InsertBefore(needle, x) =>
      if needle in buf then CircularInsert(limit, buf, IndexOf(buf, needle), x) else buf
    case InsertAfter(needle, x) =>
      if needle in buf then CircularInsert(limit, buf, IndexOf(buf, needle) + 1, x) else buf
    case Replace(needle, x) =>
      if needle in buf then buf[IndexOf(buf, needle) := x] else buf
    case ReplaceAt(i, x) =>
      if i < |buf| then buf[i := x] else buf
    case Clear => []
  }

  // ----- the unbounded log

  /** How many items of the log are no longer visible. */
  function Evicted<T>(limit: nat, log: seq<T>): nat {
    if |log| <= limit then 0 else |log| - limit
  }

  /** The last `limit` items of the log. */
  function Window<T>(limit: nat, log: seq<T>): seq<T> {
    log[Evicted(limit, log)..]
  }

  lemma WindowSize<T>(limit: nat, log: seq<T>)
    ensures |Window(limit, log)| == |log| - Evicted(limit, log) <= limit
    ensures log == log[..Evicted(limit, log)] + Window(limit, log)
  {
  }

  /** The same operations when nothing is ever evicted. An index counts from the first visible item. */
  function LogStep<T(==)>(limit: nat, log: seq<T>, op: Op<T>): seq<T> {
    match op
    case PushBack(x) => log + [x]
    case PushFront(items) => items + log
    case InsertBefore(needle, x) =>
      if needle in log then InsertAt(log, IndexOf(log, needle), x) else log
    case InsertAfter(needle, x) =>
      if needle in log then InsertAt(log, IndexOf(log, needle) + 1, x) else log
    case Replace(needle, x) =>
      if needle in log then log[IndexOf(log, needle) := x] else log
    case ReplaceAt(i, x) =>
      if Evicted(limit, log) + i < |log| then log[Evicted(limit, log) + i := x] else log
    case Clear => []
  }

  /** `op` brings in only items that the log does not hold yet. */
  ghost predicate Fresh<T>(log: seq<T>, op: Op<T>) {
    match op
    case PushBack(x) => x !in log
    case PushFront(items) => Distinct(items) && forall x :: x in items ==> x !in log
    case InsertBefore(_, x) => x !in log
    case InsertAfter(_, x) => x !in log
    case Replace(_, x) => x !in log
    case ReplaceAt(_, x) => x !in log
    case Clear => true
  }

  lemma LogStepKeepsDistinct<T>(limit: nat, log: seq<T>, op: Op<T>)
    requires Distinct(log) && Fresh(log, op)
    ensures Distinct(LogStep(limit, log, op))
  {
    hide InsertAt;
    match op
    case PushFront(items) =>
      assert forall i :: 0 <= i < |items| ==> items[i] in items;
    case InsertBefore(needle, x) =>
      InsertKeepsDistinct(log, if needle in log then IndexOf(log, needle) else 0, x);
    case InsertAfter(needle, x) =>
      InsertKeepsDistinct(log, if needle in log then IndexOf(log, needle) + 1 else 0, x);
    case _ =>
  }

  lemma InsertKeepsDistinct<T>(s: seq<T>, i: nat, x: T)
    requires Distinct(s) && i <= |s| && x !in s
    ensures Distinct(InsertAt(s, i, x))
  {
  }

  /** What the operations do around a needle that the log holds once, and what they do to a log without it. */
  lemma LogStepAround<T>(limit: nat, before: seq<T>, needle: T, after: seq<T>, x: T)
    requires needle !in before
    ensures LogStep(limit, before + [needle] + after, InsertBefore(needle, x)) == before + [x, needle] + after
    ensures LogStep(limit, before + [needle] + after, InsertAfter(needle, x)) == before + [needle, x] + after
    ensures LogStep(limit, before + [needle] + after, Replace(needle, x)) == before + [x] + after
    ensures LogStep(limit, before, InsertBefore(needle, x)) == LogStep(limit, before, InsertAfter(needle, x)) == before
    ensures LogStep(limit, before, Replace(needle, x)) == before
  {
    hide InsertAt;
    NeedleAt(before, needle, after);
    InsertAround(before, needle, after, x);
  }

  /** What the operations do to the whole log when they look for nothing; an index counts visible items only. */
  lemma LogStepWhole<T>(limit: nat, before: seq<T>, y: T, after: seq<T>, x: T, items: seq<T>)
    ensures var log := before + [y] + after;
            && LogStep(limit, log, PushBack(x)) == before + [y] + after + [x]
            && LogStep(limit, log, PushFront(items)) == items + before + [y] + after
            && LogStep(limit, log, Clear) == []
            && (var visible := if limit < |log| then limit else |log|;
                |after| < visible ==> LogStep(limit, log, ReplaceAt(visible - |after| - 1, x)) == before + [x] + after)
            && (forall i: nat :: limit <= i || |log| <= i ==> LogStep(limit, log, ReplaceAt(i, x)) == log)
  {
    assert items + (before + [y] + after) == items + before + [y] + after;
    assert (before + [y] + after)[|before| := x] == before + [x] + after;
  }

  lemma NeedleAt<T>(before: seq<T>, needle: T, after: seq<T>)
    requires needle !in before
    ensures needle in before + [needle] + after
    ensures IndexOf(before + [needle] + after, needle) == |before|
  {
    var log := before + [needle] + after;
    assert log[..|before|] == before && log[|before|] == needle;
    IndexOfUnique(log, needle, |before|);
  }

  lemma InsertAround<T>(before: seq<T>, needle: T, after: seq<T>, x: T)
    ensures var log := before + [needle] + after;
            && InsertAt(log, |before|, x) == before + [x, needle] + after
            && InsertAt(log, |before| + 1, x) == before + [needle, x] + after
            && log[|before| := x] == before + [x] + after
  {
  }

  // ----- the queue is the window of the log, step by step

  lemma InsertDrop<T>(s: seq<T>, i: nat, x: T, d: nat)
    requires i <= |s| && d <= |s|
    ensures |InsertAt(s, i, x)| == |s| + 1
    ensures i < d ==> InsertAt(s, i, x)[d..] == s[d - 1..]
    ensures d <= i ==> InsertAt(s, i, x)[d..] == InsertAt(s[d..], i - d, x)
  {
  }

  lemma WindowOfInsert<T>(limit: nat, log: seq<T>, i: nat, x: T)
    requires 0 < limit && i <= |log|
    ensures var e := Evicted(limit, log);
            Window(limit, InsertAt(log, i, x)) ==
            if i < e then Window(limit, log)
            else CircularInsert(limit, Window(limit, log), i - e, x)
  {
    hide InsertAt;
    var e := Evicted(limit, log);
    InsertDrop(log, i, x, if |log| < limit then 0 else e + 1);
    assert log[0..] == log;
    assert e + 1 <= |log| ==> log[e..][1..] == log[e + 1..];
    assert InsertAt(log, i, x)[0..] == InsertAt(log, i, x);
  }

  lemma WindowOfPushBack<T>(limit: nat, log: seq<T>, x: T)
    requires 0 < limit
    ensures |Window(limit, log)| <= limit
    ensures QueueStep(limit, Window(limit, log), PushBack(x)) == Window(limit, log + [x])
  {
  }

  lemma WindowOfPushFront<T>(limit: nat, log: seq<T>, items: seq<T>)
    requires 0 < limit
    ensures var w := Window(limit, log);
            Window(limit, items + log) == items[|items| - PushFrontCount(limit, w, items)..] + w
  {
  }

  lemma WindowOfUpdate<T>(limit: nat, log: seq<T>, i: nat, x: T)
    requires i < |log|
    ensures var e := Evicted(limit, log);
            Window(limit, log[i := x]) ==
            if i < e then Window(limit, log) else Window(limit, log)[i - e := x]
  {
  }

  lemma WindowSearch<T>(limit: nat, log: seq<T>, x: T)
    requires Distinct(log)
    ensures var e, w := Evicted(limit, log), Window(limit, log);
            if x in w then x in log && IndexOf(log, x) == e + IndexOf(w, x)
            else x in log ==> IndexOf(log, x) < e
  {
  }

  /** Inserting at the needle (`offset` 0) or right behind it (`offset` 1). */
  lemma InsertRefines<T>(limit: nat, log: seq<T>, needle: T, offset: nat, x: T)
    requires 0 < limit && Distinct(log) && offset <= 1
    ensures var w := Window(limit, log);
            (if needle in w then CircularInsert(limit, w, IndexOf(w, needle) + offset, x) else w) ==
            Window(limit, if needle in log then InsertAt(log, IndexOf(log, needle) + offset, x) else log)
  {
    hide InsertAt, CircularInsert, Window, Distinct;
    WindowSearch(limit, log, needle);
    if needle in log {
      WindowOfInsert(limit, log, IndexOf(log, needle) + offset, x);
      FullFront(limit, log, x);
    }
  }

  /** Something has been evicted only from a full window, whose front takes nothing in. */
  lemma FullFront<T>(limit: nat, log: seq<T>, x: T)
    ensures 0 < Evicted(limit, log) ==>
              |Window(limit, log)| == limit && CircularInsert(limit, Window(limit, log), 0, x) == Window(limit, log)
  {
  }

  lemma ReplaceRefines<T>(limit: nat, log: seq<T>, needle: T, x: T)
    requires 0 < limit && Distinct(log)
    ensures QueueStep(limit, Window(limit, log), Replace(needle, x)) == Window(limit, LogStep(limit, log, Replace(needle, x)))
  {
    hide Window, Distinct;
    WindowSearch(limit, log, needle);
    if needle in log {
      WindowOfUpdate(limit, log, IndexOf(log, needle), x);
    }
  }

  lemma ReplaceAtRefines<T>(limit: nat, log: seq<T>, i: nat, x: T)
    requires 0 < limit
    ensures |Window(limit, log)| <= limit
    ensures QueueStep(limit, Window(limit, log), ReplaceAt(i, x)) == Window(limit, LogStep(limit, log, ReplaceAt(i, x)))
  {
    hide Window, Evicted;
    WindowSize(limit, log);
    if Evicted(limit, log) + i < |log| {
      WindowOfUpdate(limit, log, Evicted(limit, log) + i, x);
    }
  }

  /** One operation on the window is the window of one operation on the whole log. */
  lemma StepRefines<T>(limit: nat, log: seq<T>, op: Op<T>)
    requires 0 < limit && Distinct(log)
    ensures QueueStep(limit, Window(limit, log), op) == Window(limit, LogStep(limit, log, op))
  {
    hide InsertAt, CircularInsert, Window, Distinct, Evicted;
    match op
    case PushBack(x) => WindowOfPushBack(limit, log, x);
    case PushFront(items) => WindowOfPushFront(limit, log, items);
    case InsertBefore(needle, x) => InsertRefines(limit, log, needle, 0, x);
    case InsertAfter(needle, x) => InsertRefines(limit, log, needle, 1, x);
    case Replace(needle, x) => ReplaceRefines(limit, log, needle, x);
    case ReplaceAt(i, x) => ReplaceAtRefines(limit, log, i, x);
    case Clear => WindowSize<T>(limit, []);
  }

  // ----- whole runs

  function QueueRun<T(==)>(limit: nat, buf: seq<T>, ops: seq<Op<T>>): (r: seq<T>)
    requires 0 < limit && |buf| <= limit
    ensures |r| <= limit
    decreases |ops|
  {
    if ops == [] then buf else QueueRun(limit, QueueStep(limit, buf, ops[0]), ops[1..])
  }

  function LogRun<T(==)>(limit: nat, log: seq<T>, ops: seq<Op<T>>): seq<T>
    decreases |ops|
  {
    if ops == [] then log else LogRun(limit, LogStep(limit, log, ops[0]), ops[1..])
  }

  /** Every operation of the run brings in only new items. */
  ghost predicate FreshRun<T>(limit: nat, log: seq<T>, ops: seq<Op<T>>)
    decreases |ops|
  {
    ops == [] || (Fresh(log, ops[0]) && FreshRun(limit, LogStep(limit, log, ops[0]), ops[1..]))
  }

  /** After any run the queue holds exactly the last `limit` items of the unbounded log. */
  lemma {:induction false} RunRefines<T>(limit: nat, log: seq<T>, ops: seq<Op<T>>)
    requires 0 < limit && Distinct(log) && FreshRun(limit, log, ops)
    ensures QueueRun(limit, Window(limit, log), ops) == Window(limit, LogRun(limit, log, ops))
    ensures Distinct(LogRun(limit, log, ops))
    decreases |ops|
  {
    if ops != [] {
      StepRefines(limit, log, ops[0]);
      LogStepKeepsDistinct(limit, log, ops[0]);
      RunRefines(limit, LogStep(limit, log, ops[0]), ops[1..]);
    }
  }
}
