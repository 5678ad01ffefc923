/**
  Filling late history into a channel (`Channel::fillInMissingMessages`) while other
  threads keep appending to the same queue.
 */
module FillHistory {
  import opened Sequences
  import opened MessageLog
  import opened LimitedQueue

  /** A message pointer (`ptr`) with the fields the fill looks at. */
  datatype Message = Message(ptr: nat, id: string, time: int, system: bool)

  // ----- the stable merge that the fill is meant to compute

  ghost predicate Sorted(s: seq<Message>) {
    forall i, j :: 0 <= i < j < |s| ==> s[i].time <= s[j].time
  }

  /** The first non-system message later than `t`, or the end. */
  function GapIndex(s: seq<Message>, t: int): (g: nat)
    ensures g <= |s|
    ensures g < |s| ==> !s[g].system && t < s[g].time
    ensures forall k :: 0 <= k < g ==> s[k].system || s[k].time <= t
  {
    if s == [] then 0
    else if !s[0].system && t < s[0].time then 0
    else 1 + GapIndex(s[1..], t)
  }

  /** Existing messages go first unless they are later; system messages take no part in the comparison. */
  function StableMerge(existing: seq<Message>, incoming: seq<Message>): seq<Message> {
    if incoming == [] then existing
    else if existing == [] then incoming
    else if !existing[0].system && incoming[0].time < existing[0].time then [incoming[0]] + StableMerge(existing, incoming[1..])
    else [existing[0]] + StableMerge(existing[1..], incoming)
  }

  /** The ids that the fill treats as present. */
  function PresentIds(s: seq<Message>): set<string> {
    set m | m in s && !m.system && m.id != "" :: m.id
  }

  /** The messages of the batch whose id is not present yet, in order. */
  function Missing(present: set<string>, batch: seq<Message>): seq<Message> {
    if batch == [] then []
    else if batch[0].id in present then Missing(present, batch[1..])
    else [batch[0]] + Missing(present, batch[1..])
  }

  /** The unbounded log after the fill: `appended` is everything that arrived during the fill. */
  function FilledLog(limit: nat, log: seq<Message>, batch: seq<Message>, appended: seq<Message>): seq<Message> {
    var snapshot := Window(limit, log);
    log[..Evicted(limit, log)] + StableMerge(snapshot, Missing(PresentIds(snapshot), batch)) + appended
  }

  // ----- inserting one more message into a merge

  lemma InsertAtCons<T>(h: T, s: seq<T>, p: nat, x: T)
    requires p <= |s|
    ensures [h] + InsertAt(s, p, x) == InsertAt([h] + s, p + 1, x)
  {
  }

  lemma {:induction false} MergeOne(a: seq<Message>, n: Message)
    ensures StableMerge(a, [n]) == InsertAt(a, GapIndex(a, n.time), n)
  {
    if a == [] {
    } else if !a[0].system && n.time < a[0].time {
      assert StableMerge(a, [n]) == [n] + StableMerge(a, []) && InsertAt(a, 0, n) == [n] + a;
    } else {
      hide InsertAt;
      MergeOne(a[1..], n);
      InsertAtCons(a[0], a[1..], GapIndex(a[1..], n.time), n);
      assert [a[0]] + a[1..] == a;
    }
  }

  /** Merging in `n` as well puts it at `p`, directly before the first existing message later than it. */
  ghost predicate JoinsAt(a: seq<Message>, b: seq<Message>, n: Message, p: nat) {
    var m, g := StableMerge(a, b), GapIndex(a, n.time);
    && p <= |m|
    && StableMerge(a, b + [n]) == InsertAt(m, p, n)
    && (if g < |a| then p < |m| && m[p] == a[g] else p == |m|)
  }

  lemma JoinsAfterNew(a: seq<Message>, b: seq<Message>, n: Message, p: nat)
    requires a != [] && b != [] && !a[0].system && b[0].time < a[0].time && JoinsAt(a, b[1..], n, p)
    ensures JoinsAt(a, b, n, p + 1)
  {
    hide InsertAt, GapIndex;
    assert (b + [n])[1..] == b[1..] + [n];
    InsertAtCons(b[0], StableMerge(a, b[1..]), p, n);
  }

  lemma JoinsAfterOld(a: seq<Message>, b: seq<Message>, n: Message, p: nat)
    requires a != [] && b != [] && (a[0].system || a[0].time <= b[0].time <= n.time) && JoinsAt(a[1..], b, n, p)
    ensures JoinsAt(a, b, n, p + 1)
  {
  }

  /** A later message of the batch always finds such a place. */
  lemma {:induction false} MergeSnoc(a: seq<Message>, b: seq<Message>, n: Message) returns (p: nat)
    requires Sorted(b) && (b != [] ==> b[|b| - 1].time <= n.time)
    ensures JoinsAt(a, b, n, p)
    decreases |a| + |b|
  {
    if b == [] {
      p := GapIndex(a, n.time);
      MergeOne(a, n);
      assert b + [n] == [n];
    } else if a == [] {
      p := |b|;
    } else if !a[0].system && b[0].time < a[0].time {
      hide InsertAt, GapIndex, JoinsAt;
      p := MergeSnoc(a, b[1..], n);
      JoinsAfterNew(a, b, n, p);
      p := p + 1;
    } else {
      hide InsertAt, GapIndex, JoinsAt;
      p := MergeSnoc(a[1..], b, n);
      JoinsAfterOld(a, b, n, p);
      p := p + 1;
    }
  }

  // ----- one insertion of the fill, on the unbounded log

  /** The queue operation the source performs for a missing message. */
  function FillOp(snapshot: seq<Message>, lastMsg: Message, n: Message): Op<Message> {
    var g := GapIndex(snapshot, n.time);
    if g < |snapshot| then Op.InsertBefore(snapshot[g], n) else Op.InsertAfter(lastMsg, n)
  }

  lemma InsertInMiddle<T>(e: seq<T>, m: seq<T>, a: seq<T>, p: nat, x: T)
    requires p <= |m|
    ensures InsertAt(e + m + a, |e| + p, x) == e + InsertAt(m, p, x) + a
  {
  }

  /** Operating on the middle part of a distinct log leaves the rest alone. */
  lemma StepInMiddle<T>(limit: nat, e: seq<T>, m: seq<T>, a: seq<T>, i: nat, x: T)
    requires Distinct(e + m + a) && i < |m|
    ensures LogStep(limit, e + m + a, Op.InsertBefore(m[i], x)) == e + InsertAt(m, i, x) + a
    ensures LogStep(limit, e + m + a, Op.InsertAfter(m[i], x)) == e + InsertAt(m, i + 1, x) + a
  {
    hide InsertAt;
    var log := e + m + a;
    assert log[|e| + i] == m[i];
    IndexOfDistinct(log, |e| + i);
    InsertInMiddle(e, m, a, i, x);
    InsertInMiddle(e, m, a, i + 1, x);
  }

  ghost predicate IsLast<T>(x: T, s: seq<T>) {
    s != [] && s[|s| - 1] == x
  }

  lemma FillStep(limit: nat, e: seq<Message>, snapshot: seq<Message>, done: seq<Message>,
                 appended: seq<Message>, lastMsg: Message, n: Message)
    requires snapshot != [] && Sorted(done) && (done != [] ==> done[|done| - 1].time <= n.time)
    requires Distinct(e + StableMerge(snapshot, done) + appended)
    requires IsLast(lastMsg, StableMerge(snapshot, done))
    ensures var m, m' := StableMerge(snapshot, done), StableMerge(snapshot, done + [n]);
            && LogStep(limit, e + m + appended, FillOp(snapshot, lastMsg, n)) == e + m' + appended
            && IsLast(if GapIndex(snapshot, n.time) < |snapshot| then lastMsg else n, m')
  {
    hide StableMerge, LogStep, GapIndex, Distinct;
    var m := StableMerge(snapshot, done);
    var p := MergeSnoc(snapshot, done, n);
    StepInMiddle(limit, e, m, appended, if p < |m| then p else |m| - 1, n);
  }

  // ----- bookkeeping of the loop over the batch

  lemma {:induction false} MissingSnoc(present: set<string>, batch: seq<Message>, m: Message)
    ensures Missing(present, batch + [m]) ==
            if m.id in present then Missing(present, batch) else Missing(present, batch) + [m]
  {
    if batch == [] {
      assert batch + [m] == [m];
    } else {
      MissingSnoc(present, batch[1..], m);
      assert (batch + [m])[1..] == batch[1..] + [m];
    }
  }

  lemma {:induction false} MissingMembers(present: set<string>, batch: seq<Message>)
    ensures forall m :: m in Missing(present, batch) ==> m in batch
  {
    if batch != [] {
      MissingMembers(present, batch[1..]);
    }
  }

  lemma SortedCons(h: Message, s: seq<Message>)
    requires Sorted(s) && forall m :: m in s ==> h.time <= m.time
    ensures Sorted([h] + s)
  {
  }

  lemma SortedTail(batch: seq<Message>)
    requires Sorted(batch) && batch != []
    ensures Sorted(batch[1..]) && forall m :: m in batch[1..] ==> batch[0].time <= m.time
  {
  }

  lemma {:induction false} MissingSorted(present: set<string>, batch: seq<Message>)
    requires Sorted(batch)
    ensures Sorted(Missing(present, batch))
  {
    hide Sorted;
    if batch == [] {
      SortedPrefix(batch, 0);
    } else {
      SortedTail(batch);
      MissingSorted(present, batch[1..]);
      MissingMembers(present, batch[1..]);
      SortedCons(batch[0], Missing(present, batch[1..]));
    }
  }

  lemma MissingPrefix(present: set<string>, before: seq<Message>, n: Message)
    requires Sorted(before + [n])
    ensures var done := Missing(present, before);
            Sorted(done) && (done != [] ==> done[|done| - 1].time <= n.time)
  {
    var done := Missing(present, before);
    assert before == (before + [n])[..|before|];
    MissingSorted(present, before);
    MissingMembers(present, before);
    assert forall i :: 0 <= i < |before| ==> (before + [n])[i] == before[i];
    assert (before + [n])[|before|] == n;
    if done != [] {
      assert done[|done| - 1] in before;
    }
  }

  // ----- the fill, interleaved with appends

  /** Other threads append `items` through `Channel::addMessage`. */
  method Append(q: LimitedQueue<Message>, items: seq<Message>, ghost log: seq<Message>)
    requires q.Valid() && 0 < q.limit && q.Contents() == Window(q.limit, log)
    modifies q.buffer, q.buffer.data
    ensures q.Valid() && q.Contents() == Window(q.limit, log + items)
  {
    hide Window, QueueStep, LimitedQueue.Contents;
    assert log + items[..0] == log;
    for i := 0 to |items|
      invariant q.Valid() && q.Contents() == Window(q.limit, log + items[..i])
    {
      AppendStep(q.limit, log, items, i);
      var _ := q.PushBack(items[i]);
    }
    assert items[..|items|] == items;
  }

  lemma AppendStep(limit: nat, log: seq<Message>, items: seq<Message>, i: nat)
    requires 0 < limit && i < |items|
    ensures |Window(limit, log + items[..i])| <= limit
    ensures QueueStep(limit, Window(limit, log + items[..i]), PushBack(items[i])) == Window(limit, log + items[..i + 1])
  {
    hide Window, QueueStep;
    WindowOfPushBack(limit, log + items[..i], items[i]);
    assert log + items[..i] + [items[i]] == log + items[..i + 1];
  }

  /** The inner loop of the fill: the first message of the snapshot that comes after time `t`. */
  method FindGap(snapshot: seq<Message>, t: int) returns (g: nat)
    ensures g == GapIndex(snapshot, t)
  {
    g := 0;
    while g < |snapshot|
      invariant g <= |snapshot| && GapIndex(snapshot, t) == g + GapIndex(snapshot[g..], t)
    {
      if !snapshot[g].system && t < snapshot[g].time {
        return;
      }
      g := g + 1;
    }
  }

  lemma {:induction false} MergeElements(a: seq<Message>, b: seq<Message>)
    ensures multiset(StableMerge(a, b)) == multiset(a) + multiset(b)
    decreases |a| + |b|
  {
    if a != [] && b != [] {
      if !a[0].system && b[0].time < a[0].time {
        MergeElements(a, b[1..]);
        HeadCounts(b);
      } else {
        MergeElements(a[1..], b);
        HeadCounts(a);
      }
    }
  }

  lemma {:induction false} MissingSplit(present: set<string>, batch: seq<Message>, k: nat)
    requires k <= |batch|
    ensures Missing(present, batch) == Missing(present, batch[..k]) + Missing(present, batch[k..])
  {
    if k != 0 {
      MissingSplit(present, batch[1..], k - 1);
      assert batch[..k][1..] == batch[1..][..k - 1];
    }
  }

  /** The log as it stands after `k` messages of the batch and `j` groups of appends. */
  function PartialLog(limit: nat, log: seq<Message>, batch: seq<Message>, env: seq<seq<Message>>, k: nat, j: nat): seq<Message>
    requires k <= |batch| && j <= |env|
  {
    FilledLog(limit, log, batch[..k], Flatten(env[..j]))
  }

  lemma PiecesDistinct<T>(e: seq<T>, w: seq<T>, b1: seq<T>, b2: seq<T>, f1: seq<T>, f2: seq<T>, m: seq<T>)
    requires Distinct((e + w) + (b1 + b2) + (f1 + f2)) && multiset(m) <= multiset(w) + multiset(b1)
    ensures Distinct(e + m + f1)
  {
    hide Distinct;
    SubDistinct(e + m + f1, (e + w) + (b1 + b2) + (f1 + f2));
  }

  /** What the fill adds and what arrives meanwhile are messages the log does not hold, all different. */
  ghost predicate AllNew(limit: nat, log: seq<Message>, batch: seq<Message>, env: seq<seq<Message>>) {
    Distinct(log + Missing(PresentIds(Window(limit, log)), batch) + Flatten(env))
  }

  lemma PartialDistinct(limit: nat, log: seq<Message>, batch: seq<Message>, env: seq<seq<Message>>, k: nat, j: nat)
    requires AllNew(limit, log, batch, env) && k <= |batch| && j <= |env|
    ensures Distinct(PartialLog(limit, log, batch, env, k, j))
  {
    hide Distinct, Window, Missing, Flatten, StableMerge, PresentIds;
    var w := Window(limit, log);
    var present := PresentIds(w);
    WindowSize(limit, log);
    FlattenSplit(env, j);
    MissingSplit(present, batch, k);
    MergeElements(w, Missing(present, batch[..k]));
    PiecesDistinct(log[..Evicted(limit, log)], w, Missing(present, batch[..k]), Missing(present, batch[k..]),
                   Flatten(env[..j]), Flatten(env[j..]), StableMerge(w, Missing(present, batch[..k])));
  }

  lemma PartialEnds(limit: nat, log: seq<Message>, batch: seq<Message>, env: seq<seq<Message>>)
    ensures PartialLog(limit, log, batch, env, 0, 0) == log
    ensures PartialLog(limit, log, batch, env, |batch|, |env|) == FilledLog(limit, log, batch, Flatten(env))
    ensures Missing(PresentIds(Window(limit, log)), batch[..0]) == []
    ensures batch[..|batch|] == batch
    ensures StableMerge(Window(limit, log), []) == Window(limit, log)
  {
    assert env[..|env|] == env;
  }

  lemma FilledEmpty(limit: nat, batch: seq<Message>, appended: seq<Message>)
    ensures FilledLog(limit, [], batch, appended) == batch + appended
    ensures Missing(PresentIds(Window(limit, [])), batch) == batch
  {
    assert PresentIds(Window(limit, [])) == {};
    MissingAll({}, batch);
  }

  /** One insertion of the fill takes the log one message further. */
  lemma FillAdvances(limit: nat, log: seq<Message>, before: seq<Message>, appended: seq<Message>, lastMsg: Message, n: Message)
    requires Distinct(FilledLog(limit, log, before, appended)) && Sorted(before + [n])
    requires var w := Window(limit, log);
             w != [] && n.id !in PresentIds(w) && IsLast(lastMsg, StableMerge(w, Missing(PresentIds(w), before)))
    ensures var w := Window(limit, log);
            && LogStep(limit, FilledLog(limit, log, before, appended), FillOp(w, lastMsg, n))
               == FilledLog(limit, log, before + [n], appended)
            && IsLast(if GapIndex(w, n.time) < |w| then lastMsg else n,
                      StableMerge(w, Missing(PresentIds(w), before + [n])))
  {
    hide Distinct, Sorted, Window, StableMerge, LogStep, FillOp, GapIndex, Missing, PresentIds, IsLast;
    var w := Window(limit, log);
    MissingSnoc(PresentIds(w), before, n);
    MissingPrefix(PresentIds(w), before, n);
    FillStep(limit, log[..Evicted(limit, log)], w, Missing(PresentIds(w), before), appended, lastMsg, n);
  }

  /** What is missing, in terms of the messages themselves. */
  lemma {:induction false} MissingMeans(snapshot: seq<Message>, batch: seq<Message>)
    ensures Missing(PresentIds(snapshot), batch) != [] <==>
            exists m :: m in batch && (m.id == "" || forall x :: x in snapshot && !x.system ==> x.id != m.id)
  {
    if batch != [] {
      var m := batch[0];
      assert m.id !in PresentIds(snapshot) <==> m.id == "" || forall x :: x in snapshot && !x.system ==> x.id != m.id;
      MissingMeans(snapshot, batch[1..]);
      assert forall x :: x in batch <==> x == m || x in batch[1..];
    }
  }

  // ----- the method

  /**
    `env[k]` is what other threads append just before the fill turns to message `k` of the
    batch, and `env[|batch|]` what they append after its last step: every interleaving is
    some choice of `env`. The snapshot is taken first. `log` is the unbounded log the queue shows a window of.
   */
  method FillInMissingMessages(q: LimitedQueue<Message>, batch: seq<Message>, env: seq<seq<Message>>,
                               ghost log: seq<Message>) returns (signalled: bool)
    requires q.Valid() && 0 < q.limit && q.Contents() == Window(q.limit, log)
    requires |env| == |batch| + 1 && AllNew(q.limit, log, batch, env) && Sorted(batch)
    modifies q.buffer, q.buffer.data
    ensures q.Valid() && q.Contents() == Window(q.limit, FilledLog(q.limit, log, batch, Flatten(env)))
    ensures signalled <==> exists m :: m in batch &&
                             (m.id == "" || forall x :: x in old(q.Contents()) && !x.system ==> x.id != m.id)
  {
    hide Window, FilledLog, AllNew, StableMerge, Missing, Distinct, Sorted, Flatten, PresentIds, FillOp, LogStep,
         QueueStep, GapIndex, LimitedQueue.Contents;
    var snapshot := q.GetSnapshot();
    PartialEnds(q.limit, log, batch, env);
    MissingMeans(snapshot, batch);
    if snapshot == [] {
      signalled := FillEmpty(q, batch, env, log);
      return;
    }
    var present := CollectIds(snapshot);
    signalled := false;
    var lastMsg := snapshot[|snapshot| - 1];
    for k := 0 to |batch|
      invariant q.Valid() && q.Contents() == Window(q.limit, PartialLog(q.limit, log, batch, env, k, k))
      invariant signalled == (Missing(present, batch[..k]) != [])
      invariant IsLast(lastMsg, StableMerge(snapshot, Missing(present, batch[..k])))
    {
      AppendGroup(q, batch, env, log, k, k);
      MissingSnoc(present, batch[..k], batch[k]);
      assert batch[..k] + [batch[k]] == batch[..k + 1];
      SortedPrefix(batch, k + 1);
      if batch[k].id in present {
        PartialSkip(q.limit, log, batch, env, k);
      } else {
        signalled := true;
        PartialDistinct(q.limit, log, batch, env, k, k + 1);
        FillAdvances(q.limit, log, batch[..k], Flatten(env[..k + 1]), lastMsg, batch[k]);
        StepRefines(q.limit, PartialLog(q.limit, log, batch, env, k, k + 1), FillOp(snapshot, lastMsg, batch[k]));
        lastMsg := FillOne(q, snapshot, lastMsg, batch[k]);
      }
    }
    AppendGroup(q, batch, env, log, |batch|, |batch|);
  }

  lemma SortedPrefix(s: seq<Message>, k: nat)
    requires Sorted(s) && k <= |s|
    ensures Sorted(s[..k])
  {
  }

  lemma PartialSkip(limit: nat, log: seq<Message>, batch: seq<Message>, env: seq<seq<Message>>, k: nat)
    requires k < |batch| && |env| == |batch| + 1 && batch[k].id in PresentIds(Window(limit, log))
    ensures PartialLog(limit, log, batch, env, k, k + 1) == PartialLog(limit, log, batch, env, k + 1, k + 1)
  {
    hide Window, StableMerge, Missing, Flatten, PresentIds;
    MissingSnoc(PresentIds(Window(limit, log)), batch[..k], batch[k]);
    assert batch[..k] + [batch[k]] == batch[..k + 1];
  }

  /** The ids already in the channel. */
  method CollectIds(snapshot: seq<Message>) returns (present: set<string>)
    ensures present == PresentIds(snapshot)
  {
    present := {};
    for i := 0 to |snapshot|
      invariant present == PresentIds(snapshot[..i])
    {
      var m := snapshot[i];
      assert snapshot[..i + 1] == snapshot[..i] + [m];
      if !m.system && m.id != "" {
        present := present + {m.id};
      }
    }
    assert snapshot[..|snapshot|] == snapshot;
  }

  method AppendGroup(q: LimitedQueue<Message>, batch: seq<Message>, env: seq<seq<Message>>, ghost log: seq<Message>,
                     ghost k: nat, j: nat)
    requires q.Valid() && 0 < q.limit && k <= |batch| && j < |env|
    requires q.Contents() == Window(q.limit, PartialLog(q.limit, log, batch, env, k, j))
    modifies q.buffer, q.buffer.data
    ensures q.Valid() && q.Contents() == Window(q.limit, PartialLog(q.limit, log, batch, env, k, j + 1))
  {
    hide Window, StableMerge, Missing, PresentIds, Flatten, LimitedQueue.Contents;
    Append(q, env[j], PartialLog(q.limit, log, batch, env, k, j));
    ghost var snapshot := Window(q.limit, log);
    FlattenNext(log[..Evicted(q.limit, log)] + StableMerge(snapshot, Missing(PresentIds(snapshot), batch[..k])), env, j);
  }

  /** The body of the outer loop for a message that is not present yet. */
  method FillOne(q: LimitedQueue<Message>, snapshot: seq<Message>, lastMsg: Message, msg: Message)
    returns (newLast: Message)
    requires q.Valid() && 0 < q.limit
    modifies q.buffer, q.buffer.data
    ensures q.Valid() && q.Contents() == QueueStep(q.limit, old(q.Contents()), FillOp(snapshot, lastMsg, msg))
    ensures newLast == if GapIndex(snapshot, msg.time) < |snapshot| then lastMsg else msg
  {
    newLast := lastMsg;
    var g := FindGap(snapshot, msg.time);
    if g < |snapshot| {
      var _ := q.InsertBefore(snapshot[g], msg);
    } else {
      var _ := q.InsertAfter(lastMsg, msg);
      newLast := msg;
    }
  }

  lemma NothingLogged(limit: nat, log: seq<Message>)
    requires 0 < limit && Window(limit, log) == []
    ensures log == []
  {
  }

  lemma FlattenFirst<T>(groups: seq<seq<T>>)
    requires groups != []
    ensures Flatten(groups[..1]) == groups[0]
  {
    assert groups[..1] == [groups[0]];
  }

  lemma FlattenNext<T>(before: seq<T>, groups: seq<seq<T>>, j: nat)
    requires j < |groups|
    ensures before + Flatten(groups[..j]) + groups[j] == before + Flatten(groups[..j + 1])
  {
    FlattenSnoc(groups[..j], groups[j]);
    assert groups[..j] + [groups[j]] == groups[..j + 1];
  }

  /** Pushes the batch to the front of the queue, and so of the log. */
  method AddAtStart(q: LimitedQueue<Message>, batch: seq<Message>, ghost log: seq<Message>)
    requires q.Valid() && 0 < q.limit && q.Contents() == Window(q.limit, log)
    modifies q.buffer, q.buffer.data
    ensures q.Valid() && q.Contents() == Window(q.limit, batch + log)
  {
    hide Window;
    WindowOfPushFront(q.limit, log, batch);
    var _ := q.PushFront(batch);
  }

  /** An empty channel takes the whole batch at its front. */
  method FillEmpty(q: LimitedQueue<Message>, batch: seq<Message>, env: seq<seq<Message>>, ghost log: seq<Message>)
    returns (signalled: bool)
    requires q.Valid() && 0 < q.limit && q.Contents() == Window(q.limit, log) == []
    requires |env| == |batch| + 1
    modifies q.buffer, q.buffer.data
    ensures q.Valid() && q.Contents() == Window(q.limit, FilledLog(q.limit, log, batch, Flatten(env)))
    ensures signalled == (Missing(PresentIds(Window(q.limit, log)), batch) != [])
  {
    hide Window, FilledLog, AllNew, Missing, PresentIds, LimitedQueue.Contents, Flatten, StableMerge, QueueStep, LogStep;
    NothingLogged(q.limit, log);
    Append(q, env[0], log);
    FlattenFirst(env);
    assert log + env[0] == env[0];
    AddAtStart(q, batch, env[0]);
    signalled := batch != [];
    for j := 1 to |env|
      invariant q.Valid() && q.Contents() == Window(q.limit, batch + Flatten(env[..j]))
    {
      Append(q, env[j], batch + Flatten(env[..j]));
      FlattenNext(batch, env, j);
    }
    assert env[..|env|] == env;
    FilledEmpty(q.limit, batch, Flatten(env));
  }

  lemma {:induction false} MissingAll(present: set<string>, batch: seq<Message>)
    requires present == {}
    ensures Missing(present, batch) == batch
  {
    if batch != [] {
      MissingAll(present, batch[1..]);
    }
  }
}
