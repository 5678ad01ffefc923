/**
  The token bucket: a callback costs one token, and a timer started after the callback gives
  the token back after the cooldown. A callback may itself send more items.
 */
module RatelimitBucket {

  /** An item, with what its callback sends while it runs. */
  datatype Item = Item(name: string, sends: seq<Item>)

  datatype Call = Call(time: int, item: Item)

  /** The bucket and what it has caused: pending timers (by start time), callbacks made, items ever sent. */
  datatype State = State(budget: int, queue: seq<Item>, timers: seq<int>, calls: seq<Call>, sent: seq<Item>)

  function Tokens(b: State): nat {
    if b.budget > 0 then b.budget else 0
  }

  /** The first half of `handleOne`: the item leaves the queue and its callback begins. */
  function Take(b: State, now: int): State
    requires b.queue != []
  {
    b.(budget := b.budget - 1, queue := b.queue[1..], calls := b.calls + [Call(now, b.queue[0])])
  }

  /** The second half: the callback has returned and the timer starts. */
  function StartTimer(b: State, now: int): State {
    b.(timers := b.timers + [now])
  }

  function HandleOne(b: State, now: int): (r: State)
    ensures r.budget <= b.budget
    decreases Tokens(b), if b.budget > 0 then 0 else 3, 0
  {
    if b.queue == [] then b
    else StartTimer(SendAll(Take(b, now), b.queue[0].sends, now), now)
  }

  /** What a callback does. */
  function SendAll(b: State, items: seq<Item>, now: int): (r: State)
    ensures r.budget <= b.budget
    decreases Tokens(b), 2, |items|
  {
    if items == [] then b else SendAll(Send(b, items[0], now), items[1..], now)
  }

  function Enqueue(b: State, item: Item): State {
    b.(queue := b.queue + [item], sent := b.sent + [item])
  }

  function Send(b: State, item: Item, now: int): (r: State)
    ensures r.budget <= b.budget
    decreases Tokens(b), 1, 0
  {
    if b.budget > 0 then HandleOne(Enqueue(b, item), now) else Enqueue(b, item)
  }

  /** The timer `k` is gone and its token is back. */
  function Expire(b: State, k: nat): State
    requires k < |b.timers|
  {
    b.(timers := b.timers[..k] + b.timers[k + 1..], budget := b.budget + 1)
  }

  function Fire(b: State, k: nat, now: int): State
    requires k < |b.timers|
  {
    HandleOne(Expire(b, k), now)
  }

  // ----- the class

  class Bucket {
    var budget: int
    const cooldown: nat
    var queue: seq<Item>
    /** The timers this object is waiting for, and the callbacks it has made. */
    var timers: seq<int>
    var calls: seq<Call>
    ghost var sent: seq<Item>

    ghost function View(): State
      reads this
    {
      State(budget, queue, timers, calls, sent)
    }

    constructor (budget: int, cooldown: nat)
      ensures View() == State(budget, [], [], [], []) && this.cooldown == cooldown
    {
      this.budget, this.cooldown := budget, cooldown;
      queue, timers, calls, sent := [], [], [], [];
    }

    method SendItem(item: Item, now: int)
      modifies this
      ensures View() == Send(old(View()), item, now)
      decreases Tokens(View()), 1, 0
    {
      queue := queue + [item];
      sent := sent + [item];
      if budget > 0 {
        HandleNext(now);
      }
    }

    method HandleNext(now: int)
      modifies this
      ensures View() == HandleOne(old(View()), now)
      decreases Tokens(View()), if budget > 0 then 0 else 3, 0
    {
      if queue == [] {
        return;
      }
      var item := queue[0];
      queue := queue[1..];
      budget := budget - 1;
      calls := calls + [Call(now, item)];
      Callback(item.sends, now);
      timers := timers + [now];
    }

    /** Whatever the callback does, all that comes back to the bucket is what it sends. */
    method Callback(items: seq<Item>, now: int)
      modifies this
      ensures View() == SendAll(old(View()), items, now)
      decreases Tokens(View()), 2, |items|
    {
      if items != [] {
        SendItem(items[0], now);
        Callback(items[1..], now);
      }
    }

    method TimerFires(k: nat, now: int)
      requires k < |timers| && timers[k] + cooldown <= now
      modifies this
      ensures View() == Fire(old(View()), k, now)
    {
      timers := timers[..k] + timers[k + 1..];
      budget := budget + 1;
      HandleNext(now);
    }
  }

  // ----- whole runs

  datatype Event = SendEvent(item: Item, at: int) | FireEvent(timer: nat, at: int)

  /** Time does not run backwards, and no timer fires early. */
  predicate Possible(b: State, event: Event, cooldown: nat, now: int) {
    && now <= event.at
    && (event.FireEvent? ==> event.timer < |b.timers| && b.timers[event.timer] + cooldown <= event.at)
  }

  function Step(b: State, event: Event, cooldown: nat, now: int): State
    requires Possible(b, event, cooldown, now)
  {
    match event
    case SendEvent(item, t) => Send(b, item, t)
    case FireEvent(k, t) => Fire(b, k, t)
  }

  ghost predicate PossibleRun(b: State, events: seq<Event>, cooldown: nat, now: int)
    decreases |events|
  {
    events == [] ||
    (Possible(b, events[0], cooldown, now)
     && PossibleRun(Step(b, events[0], cooldown, now), events[1..], cooldown, events[0].at))
  }

  ghost function Run(b: State, events: seq<Event>, cooldown: nat, now: int): State
    requires PossibleRun(b, events, cooldown, now)
    decreases |events|
  {
    if events == [] then b else Run(Step(b, events[0], cooldown, now), events[1..], cooldown, events[0].at)
  }

  function Items(calls: seq<Call>): seq<Item> {
    seq(|calls|, i requires 0 <= i < |calls| => calls[i].item)
  }

  /** The times of the callbacks later than `bound`. */
  function Recent(calls: seq<Call>, bound: int): seq<int> {
    if calls == [] then []
    else
      var last := calls[|calls| - 1];
      Recent(calls[..|calls| - 1], bound) + if last.time > bound then [last.time] else []
  }

  /** How many callbacks may be outstanding at once. */
  function Capacity(initial: int): nat {
    if initial < 0 then 0 else initial
  }

  /** After every callback, at most `capacity` callbacks lie in the cooldown that ends with it. */
  predicate Throttled(calls: seq<Call>, cooldown: nat, capacity: nat) {
    calls == [] ||
    var n := |calls| - 1;
    |Recent(calls, calls[n].time - cooldown)| <= capacity && Throttled(calls[..n], cooldown, capacity)
  }

  /** Every one of these callbacks still has its own timer pending. */
  ghost predicate Covered(times: seq<int>, timers: seq<int>) {
    multiset(times) <= multiset(timers)
  }

  /** The start times of the timers that running callbacks will leave behind. */
  function Opened(running: nat, now: int): seq<int> {
    seq(running, _ => now)
  }

  /** What holds while `running` callbacks have begun and not returned. */
  ghost predicate During(b: State, initial: int, cooldown: nat, now: int, running: nat) {
    && b.budget + |b.timers| + running == initial
    && |b.timers| + running <= Capacity(initial)
    && (b.queue != [] ==> b.budget <= 0)
    && b.sent == Items(b.calls) + b.queue
    && Covered(Recent(b.calls, now - cooldown), b.timers + Opened(running, now))
    && Throttled(b.calls, cooldown, Capacity(initial))
  }

  ghost predicate Invariant(b: State, initial: int, cooldown: nat, now: int) {
    During(b, initial, cooldown, now, 0)
  }

  lemma CoveredSize(times: seq<int>, timers: seq<int>)
    requires Covered(times, timers)
    ensures |times| <= |timers|
  {
    assert multiset(timers) == multiset(times) + (multiset(timers) - multiset(times));
    assert |multiset(timers)| == |multiset(times)| + |multiset(timers) - multiset(times)|;
  }

  lemma CoveredLess(fewer: seq<int>, times: seq<int>, timers: seq<int>)
    requires Covered(times, timers) && multiset(fewer) <= multiset(times)
    ensures Covered(fewer, timers)
  {
  }

  lemma CoveredRemove(times: seq<int>, timers: seq<int>, k: nat)
    requires Covered(times, timers) && k < |timers| && timers[k] !in times
    ensures Covered(times, timers[..k] + timers[k + 1..])
  {
    assert timers == timers[..k] + ([timers[k]] + timers[k + 1..]);
    assert multiset(timers) == multiset(timers[..k] + timers[k + 1..]) + multiset{timers[k]};
    assert multiset(times)[timers[k]] == 0;
  }

  lemma CoveredAdd(times: seq<int>, timers: seq<int>, t: int)
    requires Covered(times, timers)
    ensures Covered(times + [t], timers + [t])
    ensures Covered(times, timers + [t])
  {
  }

  lemma OneMore(fewer: seq<int>, times: seq<int>, t: int, inFewer: bool, inTimes: bool)
    requires multiset(fewer) <= multiset(times) && (inFewer ==> inTimes)
    ensures multiset(fewer + if inFewer then [t] else []) <= multiset(times + if inTimes then [t] else [])
  {
    assert fewer + [] == fewer && times + [] == times;
  }

  lemma {:induction false} RecentLater(calls: seq<Call>, bound: int, later: int)
    requires bound <= later
    ensures multiset(Recent(calls, later)) <= multiset(Recent(calls, bound))
  {
    if calls != [] {
      var n := |calls| - 1;
      RecentLater(calls[..n], bound, later);
      OneMore(Recent(calls[..n], later), Recent(calls[..n], bound), calls[n].time, calls[n].time > later, calls[n].time > bound);
    }
  }

  lemma {:induction false} RecentBound(calls: seq<Call>, bound: int)
    ensures forall t :: t in Recent(calls, bound) ==> t > bound
  {
    if calls != [] {
      RecentBound(calls[..|calls| - 1], bound);
    }
  }

  lemma NoneOpened(timers: seq<int>, now: int)
    ensures timers + Opened(0, now) == timers
  {
  }

  /** The invariant survives waiting. */
  lemma Wait(b: State, initial: int, cooldown: nat, now: int, later: int)
    requires Invariant(b, initial, cooldown, now) && now <= later
    ensures Invariant(b, initial, cooldown, later)
  {
    hide Covered, Recent, Throttled, Items, Opened;
    NoneOpened(b.timers, now);
    NoneOpened(b.timers, later);
    RecentLater(b.calls, now - cooldown, later - cooldown);
    CoveredLess(Recent(b.calls, later - cooldown), Recent(b.calls, now - cooldown), b.timers);
  }

  lemma CallAppended(calls: seq<Call>, call: Call, bound: int, cooldown: nat, capacity: nat)
    ensures Recent(calls + [call], bound) ==
            if call.time > bound then Recent(calls, bound) + [call.time] else Recent(calls, bound)
    ensures Items(calls + [call]) == Items(calls) + [call.item]
    ensures Throttled(calls + [call], cooldown, capacity) <==>
            |Recent(calls + [call], call.time - cooldown)| <= capacity && Throttled(calls, cooldown, capacity)
  {
  }

  /** A callback that begins, or returns, moves one start time between the running ones and the timers. */
  lemma OpenedOne(timers: seq<int>, running: nat, now: int)
    ensures timers + Opened(running + 1, now) == timers + Opened(running, now) + [now]
    ensures multiset(timers + [now] + Opened(running, now)) == multiset(timers + Opened(running + 1, now))
    ensures |timers + Opened(running, now)| == |timers| + running
  {
    assert Opened(running + 1, now) == Opened(running, now) + [now];
  }

  /** With a free token, a callback may begin. */
  lemma TakeKeeps(b: State, initial: int, cooldown: nat, now: int, running: nat)
    requires b.budget + |b.timers| + running == initial && 0 < b.budget && b.sent == Items(b.calls) + b.queue
    requires Covered(Recent(b.calls, now - cooldown), b.timers + Opened(running, now))
    requires Throttled(b.calls, cooldown, Capacity(initial))
    requires b.queue != [] && (|b.queue| > 1 ==> b.budget == 1)
    ensures During(Take(b, now), initial, cooldown, now, running + 1)
  {
    hide Covered, Recent, Throttled, Items, Opened;
    var call := Call(now, b.queue[0]);
    var timers := b.timers + Opened(running, now);
    CallAppended(b.calls, call, now - cooldown, cooldown, Capacity(initial));
    CoveredAdd(Recent(b.calls, now - cooldown), timers, now);
    OpenedOne(b.timers, running, now);
    CoveredSize(Recent(b.calls + [call], now - cooldown), timers + [now]);
    HeadMoves(Items(b.calls), b.queue);
  }

  lemma HeadMoves<T>(done: seq<T>, queue: seq<T>)
    requires queue != []
    ensures done + queue == done + [queue[0]] + queue[1..]
  {
  }

  lemma StartTimerKeeps(b: State, initial: int, cooldown: nat, now: int, running: nat)
    requires During(b, initial, cooldown, now, running + 1)
    ensures During(StartTimer(b, now), initial, cooldown, now, running)
  {
    hide Recent, Throttled, Items, Opened;
    OpenedOne(b.timers, running, now);
  }

  /** With a free token, handling one item keeps the invariant, whatever its callback sends. */
  lemma {:induction false} HandleOneKeeps(b: State, initial: int, cooldown: nat, now: int, running: nat)
    requires b.budget + |b.timers| + running == initial && 0 < b.budget && b.sent == Items(b.calls) + b.queue
    requires Covered(Recent(b.calls, now - cooldown), b.timers + Opened(running, now))
    requires Throttled(b.calls, cooldown, Capacity(initial))
    requires |b.queue| > 1 ==> b.budget == 1
    ensures During(HandleOne(b, now), initial, cooldown, now, running)
    decreases Tokens(b), 0, 0
  {
    hide Covered, Recent, Throttled, Items, Opened, SendAll;
    if b.queue != [] {
      TakeKeeps(b, initial, cooldown, now, running);
      SendAllKeeps(Take(b, now), b.queue[0].sends, initial, cooldown, now, running + 1);
      StartTimerKeeps(SendAll(Take(b, now), b.queue[0].sends, now), initial, cooldown, now, running);
    }
  }

  lemma {:induction false} SendAllKeeps(b: State, items: seq<Item>, initial: int, cooldown: nat, now: int, running: nat)
    requires During(b, initial, cooldown, now, running)
    ensures During(SendAll(b, items, now), initial, cooldown, now, running)
    decreases Tokens(b), 2, |items|
  {
    hide During, Send;
    if items != [] {
      SendKeeps(b, items[0], initial, cooldown, now, running);
      SendAllKeeps(Send(b, items[0], now), items[1..], initial, cooldown, now, running);
    }
  }

  lemma {:induction false} SendKeeps(b: State, item: Item, initial: int, cooldown: nat, now: int, running: nat)
    requires During(b, initial, cooldown, now, running)
    ensures During(Send(b, item, now), initial, cooldown, now, running)
    decreases Tokens(b), 1, 0
  {
    hide Covered, Recent, Throttled, Items, Opened, HandleOne;
    if 0 < b.budget {
      HandleOneKeeps(Enqueue(b, item), initial, cooldown, now, running);
    }
  }

  lemma FireKeeps(b: State, k: nat, initial: int, cooldown: nat, now: int)
    requires Invariant(b, initial, cooldown, now) && k < |b.timers| && b.timers[k] + cooldown <= now
    ensures Invariant(Fire(b, k, now), initial, cooldown, now)
  {
    hide Covered, Recent, Throttled, Items, Opened, HandleOne;
    NoneOpened(b.timers, now);
    NoneOpened(Expire(b, k).timers, now);
    RecentBound(b.calls, now - cooldown);
    CoveredRemove(Recent(b.calls, now - cooldown), b.timers, k);
    HandleOneKeeps(Expire(b, k), initial, cooldown, now, 0);
  }

  /** Every step keeps the invariant. */
  lemma StepKeeps(b: State, event: Event, initial: int, cooldown: nat, now: int)
    requires Invariant(b, initial, cooldown, now) && Possible(b, event, cooldown, now)
    ensures Invariant(Step(b, event, cooldown, now), initial, cooldown, event.at)
  {
    hide During, Send, Fire;
    Wait(b, initial, cooldown, now, event.at);
    match event
    case SendEvent(item, t) => SendKeeps(b, item, initial, cooldown, t, 0);
    case FireEvent(k, t) => FireKeeps(b, k, initial, cooldown, t);
  }

  function EndTime(events: seq<Event>, now: int): int {
    if events == [] then now else events[|events| - 1].at
  }

  lemma {:induction false} RunKeeps(b: State, events: seq<Event>, initial: int, cooldown: nat, now: int)
    requires Invariant(b, initial, cooldown, now) && PossibleRun(b, events, cooldown, now)
    ensures Invariant(Run(b, events, cooldown, now), initial, cooldown, EndTime(events, now))
    decreases |events|
  {
    hide Invariant, Step;
    if events != [] {
      StepKeeps(b, events[0], initial, cooldown, now);
      RunKeeps(Step(b, events[0], cooldown, now), events[1..], initial, cooldown, events[0].at);
    }
  }

  /** How many callbacks fall into the half-open window `[from, from + cooldown)`. */
  function InWindow(calls: seq<Call>, from: int, cooldown: nat): nat {
    if calls == [] then 0
    else
      var last := calls[|calls| - 1];
      InWindow(calls[..|calls| - 1], from, cooldown) + if from <= last.time < from + cooldown then 1 else 0
  }

  lemma {:induction false} WindowIsRecent(calls: seq<Call>, from: int, cooldown: nat, end: int)
    requires end < from + cooldown
    ensures InWindow(calls, from, cooldown) <= |Recent(calls, end - cooldown)|
  {
    if calls != [] {
      WindowIsRecent(calls[..|calls| - 1], from, cooldown, end);
    }
  }

  lemma {:induction false} WindowBound(calls: seq<Call>, from: int, cooldown: nat, capacity: nat)
    requires Throttled(calls, cooldown, capacity)
    ensures InWindow(calls, from, cooldown) <= capacity
  {
    if calls != [] {
      var n := |calls| - 1;
      if from <= calls[n].time < from + cooldown {
        WindowIsRecent(calls, from, cooldown, calls[n].time);
      } else {
        WindowBound(calls[..n], from, cooldown, capacity);
      }
    }
  }

  /**
    Over every run from a fresh bucket: tokens are conserved, a queued item means that no
    token is left, callbacks are made in the order of sending without loss or repetition,
    and no window of one cooldown holds more callbacks than the initial budget.
   */
  lemma RateLimit(initial: int, cooldown: nat, events: seq<Event>, now: int, from: int)
    requires PossibleRun(State(initial, [], [], [], []), events, cooldown, now)
    ensures var b := Run(State(initial, [], [], [], []), events, cooldown, now);
            && b.budget + |b.timers| == initial
            && (b.queue != [] ==> b.budget <= 0)
            && (0 < initial && b.queue != [] ==> b.timers != [])
            && b.sent == Items(b.calls) + b.queue
            && InWindow(b.calls, from, cooldown) <= Capacity(initial)
  {
    RunKeeps(State(initial, [], [], [], []), events, initial, cooldown, now);
    WindowBound(Run(State(initial, [], [], [], []), events, cooldown, now).calls, from, cooldown, Capacity(initial));
  }

  // ----- what is sent is only ever added to, at the end

  ghost predicate Extends(b: State, r: State, items: seq<Item>) {
    b.sent + items <= r.sent
  }

  lemma ExtendsTwice(a: State, b: State, c: State, first: seq<Item>, second: seq<Item>)
    requires Extends(a, b, first) && Extends(b, c, second)
    ensures Extends(a, c, first)
  {
  }

  lemma {:induction false} HandleOneExtends(b: State, now: int)
    ensures Extends(b, HandleOne(b, now), [])
    decreases Tokens(b), if b.budget > 0 then 0 else 3, 0
  {
    if b.queue != [] {
      SendAllExtends(Take(b, now), b.queue[0].sends, now);
    }
  }

  lemma {:induction false} SendAllExtends(b: State, items: seq<Item>, now: int)
    ensures Extends(b, SendAll(b, items, now), [])
    decreases Tokens(b), 2, |items|
  {
    hide Send;
    if items != [] {
      SendExtends(b, items[0], now);
      SendAllExtends(Send(b, items[0], now), items[1..], now);
      ExtendsTwice(b, Send(b, items[0], now), SendAll(b, items, now), [items[0]], []);
    }
  }

  /** An item is recorded behind all that was sent before, and before anything its own callback sends. */
  lemma {:induction false} SendExtends(b: State, item: Item, now: int)
    ensures b.sent + [item] <= Send(b, item, now).sent
    decreases Tokens(b), 1, 0
  {
    hide HandleOne;
    if b.budget > 0 {
      HandleOneExtends(Enqueue(b, item), now);
    }
  }

  /** The sending order is history: no step ever changes what was recorded, and a sent item is the next one recorded. */
  lemma SentIsHistory(b: State, event: Event, cooldown: nat, now: int)
    requires Possible(b, event, cooldown, now)
    ensures b.sent <= Step(b, event, cooldown, now).sent
    ensures event.SendEvent? ==> b.sent + [event.item] <= Step(b, event, cooldown, now).sent
  {
    match event
    case SendEvent(item, t) =>
      SendExtends(b, item, t);
    case FireEvent(k, t) => HandleOneExtends(Expire(b, k), t);
  }

  /** `a` occurs within `s`, in order. */
  ghost predicate InOrder<T>(a: seq<T>, s: seq<T>)
    decreases |s|
  {
    a == [] || (s != [] && ((s[0] == a[0] && InOrder(a[1..], s[1..])) || InOrder(a, s[1..])))
  }

  lemma {:induction false} InOrderBehind<T>(a: seq<T>, x: seq<T>, s: seq<T>)
    requires InOrder(a, s)
    ensures InOrder(a, x + s)
  {
    if x == [] {
      assert x + s == s;
    } else {
      InOrderBehind(a, x[1..], s);
      assert (x + s)[1..] == x[1..] + s;
    }
  }

  lemma {:induction false} InOrderConcat<T>(a: seq<T>, b: seq<T>, s: seq<T>, t: seq<T>)
    requires InOrder(a, s) && InOrder(b, t)
    ensures InOrder(a + b, s + t)
    decreases |s|
  {
    if a == [] {
      assert a + b == b;
      InOrderBehind(b, s, t);
    } else {
      assert (s + t)[1..] == s[1..] + t && (a + b)[1..] == a[1..] + b;
      if s[0] == a[0] && InOrder(a[1..], s[1..]) {
        InOrderConcat(a[1..], b, s[1..], t);
      } else {
        InOrderConcat(a, b, s[1..], t);
      }
    }
  }

  lemma InOrderFirst<T>(x: T, s: seq<T>)
    requires s != [] && s[0] == x
    ensures InOrder([x], s)
  {
  }

  /** From `b` to `r` the items were sent in this order, possibly with others between them. */
  ghost predicate SentInOrder(b: State, r: State, items: seq<Item>) {
    b.sent <= r.sent && InOrder(items, r.sent[|b.sent|..])
  }

  lemma SentTwice(a: State, b: State, c: State, first: seq<Item>, second: seq<Item>)
    requires SentInOrder(a, b, first) && SentInOrder(b, c, second)
    ensures SentInOrder(a, c, first + second)
  {
    InOrderConcat(first, second, b.sent[|a.sent|..], c.sent[|b.sent|..]);
    assert c.sent[|a.sent|..] == b.sent[|a.sent|..] + c.sent[|b.sent|..];
  }

  lemma OneSent(b: State, item: Item, now: int)
    ensures SentInOrder(b, Send(b, item, now), [item])
  {
    SendExtends(b, item, now);
    InOrderFirst(item, Send(b, item, now).sent[|b.sent|..]);
  }

  /** What one callback sends is sent in its order. */
  lemma {:induction false} CallbackInOrder(b: State, items: seq<Item>, now: int)
    ensures SentInOrder(b, SendAll(b, items, now), items)
    decreases |items|
  {
    if items != [] {
      hide SentInOrder, Send;
      OneSent(b, items[0], now);
      CallbackInOrder(Send(b, items[0], now), items[1..], now);
      SentTwice(b, Send(b, items[0], now), SendAll(b, items, now), [items[0]], items[1..]);
      assert [items[0]] + items[1..] == items;
    }
  }

  lemma StepInOrder(b: State, event: Event, cooldown: nat, now: int)
    requires Possible(b, event, cooldown, now)
    ensures SentInOrder(b, Step(b, event, cooldown, now), SentItems([event]))
  {
    hide Send, HandleOne;
    match event
    case SendEvent(item, t) =>
      assert SentItems([event]) == [item];
      OneSent(b, item, t);
    case FireEvent(k, t) =>
      HandleOneExtends(Expire(b, k), t);
  }

  lemma {:induction false} RunInOrder(b: State, events: seq<Event>, cooldown: nat, now: int)
    requires PossibleRun(b, events, cooldown, now)
    ensures SentInOrder(b, Run(b, events, cooldown, now), SentItems(events))
    decreases |events|
  {
    if events != [] {
      hide Step, SentInOrder;
      StepInOrder(b, events[0], cooldown, now);
      RunInOrder(Step(b, events[0], cooldown, now), events[1..], cooldown, events[0].at);
      SentTwice(b, Step(b, events[0], cooldown, now), Run(b, events, cooldown, now), SentItems([events[0]]), SentItems(events[1..]));
      assert SentItems(events) == SentItems([events[0]]) + SentItems(events[1..]);
    }
  }

  /** Neither the event nor anything waiting sends items of its own. */
  predicate Quiet(items: seq<Item>) {
    forall item :: item in items ==> item.sends == []
  }

  function SentItems(events: seq<Event>): seq<Item> {
    if events == [] then [] else (if events[0].SendEvent? then [events[0].item] else []) + SentItems(events[1..])
  }

  lemma QuietHandleOne(b: State, now: int)
    requires Quiet(b.queue)
    ensures var r := HandleOne(b, now); r.sent == b.sent && Quiet(r.queue)
  {
  }

  lemma QuietStep(b: State, event: Event, cooldown: nat, now: int)
    requires Possible(b, event, cooldown, now) && Quiet(b.queue) && Quiet(SentItems([event]))
    ensures var r := Step(b, event, cooldown, now); r.sent == b.sent + SentItems([event]) && Quiet(r.queue)
  {
    hide HandleOne;
    match event
    case SendEvent(item, t) =>
      assert SentItems([event]) == [item];
      QuietHandleOne(Enqueue(b, item), t);
    case FireEvent(k, t) =>
      QuietHandleOne(Expire(b, k), t);
  }

  lemma {:induction false} QuietRun(b: State, events: seq<Event>, cooldown: nat, now: int)
    requires PossibleRun(b, events, cooldown, now) && Quiet(b.queue) && Quiet(SentItems(events))
    ensures Run(b, events, cooldown, now).sent == b.sent + SentItems(events)
    decreases |events|
  {
    hide Step;
    if events != [] {
      assert SentItems(events) == SentItems([events[0]]) + SentItems(events[1..]);
      assert forall item :: item in SentItems([events[0]]) || item in SentItems(events[1..]) ==> item in SentItems(events);
      QuietStep(b, events[0], cooldown, now);
      QuietRun(Step(b, events[0], cooldown, now), events[1..], cooldown, events[0].at);
    }
  }

  /**
    First in, first out: the items of the send events occur in their order among the callbacks
    made and the items that wait, and are all of them if no callback sends more.
   */
  lemma FirstInFirstOut(initial: int, cooldown: nat, events: seq<Event>, now: int)
    requires PossibleRun(State(initial, [], [], [], []), events, cooldown, now)
    ensures var b := Run(State(initial, [], [], [], []), events, cooldown, now);
            && InOrder(SentItems(events), Items(b.calls) + b.queue)
            && (Quiet(SentItems(events)) ==> Items(b.calls) + b.queue == SentItems(events))
  {
    hide InOrder;
    var b := Run(State(initial, [], [], [], []), events, cooldown, now);
    RunKeeps(State(initial, [], [], [], []), events, initial, cooldown, now);
    RunInOrder(State(initial, [], [], [], []), events, cooldown, now);
    assert b.sent[0..] == b.sent;
    if Quiet(SentItems(events)) {
      QuietRun(State(initial, [], [], [], []), events, cooldown, now);
    }
  }

  // ----- where the items come from

  /** The items that callbacks have sent. */
  function Nested(calls: seq<Call>): multiset<Item> {
    if calls == [] then multiset{} else Nested(calls[..|calls| - 1]) + multiset(calls[|calls| - 1].item.sends)
  }

  function Outside(events: seq<Event>): multiset<Item> {
    if events == [] then multiset{}
    else (if events[0].SendEvent? then multiset{events[0].item} else multiset{}) + Outside(events[1..])
  }

  /** From `b` to `r`, exactly `items` and what the new callbacks have sent came in. */
  ghost predicate CameIn(b: State, r: State, items: multiset<Item>) {
    forall x :: multiset(r.sent)[x] + Nested(b.calls)[x] == multiset(b.sent)[x] + Nested(r.calls)[x] + items[x]
  }

  lemma CameInTwice(a: State, b: State, c: State, first: multiset<Item>, second: multiset<Item>)
    requires CameIn(a, b, first) && CameIn(b, c, second)
    ensures CameIn(a, c, first + second)
  {
  }

  /** The callback that begins now has its items still to send. */
  lemma TakeSends(b: State, r: State, now: int)
    requires b.queue != [] && CameIn(Take(b, now), r, multiset(b.queue[0].sends))
    ensures CameIn(b, StartTimer(r, now), multiset{})
  {
    assert Take(b, now).calls[..|b.calls|] == b.calls;
  }

  lemma EnqueueSends(b: State, item: Item)
    ensures CameIn(b, Enqueue(b, item), multiset{item})
  {
  }

  lemma HeadOf(items: seq<Item>)
    requires items != []
    ensures multiset(items) == multiset{items[0]} + multiset(items[1..])
  {
    assert items == [items[0]] + items[1..];
  }

  lemma {:induction false} HandleOneSends(b: State, now: int)
    ensures CameIn(b, HandleOne(b, now), multiset{})
    decreases Tokens(b), if b.budget > 0 then 0 else 3, 0
  {
    if b.queue != [] {
      hide CameIn, SendAll;
      SendAllSends(Take(b, now), b.queue[0].sends, now);
      TakeSends(b, SendAll(Take(b, now), b.queue[0].sends, now), now);
    }
  }

  lemma {:induction false} SendAllSends(b: State, items: seq<Item>, now: int)
    ensures CameIn(b, SendAll(b, items, now), multiset(items))
    decreases Tokens(b), 2, |items|
  {
    hide Send;
    if items != [] {
      hide CameIn;
      SendSends(b, items[0], now);
      SendAllSends(Send(b, items[0], now), items[1..], now);
      CameInTwice(b, Send(b, items[0], now), SendAll(b, items, now), multiset{items[0]}, multiset(items[1..]));
      HeadOf(items);
    }
  }

  lemma {:induction false} SendSends(b: State, item: Item, now: int)
    ensures CameIn(b, Send(b, item, now), multiset{item})
    decreases Tokens(b), 1, 0
  {
    hide HandleOne, CameIn;
    EnqueueSends(b, item);
    if b.budget > 0 {
      HandleOneSends(Enqueue(b, item), now);
      CameInTwice(b, Enqueue(b, item), Send(b, item, now), multiset{item}, multiset{});
      assert multiset{item} + multiset{} == multiset{item};
    }
  }

  lemma StepSends(b: State, event: Event, cooldown: nat, now: int)
    requires Possible(b, event, cooldown, now)
    ensures CameIn(b, Step(b, event, cooldown, now), if event.SendEvent? then multiset{event.item} else multiset{})
  {
    match event
    case SendEvent(item, t) => SendSends(b, item, t);
    case FireEvent(k, t) => HandleOneSends(Expire(b, k), t);
  }

  /** Nothing gets in but what was sent from outside or by a callback that was made. */
  lemma {:induction false} AllSent(b: State, events: seq<Event>, cooldown: nat, now: int)
    requires PossibleRun(b, events, cooldown, now)
    ensures CameIn(b, Run(b, events, cooldown, now), Outside(events))
    decreases |events|
  {
    hide Step;
    if events != [] {
      hide CameIn;
      StepSends(b, events[0], cooldown, now);
      AllSent(Step(b, events[0], cooldown, now), events[1..], cooldown, events[0].at);
      CameInTwice(b, Step(b, events[0], cooldown, now), Run(b, events, cooldown, now),
                  if events[0].SendEvent? then multiset{events[0].item} else multiset{}, Outside(events[1..]));
    }
  }

  /** Of a fresh bucket: the items sent are those sent from outside and those that callbacks have sent. */
  lemma WhereItemsComeFrom(initial: int, cooldown: nat, events: seq<Event>, now: int)
    requires PossibleRun(State(initial, [], [], [], []), events, cooldown, now)
    ensures var b := Run(State(initial, [], [], [], []), events, cooldown, now);
            multiset(b.sent) == Nested(b.calls) + Outside(events)
  {
    hide Run, PossibleRun;
    var b := Run(State(initial, [], [], [], []), events, cooldown, now);
    AllSent(State(initial, [], [], [], []), events, cooldown, now);
    assert forall x :: multiset(b.sent)[x] == (Nested(b.calls) + Outside(events))[x];
  }
}
