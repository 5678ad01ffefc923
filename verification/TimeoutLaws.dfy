/** What stacking promises: which entry is met, what happens to the counts, independence of delivery order, and that a bounded channel sees the same. */
module TimeoutLaws {
  import opened Wrappers
  import opened MessageLog
  import opened Timeouts

  // ----- the entry that is met

  /** Another timeout of the same user, from the same shared-chat source or from none. */
  predicate SameTimeout(s: Entry, msg: Entry) {
    && s.isTimeout && s.timeoutUser == msg.timeoutUser
    && (if msg.isShared then s.isShared && s.channelName == msg.channelName else !s.isShared)
  }

  /**
    The entry a new timeout meets: the last timeout of the user among the final 20 entries,
    if from there to the end of the log nothing is older than five seconds, no untimeout of the
    user came in, and, for the style that asks for it, nothing ordinary that the user wrote is
    still undisabled.
   */
  ghost predicate IsCandidate(log: seq<Entry>, msg: Entry, now: int, style: StackStyle, i: nat) {
    && i < |log| <= i + 20
    && SameTimeout(log[i], msg)
    && (forall j :: i < j < |log| ==> !SameTimeout(log[j], msg))
    && (forall j :: i <= j < |log| ==> now - log[j].received <= 5000)
    && (forall j :: i <= j < |log| && log[j].isUntimeout ==> log[j].timeoutUser != msg.timeoutUser)
    && (style.DontStackBeyondUserMessage? ==>
          forall j :: i <= j < |log| && log[j].loginName == msg.timeoutUser ==>
            log[j].isDisabled || log[j].isTimeout || log[j].isUntimeout)
  }

  /** The scan finds exactly the candidate entry: recent, unblocked, and the last one that matches. */
  lemma {:induction false} ScanFinds(log: seq<Entry>, msg: Entry, now: int, style: StackStyle, i: nat)
    requires i <= |log|
    requires forall j :: i <= j < |log| ==> !Blocks(log[j], msg, now, style) && !Matches(log[j], msg)
    ensures var met := Scan(log, msg, now, style, i);
            if met.Some? then IsCandidate(log, msg, now, style, met.value)
            else forall k :: !IsCandidate(log, msg, now, style, k)
    decreases i
  {
    if ScanEnd(log) < i && !Blocks(log[i - 1], msg, now, style) && !Matches(log[i - 1], msg) {
      ScanFinds(log, msg, now, style, i - 1);
    }
  }

  lemma MeetsTheCandidate(log: seq<Entry>, msg: Entry, now: int, style: StackStyle, k: nat)
    ensures Meets(log, msg, now, style) == Some(k) <==> IsCandidate(log, msg, now, style, k)
    ensures Meets(log, msg, now, style) == None <==> forall i :: !IsCandidate(log, msg, now, style, i)
  {
    ScanFinds(log, msg, now, style, |log|);
  }

  /** Everything but the met entry keeps its content, up to disabling exactly the user's eligible messages where that is asked for. */
  lemma TouchesOneEntry(log: seq<Entry>, msg: Entry, now: int, style: StackStyle, disable: bool, j: nat)
    requires j < |log| && !IsCandidate(log, msg, now, style, j)
    ensures var after := AddTimeout(log, msg, now, style, disable);
            && j < |after|
            && after[j].(isDisabled := log[j].isDisabled) == log[j]
            && (after[j].isDisabled <==>
                  || log[j].isDisabled
                  || (disable && log[j].loginName == msg.timeoutUser && !log[j].isTimeout && !log[j].isUntimeout && !log[j].isWhisper))
  {
    MeetsTheCandidate(log, msg, now, style, j);
  }

  /** What becomes of the entry that is met, and where the new timeout goes. */
  lemma MetEntryBecomes(log: seq<Entry>, msg: Entry, now: int, style: StackStyle, disable: bool, i: nat)
    requires IsCandidate(log, msg, now, style, i)
    ensures var after := AddTimeout(log, msg, now, style, disable);
            if msg.isPubSub && !log[i].isPubSub then |after| == |log| && after[i] == msg
            else if log[i].isPubSub && !msg.isPubSub then
              && after[i] == log[i]
              && |after| == (if style.DontStack? then |log| + 1 else |log|)
              && (style.DontStack? ==> after[|log|] == msg)
            else
              && |after| == |log|
              && after[i] == msg.(loginName := "", count := if log[i].count == 0xFFFF_FFFF then 0 else log[i].count + 1)
  {
    MeetsTheCandidate(log, msg, now, style, i);
  }

  /** A timeout that meets nothing is appended as it is. */
  lemma NoneMet(log: seq<Entry>, msg: Entry, now: int, style: StackStyle, disable: bool)
    requires forall i :: !IsCandidate(log, msg, now, style, i)
    ensures var after := AddTimeout(log, msg, now, style, disable); |after| == |log| + 1 && after[|log|] == msg
  {
    MeetsTheCandidate(log, msg, now, style, 0);
  }

  // ----- what the stacking style decides

  /** An entry that must not be passed, wherever it stands: nothing before it is met. */
  lemma NothingBeyond(log: seq<Entry>, msg: Entry, now: int, style: StackStyle, k: nat)
    requires k < |log|
    requires || log[k].received + 5000 < now
             || (log[k].isUntimeout && log[k].timeoutUser == msg.timeoutUser)
             || (style == DontStackBeyondUserMessage && log[k].loginName == msg.timeoutUser
                 && !log[k].isDisabled && !log[k].isTimeout && !log[k].isUntimeout)
    ensures Meets(log, msg, now, style).Some? ==> k < Meets(log, msg, now, style).value
  {
    if Meets(log, msg, now, style).Some? {
      MeetsTheCandidate(log, msg, now, style, Meets(log, msg, now, style).value);
    }
  }

  /** At the end of the log, such an entry makes every timeout a new one, whatever came before. */
  lemma StopsAtLast(log: seq<Entry>, msg: Entry, now: int, style: StackStyle, disable: bool)
    requires log != []
    requires var e := log[|log| - 1];
             || e.received + 5000 < now
             || (e.isUntimeout && e.timeoutUser == msg.timeoutUser)
             || (style == DontStackBeyondUserMessage && e.loginName == msg.timeoutUser
                 && !e.isDisabled && !e.isTimeout && !e.isUntimeout)
    ensures AddTimeout(log, msg, now, style, disable) == Mark(log, msg.timeoutUser, disable) + [msg]
  {
    NothingBeyond(log, msg, now, style, |log| - 1);
  }

  /** Under the other styles it makes no difference who wrote a recent ordinary message, or whether it is disabled. */
  lemma WriterIrrelevant(log: seq<Entry>, msg: Entry, now: int, style: StackStyle, k: nat, user: string, disabled: bool)
    requires k < |log| && style != DontStackBeyondUserMessage
    requires !log[k].isTimeout && !log[k].isUntimeout && now <= log[k].received + 5000
    ensures Meets(log[k := log[k].(loginName := user, isDisabled := disabled)], msg, now, style) == Meets(log, msg, now, style)
  {
    var other := log[k := log[k].(loginName := user, isDisabled := disabled)];
    assert forall i: nat :: IsCandidate(other, msg, now, style, i) <==> IsCandidate(log, msg, now, style, i) by {
      hide SameTimeout;
      assert forall j :: 0 <= j < |log| ==> (SameTimeout(other[j], msg) <==> SameTimeout(log[j], msg)) by { SameTimeoutIgnoresWriter(log, msg, k, user, disabled); }
    }
    var met := Meets(log, msg, now, style);
    MeetsTheCandidate(log, msg, now, style, if met.Some? then met.value else 0);
    MeetsTheCandidate(other, msg, now, style, if met.Some? then met.value else 0);
  }

  lemma SameTimeoutIgnoresWriter(log: seq<Entry>, msg: Entry, k: nat, user: string, disabled: bool)
    requires k < |log|
    ensures forall j :: 0 <= j < |log| ==>
              (SameTimeout(log[k := log[k].(loginName := user, isDisabled := disabled)][j], msg) <==> SameTimeout(log[j], msg))
  {
  }

  // ----- conservation of counts

  /** How much an entry adds to the timeouts counted for `user`. */
  function Weight(e: Entry, user: string): nat {
    if e.isTimeout && e.timeoutUser == user then e.count else 0
  }

  function Total(log: seq<Entry>, user: string): nat {
    if log == [] then 0 else Weight(log[0], user) + Total(log[1..], user)
  }

  lemma {:induction false} TotalConcat(a: seq<Entry>, b: seq<Entry>, user: string)
    ensures Total(a + b, user) == Total(a, user) + Total(b, user)
  {
    if a == [] {
      assert a + b == b;
    } else {
      TotalConcat(a[1..], b, user);
      assert (a + b)[1..] == a[1..] + b;
    }
  }

  lemma TotalUpdate(log: seq<Entry>, i: nat, e: Entry, user: string)
    requires i < |log|
    ensures Total(log[i := e], user) + Weight(log[i], user) == Total(log, user) + Weight(e, user)
  {
    assert log == log[..i] + ([log[i]] + log[i + 1..]);
    assert log[i := e] == log[..i] + ([e] + log[i + 1..]);
    TotalConcat(log[..i], [log[i]] + log[i + 1..], user);
    TotalConcat(log[..i], [e] + log[i + 1..], user);
  }

  lemma {:induction false} TotalDisable(log: seq<Entry>, who: string, user: string)
    ensures Total(DisableAll(log, who), user) == Total(log, user)
  {
    if log != [] {
      TotalDisable(log[1..], who, user);
      assert DisableAll(log, who)[1..] == DisableAll(log[1..], who);
    }
  }

  lemma TotalMark(log: seq<Entry>, who: string, disable: bool, user: string)
    ensures Total(Mark(log, who, disable), user) == Total(log, user)
  {
    TotalDisable(log, who, user);
  }

  lemma TotalAppend(log: seq<Entry>, e: Entry, user: string)
    ensures Total(log + [e], user) == Total(log, user) + Weight(e, user)
  {
    TotalConcat(log, [e], user);
  }

  /** What one timeout costs the total of its user, next to the one it adds. */
  function Lost(log: seq<Entry>, msg: Entry, now: int, style: StackStyle): nat {
    match Meets(log, msg, now, style)
    case None => 0
    case Some(i) =>
      // a PubSub copy replaces a stacked IRC entry, whatever that has counted
      if msg.isPubSub && !log[i].isPubSub then log[i].count
      // an IRC copy is swallowed by the PubSub copy that is there
      else if !msg.isPubSub && log[i].isPubSub then (if style == DontStack then 0 else 1)
      // the counter wraps
      else if log[i].count + 1 == COUNT_MODULUS then COUNT_MODULUS
      else 0
  }

  /** Of any log and any timeout with count 1: its user's total grows by one less what is lost, and no other total changes. */
  lemma CountsOnce(log: seq<Entry>, msg: Entry, now: int, style: StackStyle, disable: bool, user: string)
    requires msg.isTimeout && msg.count == 1
    ensures var after := AddTimeout(log, msg, now, style, disable);
            if user == msg.timeoutUser then Total(after, user) + Lost(log, msg, now, style) == Total(log, user) + 1
            else Total(after, user) == Total(log, user)
  {
    hide Mark, Total, Blocks, Scan;
    var met, rest := Meets(log, msg, now, style), Mark(log, msg.timeoutUser, disable);
    TotalMark(log, msg.timeoutUser, disable, user);
    TotalAppend(rest, msg, user);
    if met.Some? {
      MetEntry(log, msg, now, style, disable);
      TotalUpdate(rest, met.value, Stacked(log[met.value], msg), user);
      TotalUpdate(rest, met.value, msg, user);
    }
  }

  lemma MetEntry(log: seq<Entry>, msg: Entry, now: int, style: StackStyle, disable: bool)
    requires Meets(log, msg, now, style).Some?
    ensures var i := Meets(log, msg, now, style).value;
            var e := Mark(log, msg.timeoutUser, disable)[i];
            && log[i].isTimeout && log[i].timeoutUser == msg.timeoutUser
            && e.isTimeout && e.timeoutUser == msg.timeoutUser && e.count == log[i].count
  {
    MeetsTheCandidate(log, msg, now, style, Meets(log, msg, now, style).value);
  }

  /** What happens to a channel: a timeout arrives, or some other message is appended. */
  datatype Event = TimeoutEvent(msg: Entry, now: int, disable: bool) | OtherEvent(entry: Entry)

  function Step(log: seq<Entry>, event: Event, style: StackStyle): seq<Entry> {
    match event
    case TimeoutEvent(msg, now, disable) => AddTimeout(log, msg, now, style, disable)
    case OtherEvent(e) => log + [e]
  }

  function Run(log: seq<Entry>, events: seq<Event>, style: StackStyle): seq<Entry>
    decreases |events|
  {
    if events == [] then log else Run(Step(log, events[0], style), events[1..], style)
  }

  /** Timeouts arrive one at a time; anything else is not a timeout. */
  predicate OneByOne(event: Event) {
    match event
    case TimeoutEvent(msg, _, _) => msg.isTimeout && msg.count == 1
    case OtherEvent(e) => !e.isTimeout
  }

  predicate IsTimeoutOf(event: Event, user: string) {
    event.TimeoutEvent? && event.msg.timeoutUser == user
  }

  function TimeoutsOf(events: seq<Event>, user: string): nat {
    if events == [] then 0 else (if IsTimeoutOf(events[0], user) then 1 else 0) + TimeoutsOf(events[1..], user)
  }

  /** What the user's timeouts cost along the whole run. */
  function LostBy(log: seq<Entry>, events: seq<Event>, style: StackStyle, user: string): nat
    decreases |events|
  {
    if events == [] then 0
    else
      (if IsTimeoutOf(events[0], user) then Lost(log, events[0].msg, events[0].now, style) else 0)
      + LostBy(Step(log, events[0], style), events[1..], style, user)
  }

  lemma StepConserves(log: seq<Entry>, event: Event, style: StackStyle, user: string)
    requires OneByOne(event)
    ensures Total(Step(log, event, style), user)
            + (if IsTimeoutOf(event, user) then Lost(log, event.msg, event.now, style) else 0)
            == Total(log, user) + if IsTimeoutOf(event, user) then 1 else 0
  {
    hide AddTimeout, Lost, Total;
    match event
    case TimeoutEvent(msg, now, disable) => CountsOnce(log, msg, now, style, disable, user);
    case OtherEvent(e) => TotalAppend(log, e, user);
  }

  /** Over every run of timeouts of both origins and other messages, on any log: nothing is gained or lost but what `LostBy` says. */
  lemma {:induction false} RunConserves(log: seq<Entry>, events: seq<Event>, style: StackStyle, user: string)
    requires forall e :: e in events ==> OneByOne(e)
    ensures Total(Run(log, events, style), user) + LostBy(log, events, style, user) == Total(log, user) + TimeoutsOf(events, user)
    decreases |events|
  {
    hide Step, OneByOne, Lost, Total;
    if events != [] {
      StepConserves(log, events[0], style, user);
      RunConserves(Step(log, events[0], style), events[1..], style, user);
    }
  }

  // ----- runs that lose nothing

  /** Timeouts come from IRC only. */
  predicate Plain(event: Event) {
    OneByOne(event) && (event.TimeoutEvent? ==> !event.msg.isPubSub)
  }

  ghost predicate NoPubSubTimeouts(log: seq<Entry>) {
    forall e :: e in log && e.isTimeout ==> !e.isPubSub
  }

  lemma {:induction false} TotalBounds(log: seq<Entry>, i: nat, user: string)
    requires i < |log|
    ensures Weight(log[i], user) <= Total(log, user)
  {
    if i != 0 {
      TotalBounds(log[1..], i - 1, user);
    }
  }

  lemma StepKeepsPlain(log: seq<Entry>, event: Event, style: StackStyle)
    requires NoPubSubTimeouts(log) && Plain(event)
    ensures NoPubSubTimeouts(Step(log, event, style))
  {
  }

  /** With no PubSub entry around, only a full counter costs anything. */
  lemma PlainLosesNothing(log: seq<Entry>, msg: Entry, now: int, style: StackStyle)
    requires NoPubSubTimeouts(log) && !msg.isPubSub && Total(log, msg.timeoutUser) + 1 < COUNT_MODULUS
    ensures Lost(log, msg, now, style) == 0
  {
    hide Total, Mark, Blocks, Scan;
    var met := Meets(log, msg, now, style);
    if met.Some? {
      MetEntry(log, msg, now, style, false);
      assert log[met.value] in log;
      TotalBounds(log, met.value, msg.timeoutUser);
    }
  }

  /** Over any run of IRC timeouts and other messages, every user's total grows by exactly that user's timeouts. */
  lemma {:induction false} RunCounts(log: seq<Entry>, events: seq<Event>, style: StackStyle, user: string)
    requires NoPubSubTimeouts(log) && forall e :: e in events ==> Plain(e)
    requires Total(log, user) + TimeoutsOf(events, user) < COUNT_MODULUS
    ensures LostBy(log, events, style, user) == 0
    ensures Total(Run(log, events, style), user) == Total(log, user) + TimeoutsOf(events, user)
    decreases |events|
  {
    hide Step, Lost, Total, NoPubSubTimeouts;
    if events != [] {
      assert Plain(events[0]);
      StepKeepsPlain(log, events[0], style);
      StepConserves(log, events[0], style, user);
      if IsTimeoutOf(events[0], user) {
        PlainLosesNothing(log, events[0].msg, events[0].now, style);
      }
      RunCounts(Step(log, events[0], style), events[1..], style, user);
    }
  }

  // ----- a bounded channel sees the same

  lemma ScanEndOfWindow<T>(limit: nat, log: seq<Entry>)
    requires SCAN_LENGTH <= limit
    ensures Evicted(limit, log) <= ScanEnd(log)
    ensures ScanEnd(log) == Evicted(limit, log) + ScanEnd(Window(limit, log))
  {
  }

  /** The scan never leaves what a channel of at least 20 messages still holds. */
  lemma {:induction false} ScanOfWindow(limit: nat, log: seq<Entry>, msg: Entry, now: int, style: StackStyle, i: nat)
    requires SCAN_LENGTH <= limit && i <= |log| - Evicted(limit, log)
    ensures |Window(limit, log)| == |log| - Evicted(limit, log)
    ensures var e := Evicted(limit, log);
            Scan(log, msg, now, style, e + i) ==
            match Scan(Window(limit, log), msg, now, style, i) case None => None case Some(k) => Some(e + k)
    decreases i
  {
    hide Blocks, Matches, ScanEnd;
    ScanEndOfWindow<Entry>(limit, log);
    if i != 0 {
      ScanOfWindow(limit, log, msg, now, style, i - 1);
      assert Window(limit, log)[i - 1] == log[Evicted(limit, log) + i - 1];
    }
  }

  lemma MarkOfWindow(limit: nat, log: seq<Entry>, user: string, disable: bool)
    ensures Mark(Window(limit, log), user, disable) == Window(limit, Mark(log, user, disable))
    ensures Evicted(limit, Mark(log, user, disable)) == Evicted(limit, log)
  {
  }

  lemma WindowOfAppend(limit: nat, log: seq<Entry>, e: Entry)
    requires 0 < limit
    ensures Window(limit, Window(limit, log) + [e]) == Window(limit, log + [e])
  {
  }

  lemma WindowTwice(limit: nat, log: seq<Entry>)
    ensures Window(limit, Window(limit, log)) == Window(limit, log)
  {
  }

  lemma UpdateOfWindow(limit: nat, log: seq<Entry>, i: nat, e: Entry)
    requires i < |log| - Evicted(limit, log)
    ensures i < |Window(limit, log)|
    ensures Window(limit, Window(limit, log)[i := e]) == Window(limit, log[Evicted(limit, log) + i := e])
  {
    WindowOfUpdate(limit, log, Evicted(limit, log) + i, e);
  }

  /** A timeout in a channel that evicts has the same effect as in the unbounded log. */
  lemma TimeoutRefines(limit: nat, log: seq<Entry>, msg: Entry, now: int, style: StackStyle, disable: bool)
    requires SCAN_LENGTH <= limit
    ensures Window(limit, AddTimeout(Window(limit, log), msg, now, style, disable)) ==
            Window(limit, AddTimeout(log, msg, now, style, disable))
  {
    hide Mark, Scan, Window, Evicted;
    var w, rest := Window(limit, log), Mark(log, msg.timeoutUser, disable);
    WindowSize(limit, log);
    ScanOfWindow(limit, log, msg, now, style, |w|);
    MarkOfWindow(limit, log, msg.timeoutUser, disable);
    WindowOfAppend(limit, rest, msg);
    WindowTwice(limit, rest);
    var met := Meets(w, msg, now, style);
    if met.Some? {
      assert w[met.value] == log[Evicted(limit, log) + met.value];
      UpdateOfWindow(limit, rest, met.value, msg);
      UpdateOfWindow(limit, rest, met.value, Stacked(w[met.value], msg));
    }
  }

  function BoundedRun(limit: nat, buffer: seq<Entry>, events: seq<Event>, style: StackStyle): seq<Entry>
    decreases |events|
  {
    if events == [] then buffer else BoundedRun(limit, Window(limit, Step(buffer, events[0], style)), events[1..], style)
  }

  /** A channel of at least 20 messages shows, after any run, the last of what the unbounded log holds. */
  lemma {:induction false} BoundedRunRefines(limit: nat, log: seq<Entry>, events: seq<Event>, style: StackStyle)
    requires SCAN_LENGTH <= limit
    ensures BoundedRun(limit, Window(limit, log), events, style) == Window(limit, Run(log, events, style))
    decreases |events|
  {
    if events != [] {
      hide Window, AddTimeout;
      match events[0] {
        case TimeoutEvent(msg, now, disable) => TimeoutRefines(limit, log, msg, now, style, disable);
        case OtherEvent(e) => WindowOfAppend(limit, log, e);
      }
      BoundedRunRefines(limit, Step(log, events[0], style), events[1..], style);
    }
  }

  // ----- delivery order of the IRC and PubSub copies

  /** Two deliveries of one timeout. */
  predicate Copies(irc: Entry, pubSub: Entry) {
    && irc.isTimeout && pubSub.isTimeout && !irc.isUntimeout && !pubSub.isUntimeout
    && !irc.isPubSub && pubSub.isPubSub
    && irc.timeoutUser == pubSub.timeoutUser
    && irc.isShared == pubSub.isShared && irc.channelName == pubSub.channelName
  }

  /** The scan does not care which copy it is for, nor what the first copy has disabled. */
  lemma CopiesMeetTheSame(log: seq<Entry>, first: Entry, second: Entry, now: int, style: StackStyle)
    requires first.timeoutUser == second.timeoutUser && first.isShared == second.isShared && first.channelName == second.channelName
    ensures Meets(log, first, now, style) == Meets(log, second, now, style)
  {
    ScanTheSame(log, first, second, now, style, |log|);
  }

  lemma {:induction false} ScanTheSame(log: seq<Entry>, first: Entry, second: Entry, now: int, style: StackStyle, i: nat)
    requires first.timeoutUser == second.timeoutUser && first.isShared == second.isShared && first.channelName == second.channelName
    requires i <= |log|
    ensures Scan(log, first, now, style, i) == Scan(log, second, now, style, i)
    decreases i
  {
    if i != 0 {
      ScanTheSame(log, first, second, now, style, i - 1);
    }
  }

  lemma SecondCopyMeetsFirst(log: seq<Entry>, first: Entry, second: Entry, now: int, style: StackStyle)
    requires first.isTimeout && !first.isUntimeout && first.timeoutUser == second.timeoutUser
    requires first.isShared == second.isShared && first.channelName == second.channelName
    requires now - STACK_WINDOW_MS <= first.received
    ensures Meets(log + [first], second, now, style) == Some(|log|)
  {
  }

  /** Everything from `i` on is recent enough for a scan at `now`. */
  ghost predicate RecentFrom(log: seq<Entry>, i: nat, now: int) {
    forall j :: i <= j < |log| ==> now - STACK_WINDOW_MS <= log[j].received
  }

  /** The second copy meets what the first has met, or has put there. */
  lemma SecondCopyMeetsSame(log: seq<Entry>, i: nat, e: Entry, first: Entry, second: Entry, now1: int, now2: int,
                            style: StackStyle, disable: bool)
    requires Meets(log, first, now1, style) == Some(i) && RecentFrom(log, i, now2)
    requires first.timeoutUser == second.timeoutUser && first.isShared == second.isShared && first.channelName == second.channelName
    requires var there := Mark(log, first.timeoutUser, disable)[i];
             e == there || (Matches(e, second) && !e.isUntimeout && now2 - STACK_WINDOW_MS <= e.received)
    ensures Meets(Mark(log, first.timeoutUser, disable)[i := e], second, now2, style) == Some(i)
  {
    var after := Mark(log, first.timeoutUser, disable)[i := e];
    MeetsTheCandidate(log, first, now1, style, i);
    forall j | i <= j < |after| ensures !Blocks(after[j], second, now2, style) {
      assert !Blocks(log[j], first, now1, style);
    }
    MeetsTheCandidate(after, second, now2, style, i);
  }

  lemma MarkUpdate(log: seq<Entry>, i: nat, e: Entry, user: string, disable: bool)
    requires i < |log| && e.isTimeout
    ensures Mark(Mark(log, user, disable)[i := e], user, disable) == Mark(log, user, disable)[i := e]
  {
  }

  lemma MarkAppend(log: seq<Entry>, e: Entry, user: string, disable: bool)
    requires e.isTimeout
    ensures Mark(Mark(log, user, disable) + [e], user, disable) == Mark(log, user, disable) + [e]
  {
  }

  /** The second copy, of an entry that the first has put at the end. */
  lemma SecondAtEnd(log: seq<Entry>, first: Entry, second: Entry, now: int, style: StackStyle, disable: bool)
    requires Copies(first, second) || Copies(second, first)
    requires now - STACK_WINDOW_MS <= first.received
    ensures var rest := Mark(log, second.timeoutUser, disable);
            AddTimeout(rest + [first], second, now, style, disable) ==
            if second.isPubSub then rest + [second] else if style == DontStack then rest + [first] + [second] else rest + [first]
  {
    hide Mark, Scan;
    SecondCopyMeetsFirst(Mark(log, second.timeoutUser, disable), first, second, now, style);
    MarkAppend(log, first, second.timeoutUser, disable);
  }

  /** The second copy, of an entry that the first has met and left as `e`. */
  lemma SecondInside(log: seq<Entry>, i: nat, e: Entry, first: Entry, second: Entry, now1: int, now2: int,
                     style: StackStyle, disable: bool)
    requires Copies(first, second) || Copies(second, first)
    requires Meets(log, first, now1, style) == Some(i) && RecentFrom(log, i, now2)
    requires e == Mark(log, first.timeoutUser, disable)[i]
             || (Matches(e, second) && !e.isUntimeout && now2 - STACK_WINDOW_MS <= e.received)
    ensures var rest := Mark(log, second.timeoutUser, disable);
            AddTimeout(rest[i := e], second, now2, style, disable) ==
            if second.isPubSub then rest[i := if e.isPubSub then Stacked(e, second) else second]
            else if e.isPubSub then (if style == DontStack then rest[i := e] + [second] else rest[i := e])
            else rest[i := Stacked(e, second)]
  {
    SecondCopyMeetsSame(log, i, e, first, second, now1, now2, style, disable);
    MetEntry(log, first, now1, style, disable);
    hide Mark, Scan, Blocks;
    MarkUpdate(log, i, e, second.timeoutUser, disable);
  }

  ghost predicate MeetsPubSub(log: seq<Entry>, msg: Entry, now: int, style: StackStyle) {
    Meets(log, msg, now, style).Some? && log[Meets(log, msg, now, style).value].isPubSub
  }

  lemma IrcFirst(log: seq<Entry>, irc: Entry, pubSub: Entry, now1: int, now2: int, style: StackStyle, disable: bool)
    requires Copies(irc, pubSub) && now2 - STACK_WINDOW_MS <= irc.received
    requires Meets(log, irc, now1, style).Some? ==> RecentFrom(log, Meets(log, irc, now1, style).value, now2)
    ensures AddTimeout(AddTimeout(log, irc, now1, style, disable), pubSub, now2, style, disable) ==
            if style == DontStack && MeetsPubSub(log, pubSub, now1, style)
            then Mark(log, irc.timeoutUser, disable) + [pubSub] else AddTimeout(log, pubSub, now1, style, disable)
  {
    hide Mark, Scan, Blocks;
    var rest := Mark(log, irc.timeoutUser, disable);
    CopiesMeetTheSame(log, irc, pubSub, now1, style);
    SecondAtEnd(log, irc, pubSub, now2, style, disable);
    var met := Meets(log, irc, now1, style);
    if met.Some? {
      var i := met.value;
      MetEntry(log, irc, now1, style, disable);
      MetMatches(log, irc, pubSub, now1, style);
      if !log[i].isPubSub {
        SecondInside(log, i, Stacked(log[i], irc), irc, pubSub, now1, now2, style, disable);
      } else if style != DontStack {
        SecondInside(log, i, rest[i], irc, pubSub, now1, now2, style, disable);
        MarkKeepsOrigin(log, irc.timeoutUser, disable, i);
        assert rest[i := rest[i]] == rest;
      }
    }
  }

  lemma PubSubFirst(log: seq<Entry>, irc: Entry, pubSub: Entry, now1: int, now2: int, style: StackStyle, disable: bool)
    requires Copies(irc, pubSub) && now2 - STACK_WINDOW_MS <= pubSub.received
    requires Meets(log, irc, now1, style).Some? ==> RecentFrom(log, Meets(log, irc, now1, style).value, now2)
    ensures var alone := AddTimeout(log, pubSub, now1, style, disable);
            AddTimeout(alone, irc, now2, style, disable) == if style == DontStack then alone + [irc] else alone
  {
    hide Mark, Scan, Blocks;
    CopiesMeetTheSame(log, irc, pubSub, now1, style);
    SecondAtEnd(log, pubSub, irc, now2, style, disable);
    var met := Meets(log, irc, now1, style);
    if met.Some? {
      var i := met.value;
      var e := if log[i].isPubSub then Stacked(log[i], pubSub) else pubSub;
      MetMatches(log, irc, pubSub, now1, style);
      SecondInside(log, i, e, pubSub, irc, now1, now2, style, disable);
    }
  }

  lemma MetMatches(log: seq<Entry>, irc: Entry, pubSub: Entry, now: int, style: StackStyle)
    requires Meets(log, irc, now, style).Some? && Copies(irc, pubSub)
    ensures var s := log[Meets(log, irc, now, style).value];
            Matches(Stacked(s, irc), pubSub) && Matches(Stacked(s, pubSub), irc) && Matches(pubSub, irc)
  {
  }

  lemma MarkKeepsOrigin(log: seq<Entry>, user: string, disable: bool, i: nat)
    requires i < |log|
    ensures Mark(log, user, disable)[i].isPubSub == log[i].isPubSub
    ensures Mark(log, user, disable)[i].count == log[i].count
  {
  }

  /**
    On every log, whatever entry is met: both delivery orders leave just what the PubSub copy
    alone leaves, unless stacking is off; then the IRC copy stays behind when it comes second.
   */
  lemma DeliveryOrder(log: seq<Entry>, irc: Entry, pubSub: Entry, now1: int, now2: int, style: StackStyle, disable: bool)
    requires Copies(irc, pubSub)
    requires now2 - STACK_WINDOW_MS <= irc.received && now2 - STACK_WINDOW_MS <= pubSub.received
    requires forall i :: IsCandidate(log, irc, now1, style, i) ==> RecentFrom(log, i, now2)
    ensures var alone := AddTimeout(log, pubSub, now1, style, disable);
            var ircFirst := AddTimeout(AddTimeout(log, irc, now1, style, disable), pubSub, now2, style, disable);
            var pubSubFirst := AddTimeout(alone, irc, now2, style, disable);
            && (style != DontStack ==> ircFirst == pubSubFirst == alone)
            && (style == DontStack ==>
                  && pubSubFirst == alone + [irc]
                  && ircFirst == if MeetsPubSub(log, pubSub, now1, style) then Mark(log, irc.timeoutUser, disable) + [pubSub] else alone)
            && (ircFirst == pubSubFirst <==> style != DontStack)
  {
    var met := Meets(log, irc, now1, style);
    if met.Some? {
      MeetsTheCandidate(log, irc, now1, style, met.value);
    }
    hide Mark, AddTimeout, Meets;
    IrcFirst(log, irc, pubSub, now1, now2, style, disable);
    PubSubFirst(log, irc, pubSub, now1, now2, style, disable);
    OrdersDiffer(AddTimeout(log, pubSub, now1, style, disable), Mark(log, irc.timeoutUser, disable), irc, pubSub);
  }

  lemma OrdersDiffer(a: seq<Entry>, b: seq<Entry>, irc: Entry, pubSub: Entry)
    requires irc != pubSub
    ensures a + [irc] != a && a + [irc] != b + [pubSub]
  {
    assert (a + [irc])[|a + [irc]| - 1] == irc && (b + [pubSub])[|b + [pubSub]| - 1] == pubSub;
  }

  /** A timeout delivered in both copies counts once, as its PubSub copy alone does. */
  lemma PairCountsOnce(log: seq<Entry>, irc: Entry, pubSub: Entry, now1: int, now2: int, style: StackStyle, disable: bool, ircFirst: bool)
    requires Copies(irc, pubSub) && pubSub.count == 1 && style != DontStack
    requires now2 - STACK_WINDOW_MS <= irc.received && now2 - STACK_WINDOW_MS <= pubSub.received
    requires forall i :: IsCandidate(log, irc, now1, style, i) ==> RecentFrom(log, i, now2)
    ensures var first, second := if ircFirst then irc else pubSub, if ircFirst then pubSub else irc;
            var after := AddTimeout(AddTimeout(log, first, now1, style, disable), second, now2, style, disable);
            Total(after, irc.timeoutUser) + Lost(log, pubSub, now1, style) == Total(log, irc.timeoutUser) + 1
  {
    hide AddTimeout, Total, Lost;
    DeliveryOrder(log, irc, pubSub, now1, now2, style, disable);
    CountsOnce(log, pubSub, now1, style, disable, irc.timeoutUser);
  }
}
