/**
  Stacking of timeout messages (`addOrReplaceChannelTimeout`): a new timeout is merged
  with a recent one for the same user, replaces it, is dropped, or is appended.
 */
module Timeouts {
  import opened Wrappers
  import opened Sequences
  import opened MessageLog

  datatype StackStyle = StackHard | DontStackBeyondUserMessage | DontStack

  /** `count` is a `uint32_t`. */
  const COUNT_MODULUS := 0x1_0000_0000
  type Count = n: int | 0 <= n < COUNT_MODULUS

  /** The fields of a message that the stacking reads or writes. Times are milliseconds. */
  datatype Entry = Entry(
    isTimeout: bool, isUntimeout: bool, isPubSub: bool, isShared: bool, isDisabled: bool, isWhisper: bool,
    loginName: string, timeoutUser: string, channelName: string, received: int, count: Count)

  const SCAN_LENGTH := 20
  const STACK_WINDOW_MS := 5000

  /** The scan stops at this entry. */
  predicate Blocks(s: Entry, msg: Entry, now: int, style: StackStyle) {
    || s.received < now - STACK_WINDOW_MS
    || (s.isUntimeout && s.timeoutUser == msg.timeoutUser)
    || (style == DontStackBeyondUserMessage && s.loginName == msg.timeoutUser
        && !s.isDisabled && !s.isTimeout && !s.isUntimeout)
  }

  /** A timeout of the same user, from the same shared-chat source. */
  predicate Matches(s: Entry, msg: Entry) {
    && msg.isShared == s.isShared
    && (msg.isShared ==> msg.channelName == s.channelName)
    && s.isTimeout && s.timeoutUser == msg.timeoutUser
  }

  /** What two stacked timeouts become; the rebuilt message has no login name. */
  function Stacked(s: Entry, msg: Entry): Entry {
    msg.(count := (s.count + 1) % COUNT_MODULUS, loginName := "")
  }

  predicate Eligible(s: Entry, user: string) {
    s.loginName == user && !s.isTimeout && !s.isUntimeout && !s.isWhisper
  }

  function Disable(s: Entry, user: string): Entry {
    if Eligible(s, user) then s.(isDisabled := true) else s
  }

  function DisableAll(log: seq<Entry>, user: string): (r: seq<Entry>)
    ensures |r| == |log|
  {
    seq(|log|, i requires 0 <= i < |log| => Disable(log[i], user))
  }

  /** Whether the user's messages are disabled is up to the caller. */
  function Mark(log: seq<Entry>, user: string, disable: bool): (r: seq<Entry>)
    ensures |r| == |log|
  {
    if disable then DisableAll(log, user) else log
  }

  function ScanEnd(log: seq<Entry>): nat {
    if |log| <= SCAN_LENGTH then 0 else |log| - SCAN_LENGTH
  }

  /** The log after a timeout, given the entry it met. */
  function Outcome(log: seq<Entry>, msg: Entry, style: StackStyle, disable: bool, met: Option<nat>): seq<Entry>
    requires met.Some? ==> met.value < |log|
  {
    var rest := Mark(log, msg.timeoutUser, disable);
    match met
    case None => rest + [msg]
    case Some(i) =>
      if msg.isPubSub && !log[i].isPubSub then rest[i := msg]
      else if !msg.isPubSub && log[i].isPubSub then (if style == DontStack then rest + [msg] else rest)
      else rest[i := Stacked(log[i], msg)]
  }

  function Scan(log: seq<Entry>, msg: Entry, now: int, style: StackStyle, i: nat): (met: Option<nat>)
    requires i <= |log|
    ensures met.Some? ==> met.value < i
    decreases i
  {
    if i <= ScanEnd(log) || Blocks(log[i - 1], msg, now, style) then None
    else if Matches(log[i - 1], msg) then Some(i - 1)
    else Scan(log, msg, now, style, i - 1)
  }

  /** One round of the scan. */
  lemma ScanStep(log: seq<Entry>, msg: Entry, now: int, style: StackStyle, i: nat)
    requires i <= |log|
    ensures Scan(log, msg, now, style, i) ==
            if i <= ScanEnd(log) || Blocks(log[i - 1], msg, now, style) then None
            else if Matches(log[i - 1], msg) then Some(i - 1)
            else Scan(log, msg, now, style, i - 1)
  {
  }

  function Meets(log: seq<Entry>, msg: Entry, now: int, style: StackStyle): (met: Option<nat>)
    ensures met.Some? ==> met.value < |log|
  {
    Scan(log, msg, now, style, |log|)
  }

  function AddTimeout(log: seq<Entry>, msg: Entry, now: int, style: StackStyle, disable: bool): seq<Entry> {
    Outcome(log, msg, style, disable, Meets(log, msg, now, style))
  }

  /** A channel keeps the last `limit` messages; a sink without a limit keeps all. */
  function Keep<T>(limit: Option<nat>, log: seq<T>): seq<T> {
    match limit
    case None => log
    case Some(n) => Window(n, log)
  }

  // ----- the source's loops, over shared message objects

  /** A message object. Only its `Disabled` flag changes after construction. */
  class Message {
    const made: Entry
    var disabled: bool

    constructor (e: Entry)
      ensures Value() == e
    {
      made, disabled := e, e.isDisabled;
    }

    function Value(): Entry
      reads this
    {
      made.(isDisabled := disabled)
    }
  }

  function Values(log: seq<Message>): (r: seq<Entry>)
    reads log
    ensures |r| == |log|
  {
    seq(|log|, i requires 0 <= i < |log| reads log => log[i].Value())
  }

  class MessageBuffer {
    const limit: Option<nat>
    var log: seq<Message>

    ghost predicate Valid()
      reads this
    {
      Distinct(log) && (limit.Some? ==> 0 < limit.value && |log| <= limit.value)
    }

    /**
      The backward scan over the snapshot, with the replacement callback: says whether to
      append, which entry was met, and which message took its place, if one did.
     */
    method ScanAndReplace(msg: Message, now: int, style: StackStyle)
      returns (shouldAddMessage: bool, ghost met: Option<nat>, ghost placed: Option<Message>)
      requires Valid() && msg !in log
      modifies this
      ensures Valid() && met == Meets(old(Values(log)), msg.Value(), now, style)
      ensures shouldAddMessage ==
              (met.None? || (style == DontStack && !msg.Value().isPubSub && old(Values(log))[met.value].isPubSub))
      ensures placed.None? ==> log == old(log)
      ensures placed.None? <==> met.None? || (!msg.Value().isPubSub && old(Values(log))[met.value].isPubSub)
      ensures placed.Some? ==>
                var i, r, s := met.value, placed.value, old(Values(log))[met.value];
                && log == old(log)[i := r] && r !in old(log) && (r == msg || fresh(r))
                && r.Value() == if msg.Value().isPubSub && !s.isPubSub then msg.Value() else Stacked(s, msg.Value())
    {
      hide Blocks, Stacked, Scan;
      var snapshot, m := log, msg.Value();
      ghost var values := Values(log);
      met, placed := None, None;
      var end := if |snapshot| <= SCAN_LENGTH then 0 else |snapshot| - SCAN_LENGTH;
      shouldAddMessage := true;
      var i := |snapshot| - 1;
      while end <= i
        invariant end - 1 <= i < |snapshot| && log == snapshot && shouldAddMessage && met.None? && placed.None?
        invariant Meets(values, m, now, style) == Scan(values, m, now, style, i + 1)
      {
        var s := snapshot[i].Value();
        assert s == values[i];
        ScanStep(values, m, now, style, i + 1);
        if Blocks(s, m, now, style) {
          return;
        }
        if m.isShared != s.isShared || (m.isShared && m.channelName != s.channelName) {
          i := i - 1;
          continue;
        }
        if s.isTimeout && s.timeoutUser == m.timeoutUser {
          met := Some(i);
          if m.isPubSub && !s.isPubSub {
            placed := Some(msg);
            log := log[i := msg];
            return false, met, placed;
          }
          if !m.isPubSub && s.isPubSub {
            return style == DontStack, met, placed;
          }
          var replacement := new Message(Stacked(s, m));
          placed := Some(replacement);
          log := log[i := replacement];
          return false, met, placed;
        }
        i := i - 1;
      }
      ScanStep(values, m, now, style, i + 1);
    }

    /** The messages of the snapshot are shared objects, disabled in place. */
    method DisableUserMessages(snapshot: seq<Message>, user: string)
      requires Distinct(snapshot)
      modifies snapshot
      ensures forall j :: 0 <= j < |snapshot| ==> snapshot[j].Value() == Disable(old(snapshot[j].Value()), user)
    {
      for k := 0 to |snapshot|
        invariant forall j :: 0 <= j < k ==> snapshot[j].Value() == Disable(old(snapshot[j].Value()), user)
        invariant forall j :: k <= j < |snapshot| ==> snapshot[j].disabled == old(snapshot[j].disabled)
      {
        if Eligible(snapshot[k].Value(), user) {
          snapshot[k].disabled := true;
        }
      }
    }

    /** `Channel::addMessage`, or appending to a vector. */
    method AddMessage(msg: Message)
      requires Valid() && msg !in log
      modifies this
      ensures Valid() && log == Keep(limit, old(log) + [msg])
    {
      if limit.Some? {
        WindowOfPushBack(limit.value, log, msg);
        log := QueueStep(limit.value, log, PushBack(msg));
      } else {
        log := log + [msg];
      }
    }

    method AddOrReplaceTimeout(msg: Message, now: int, style: StackStyle, disableUserMessages: bool)
      requires Valid() && msg !in log
      modifies this, log
      ensures Valid()
      ensures Values(log) == Keep(limit, AddTimeout(old(Values(log)), old(msg.Value()), now, style, disableUserMessages))
    {
      hide Blocks, Scan, Mark, Keep, Stacked;
      var snapshot := log;
      ghost var values := Values(log);
      var shouldAddMessage, met, placed := ScanAndReplace(msg, now, style);
      if disableUserMessages {
        DisableUserMessages(snapshot, msg.made.timeoutUser);
      }
      assert Values(snapshot) == Mark(values, msg.Value().timeoutUser, disableUserMessages) by {
        MarkIs(values, Values(snapshot), msg.Value().timeoutUser, disableUserMessages);
      }
      if placed.Some? {
        ValuesUpdate(snapshot, met.value, placed.value);
      }
      if shouldAddMessage {
        ghost var kept := log;
        AddMessage(msg);
        ValuesKept(limit, kept + [msg]);
        ValuesAppend(kept, msg);
      } else {
        AllKept(limit, Values(log));
      }
    }
  }

  lemma MarkIs(before: seq<Entry>, after: seq<Entry>, user: string, disable: bool)
    requires |after| == |before|
    requires forall j :: 0 <= j < |before| ==> after[j] == if disable then Disable(before[j], user) else before[j]
    ensures after == Mark(before, user, disable)
  {
  }

  lemma ValuesUpdate(log: seq<Message>, i: nat, m: Message)
    requires i < |log|
    ensures Values(log[i := m]) == Values(log)[i := m.Value()]
  {
  }

  lemma ValuesAppend(log: seq<Message>, m: Message)
    ensures Values(log + [m]) == Values(log) + [m.Value()]
  {
  }

  lemma ValuesKept(limit: Option<nat>, log: seq<Message>)
    ensures Values(Keep(limit, log)) == Keep(limit, Values(log))
  {
  }

  lemma AllKept<T>(limit: Option<nat>, log: seq<T>)
    requires limit.Some? ==> |log| <= limit.value
    ensures Keep(limit, log) == log
  {
  }
}
