/**
  The upload queue: one lock for a whole batch, one request at a time, and a pause between
  requests.
 */
module ImageUploader {

  type Image = string

  /** An accepted batch and how many of its images have been sent so far. */
  datatype Batch = Batch(images: seq<Image>, sent: nat)

  /**
    `locked` and `queue` are the uploader's own fields. `inFlight` and `timers` count the
    requests and delay timers whose callbacks are still to come.
   */
  datatype State = State(locked: bool, queue: seq<Image>, inFlight: nat, timers: nat,
                         batches: seq<Batch>, requests: seq<Image>)

  function Idle(): State {
    State(false, [], 0, 0, [], [])
  }

  datatype Event =
    | Upload(images: seq<Image>)
    | RequestSucceeded(editorAlive: bool)
    | RequestFailed
    | TimerFired

  /** A callback comes only if it is due; an uploader that is free is given at least one image. */
  predicate Possible(s: State, event: Event) {
    match event
    case Upload(images) => !s.locked ==> images != []
    case RequestSucceeded(_) => 0 < s.inFlight
    case RequestFailed => 0 < s.inFlight
    case TimerFired => 0 < s.timers
  }

  /** Sends the front of the queue and then pops it. */
  function SendFront(s: State): State
    requires s.queue != [] && s.batches != []
  {
    var n := |s.batches| - 1;
    s.(queue := s.queue[1..], inFlight := s.inFlight + 1, requests := s.requests + [s.queue[0]],
       batches := s.batches[n := s.batches[n].(sent := s.batches[n].sent + 1)])
  }

  function Release(s: State): State {
    s.(queue := [], locked := false)
  }

  function Step(s: State, event: Event): State
    requires Invariant(s) && Possible(s, event)
  {
    match event
    case Upload(images) =>
      if s.locked then s
      else SendFront(s.(locked := true, queue := images, batches := s.batches + [Batch(images, 0)]))
    case RequestSucceeded(editorAlive) =>
      var s' := s.(inFlight := s.inFlight - 1);
      if !editorAlive || s.queue == [] then Release(s') else s'.(timers := s.timers + 1)
    case RequestFailed => Release(s.(inFlight := s.inFlight - 1))
    case TimerFired => SendFront(s.(timers := s.timers - 1))
  }

  /** At least one image of each batch was sent, and no more than it has. */
  predicate SentWithin(batches: seq<Batch>) {
    forall b :: b in batches ==> 0 < b.sent <= |b.images|
  }

  /** Everything that was ever sent: an initial part of each batch, batch after batch. */
  function SentParts(batches: seq<Batch>): seq<Image>
    requires SentWithin(batches)
  {
    if batches == [] then []
    else
      var n := |batches| - 1;
      SentParts(batches[..n]) + batches[n].images[..batches[n].sent]
  }

  function Unsent(b: Batch): seq<Image>
    requires b.sent <= |b.images|
  {
    b.images[b.sent..]
  }

  predicate Invariant(s: State) {
    && s.inFlight + s.timers == (if s.locked then 1 else 0)
    && (!s.locked ==> s.queue == [])
    && (0 < s.timers ==> s.queue != [])
    && SentWithin(s.batches)
    && s.requests == SentParts(s.batches)
    && (s.locked ==> s.batches != [] && Unsent(s.batches[|s.batches| - 1]) == s.queue)
  }

  // ----- the class

  class Uploader {
    var uploadMutex: bool
    var uploadQueue: seq<Image>
    var inFlight: nat
    var timers: nat
    ghost var batches: seq<Batch>
    var requests: seq<Image>

    ghost function View(): State
      reads this
    {
      State(uploadMutex, uploadQueue, inFlight, timers, batches, requests)
    }

    constructor ()
      ensures View() == Idle()
    {
      uploadMutex, uploadQueue, inFlight, timers, batches, requests := false, [], 0, 0, [], [];
    }

    method SendImageUploadRequest(image: Image)
      modifies this`inFlight, this`requests
      ensures inFlight == old(inFlight) + 1 && requests == old(requests) + [image]
    {
      inFlight, requests := inFlight + 1, requests + [image];
    }

    method UploadImages(images: seq<Image>)
      requires Invariant(View()) && Possible(View(), Upload(images))
      modifies this
      ensures View() == Step(old(View()), Upload(images))
    {
      if uploadMutex {
        return;
      }
      uploadMutex := true;
      assert images != [] && uploadQueue == [];
      uploadQueue := images;
      SendImageUploadRequest(uploadQueue[0]);
      uploadQueue := uploadQueue[1..];
      batches := batches + [Batch(images, 1)];
    }

    method PopAll()
      modifies this`uploadQueue
      ensures uploadQueue == []
    {
      while uploadQueue != []
        decreases |uploadQueue|
      {
        uploadQueue := uploadQueue[1..];
      }
    }

    method HandleFailedUpload()
      requires Invariant(View()) && Possible(View(), RequestFailed)
      modifies this
      ensures View() == Step(old(View()), RequestFailed)
    {
      inFlight := inFlight - 1;
      PopAll();
      uploadMutex := false;
    }

    method HandleSuccessfulUpload(editorAlive: bool)
      requires Invariant(View()) && Possible(View(), RequestSucceeded(editorAlive))
      modifies this
      ensures View() == Step(old(View()), RequestSucceeded(editorAlive))
    {
      inFlight := inFlight - 1;
      if !editorAlive {
        PopAll();
        uploadMutex := false;
        return;
      }
      if uploadQueue == [] {
        uploadMutex := false;
      } else {
        timers := timers + 1;
      }
    }

    method HandleTimer()
      requires Invariant(View()) && Possible(View(), TimerFired)
      modifies this
      ensures View() == Step(old(View()), TimerFired)
    {
      timers := timers - 1;
      SendImageUploadRequest(uploadQueue[0]);
      uploadQueue := uploadQueue[1..];
      ghost var n := |batches| - 1;
      batches := batches[n := batches[n].(sent := batches[n].sent + 1)];
    }
  }

  // ----- runs

  /** Callbacks still to come before the lock is free, at most. */
  function Work(s: State): nat {
    2 * |s.queue| + s.inFlight
  }

  /** One more batch, or a longer initial part of the last one. */
  lemma SentSnoc(batches: seq<Batch>, b: Batch)
    requires SentWithin(batches) && 0 < b.sent <= |b.images|
    ensures SentWithin(batches + [b])
    ensures SentParts(batches + [b]) == SentParts(batches) + b.images[..b.sent]
  {
    assert (batches + [b])[..|batches|] == batches;
  }

  lemma LastBatch(batches: seq<Batch>)
    requires SentWithin(batches) && batches != []
    ensures var n := |batches| - 1;
            && batches == batches[..n] + [batches[n]] && SentWithin(batches[..n])
            && forall b :: batches[n := b] == batches[..n] + [b]
  {
  }

  /** Sending one more image of the last batch. */
  lemma OneMoreSent(batches: seq<Batch>)
    requires SentWithin(batches) && batches != []
    requires batches[|batches| - 1].sent < |batches[|batches| - 1].images|
    ensures var n := |batches| - 1;
            var b := batches[n];
            var after := batches[n := b.(sent := b.sent + 1)];
            SentWithin(after) && SentParts(after) == SentParts(batches) + [b.images[b.sent]]
  {
    hide SentParts;
    LastBatch(batches);
    var n := |batches| - 1;
    var b := batches[n];
    SentSnoc(batches[..n], b);
    SentSnoc(batches[..n], b.(sent := b.sent + 1));
    assert b.images[..b.sent + 1] == b.images[..b.sent] + [b.images[b.sent]];
  }

  /** Every step keeps the invariant, and every callback brings the release of the lock nearer. */
  lemma StepKeeps(s: State, event: Event)
    requires Invariant(s) && Possible(s, event)
    ensures Invariant(Step(s, event))
    ensures event.Upload? && s.locked ==> Step(s, event) == s
    ensures !event.Upload? ==> Work(Step(s, event)) < Work(s)
    ensures s.locked <==> 0 < Work(s)
  {
    hide SentParts;
    match event
    case Upload(images) =>
      if !s.locked {
        SentSnoc(s.batches, Batch(images, 1));
        assert Step(s, event).batches == s.batches + [Batch(images, 1)];
      }
    case TimerFired => OneMoreSent(s.batches);
    case _ =>
  }

  ghost predicate PossibleRun(s: State, events: seq<Event>)
    requires Invariant(s)
    decreases |events|
  {
    events == [] ||
    (Possible(s, events[0]) && (StepKeeps(s, events[0]); PossibleRun(Step(s, events[0]), events[1..])))
  }

  ghost function Run(s: State, events: seq<Event>): State
    requires Invariant(s) && PossibleRun(s, events)
    decreases |events|
  {
    if events == [] then s else StepKeeps(s, events[0]); Run(Step(s, events[0]), events[1..])
  }

  function Callbacks(events: seq<Event>): nat {
    if events == [] then 0 else (if events[0].Upload? then 0 else 1) + Callbacks(events[1..])
  }

  /** The lock is held before, during and after the whole run. */
  ghost predicate StaysLocked(s: State, events: seq<Event>)
    requires Invariant(s) && PossibleRun(s, events)
    decreases |events|
  {
    s.locked && (events == [] || (StepKeeps(s, events[0]); StaysLocked(Step(s, events[0]), events[1..])))
  }

  /** A held lock is released after fewer callbacks than twice the images left, and lets no second batch in meanwhile. */
  lemma {:induction false} LockIsReleased(s: State, events: seq<Event>)
    requires Invariant(s) && PossibleRun(s, events) && StaysLocked(s, events)
    ensures Callbacks(events) < Work(s)
    ensures |Run(s, events).batches| == |s.batches|
    decreases |events|
  {
    StepKeeps(s, if events == [] then Upload([]) else events[0]);
    if events != [] {
      LockIsReleased(Step(s, events[0]), events[1..]);
    }
  }

  /**
    In every state reachable from a free uploader: the lock is held just when one request is
    in flight or one timer pends, never both; a free uploader has nothing queued; a pending
    timer has an image to send; and the requests so far are an initial part of every accepted
    batch, in order.
   */
  lemma {:induction false} Reachable(s: State, events: seq<Event>)
    requires Invariant(s) && PossibleRun(s, events)
    ensures Invariant(Idle()) && Invariant(Run(s, events))
    ensures var r := Run(s, events);
            && (r.locked <==> r.inFlight == 1 || r.timers == 1)
            && r.inFlight + r.timers <= 1
            && (!r.locked ==> r.queue == [])
            && (0 < r.timers ==> r.queue != [])
            && SentWithin(r.batches)
            && r.requests == SentParts(r.batches)
    decreases |events|
  {
    if events != [] {
      StepKeeps(s, events[0]);
      Reachable(Step(s, events[0]), events[1..]);
    }
  }

  // ----- what becomes of a batch

  /** What each event does to the lock, the queue and the requests, in every state that satisfies the invariant. */
  lemma EventLaw(s: State, event: Event)
    requires Invariant(s) && Possible(s, event)
    ensures var r := Step(s, event);
            match event
            case Upload(images) =>
              if s.locked then r == s
              else r.locked && r.requests == s.requests + [images[0]] && r.queue == images[1..] && r.inFlight == 1 && r.timers == 0
            case RequestSucceeded(editorAlive) =>
              && r.requests == s.requests && r.inFlight == 0 && r.batches == s.batches
              && (if editorAlive && s.queue != [] then r.locked && r.timers == 1 && r.queue == s.queue
                  else !r.locked && r.timers == 0 && r.queue == [])
            case RequestFailed =>
              !r.locked && r.queue == [] && r.inFlight == 0 && r.timers == 0 && r.requests == s.requests && r.batches == s.batches
            case TimerFired =>
              r.locked && r.requests == s.requests + [s.queue[0]] && r.queue == s.queue[1..] && r.inFlight == 1 && r.timers == 0
  {
    hide SentParts;
  }

  /** A batch that ends well was sent whole. */
  lemma BatchCompletes(s: State)
    requires Invariant(s) && 0 < s.inFlight && !Step(s, RequestSucceeded(true)).locked
    ensures var b := s.batches[|s.batches| - 1]; b.sent == |b.images|
  {
    hide SentParts;
  }

  /** Once the lock is free, no batch accepted so far sends anything more. */
  lemma {:induction false} ClosedBatchesStay(s: State, events: seq<Event>, n: nat)
    requires Invariant(s) && PossibleRun(s, events)
    requires n <= |s.batches| && (s.locked ==> n < |s.batches|)
    ensures n <= |Run(s, events).batches| && Run(s, events).batches[..n] == s.batches[..n]
    decreases |events|
  {
    if events != [] {
      hide SentParts;
      StepKeeps(s, events[0]);
      ClosedBatchStays(s, events[0], n);
      ClosedBatchesStay(Step(s, events[0]), events[1..], n);
    }
  }

  lemma ClosedBatchStays(s: State, event: Event, n: nat)
    requires Invariant(s) && Possible(s, event)
    requires n <= |s.batches| && (s.locked ==> n < |s.batches|)
    ensures var r := Step(s, event);
            n <= |r.batches| && r.batches[..n] == s.batches[..n] && (r.locked ==> n < |r.batches|)
  {
    hide SentParts;
  }
}
