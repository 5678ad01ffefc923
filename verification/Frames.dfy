/** The clock of an animated image (`Frames::advance` and `Frames::processOffset`). */
module Frames {

  const GIF_FRAME_LENGTH := 20

  /** `readFrames`: the duration a frame is shown for. */
  function FrameDuration(delay: int): (d: int)
    ensures GIF_FRAME_LENGTH <= d
    ensures 20 <= delay ==> d == delay
    ensures 10 < delay < 20 ==> d == 20
    ensures delay <= 10 ==> d == 100
  {
    var duration := if delay <= 10 then 100 else delay;
    if duration < 20 then 20 else duration
  }

  predicate Positive(durations: seq<int>) {
    forall i :: 0 <= i < |durations| ==> 0 < durations[i]
  }

  function Sum(durations: seq<int>): int {
    if durations == [] then 0 else Sum(durations[..|durations| - 1]) + durations[|durations| - 1]
  }

  /** The frame shown and how long it has been shown. */
  datatype Position = Position(index: nat, offset: int)

  /** The time since the start of the animation. */
  function Elapsed(durations: seq<int>, p: Position): int
    requires p.index < |durations|
  {
    Sum(durations[..p.index]) + p.offset
  }

  function Settle(durations: seq<int>, p: Position): (r: Position)
    requires Positive(durations) && p.index < |durations|
    ensures r.index < |durations| && r.offset <= durations[r.index]
    ensures 0 <= p.offset ==> 0 <= r.offset
    ensures 0 < p.offset ==> 0 < r.offset
    decreases p.offset
  {
    if p.offset > durations[p.index]
    then Settle(durations, Position((p.index + 1) % |durations|, p.offset - durations[p.index]))
    else p
  }

  lemma WrapSmall(i: nat, n: nat)
    requires i < n
    ensures i % n == i
  {
  }

  lemma WrapFull(n: nat)
    requires 0 < n
    ensures n % n == 0
  {
  }

  lemma SettleStep(durations: seq<int>, p: Position)
    requires Positive(durations) && p.index < |durations|
    ensures 0 < durations[p.index]
    ensures Settle(durations, p) ==
            if p.offset > durations[p.index]
            then Settle(durations, Position((p.index + 1) % |durations|, p.offset - durations[p.index])) else p
  {
  }

  class Frames {
    var items: seq<int>
    var index: nat
    var durationOffset: int

    method ProcessOffset()
      requires Positive(items)
      modifies this`index, this`durationOffset
      ensures items == [] ==> index == old(index) && durationOffset == old(durationOffset)
      ensures items != [] ==> Position(index, durationOffset) == Settle(items, Position(old(index) % |items|, old(durationOffset)))
    {
      if items == [] {
        return;
      }
      hide Settle, Positive;
      ghost var goal := Settle(items, Position(index % |items|, durationOffset));
      while true
        invariant goal == Settle(items, Position(index % |items|, durationOffset))
        decreases durationOffset
      {
        index := index % |items|;
        WrapSmall(index, |items|);
        SettleStep(items, Position(index, durationOffset));
        if durationOffset > items[index] {
          durationOffset := durationOffset - items[index];
          index := (index + 1) % |items|;
          WrapSmall(index, |items|);
        } else {
          break;
        }
      }
    }

    method Advance()
      requires Positive(items)
      modifies this`index, this`durationOffset
      ensures items != [] ==>
                Position(index, durationOffset) == Settle(items, Position(old(index) % |items|, old(durationOffset) + GIF_FRAME_LENGTH))
    {
      durationOffset := durationOffset + GIF_FRAME_LENGTH;
      ProcessOffset();
    }
  }

  // ----- the clock

  lemma SumSnoc(durations: seq<int>, i: nat)
    requires i < |durations|
    ensures Sum(durations[..i + 1]) == Sum(durations[..i]) + durations[i]
    ensures Sum(durations[..0]) == 0 && durations[..|durations|] == durations
  {
    assert durations[..i + 1][..i] == durations[..i];
  }

  lemma NextFrame(durations: seq<int>, i: nat)
    requires i < |durations|
    ensures var next := (i + 1) % |durations|;
            && next < |durations|
            && (if i + 1 == |durations| then next == 0 else next == i + 1)
            && Sum(durations[..next]) + (if next == 0 then Sum(durations) else 0) == Sum(durations[..i]) + durations[i]
  {
    hide Sum;
    SumSnoc(durations, i);
    if i + 1 < |durations| {
      WrapSmall(i + 1, |durations|);
    } else {
      WrapFull(|durations|);
    }
  }

  /** `n` rounds of the whole animation. */
  function Rounds(n: nat, total: int): int {
    if n == 0 then 0 else Rounds(n - 1, total) + total
  }

  lemma {:induction false} RoundsAdd(a: nat, b: nat, total: int)
    ensures Rounds(a + b, total) == Rounds(a, total) + Rounds(b, total)
  {
    if b != 0 {
      RoundsAdd(a, b - 1, total);
    }
  }

  /** Settling takes away whole rounds only. */
  lemma {:induction false} SettleClock(durations: seq<int>, p: Position) returns (n: nat)
    requires Positive(durations) && p.index < |durations|
    ensures Elapsed(durations, Settle(durations, p)) + Rounds(n, Sum(durations)) == Elapsed(durations, p)
    decreases p.offset
  {
    hide Settle, Sum, Positive;
    n := 0;
    SettleStep(durations, p);
    if p.offset > durations[p.index] {
      NextFrame(durations, p.index);
      var next := (p.index + 1) % |durations|;
      n := SettleClock(durations, Position(next, p.offset - durations[p.index]));
      if next == 0 {
        n := n + 1;
      }
    }
  }

  /** The position after `k` ticks. */
  function Ticks(durations: seq<int>, p: Position, k: nat): (r: Position)
    requires Positive(durations) && p.index < |durations|
    ensures r.index < |durations|
  {
    if k == 0 then p
    else
      var q := Ticks(durations, p, k - 1);
      Settle(durations, q.(offset := q.offset + GIF_FRAME_LENGTH))
  }

  lemma {:induction false} TicksClock(durations: seq<int>, p: Position, k: nat) returns (n: nat)
    requires Positive(durations) && p.index < |durations|
    ensures Elapsed(durations, Ticks(durations, p, k)) + Rounds(n, Sum(durations)) == Elapsed(durations, p) + k * GIF_FRAME_LENGTH
  {
    hide Settle, Sum, Positive;
    n := 0;
    if k != 0 {
      var before := TicksClock(durations, p, k - 1);
      var q := Ticks(durations, p, k - 1);
      var more := SettleClock(durations, q.(offset := q.offset + GIF_FRAME_LENGTH));
      RoundsAdd(before, more, Sum(durations));
      n := before + more;
    }
  }

  lemma {:induction false} SumPositive(durations: seq<int>)
    requires Positive(durations)
    ensures durations != [] ==> 0 < Sum(durations)
  {
    if |durations| > 1 {
      SumPositive(durations[..|durations| - 1]);
    }
  }

  lemma NonNegativeProduct(a: int, b: int)
    requires 0 <= a && 0 <= b
    ensures 0 <= a * b
  {
  }

  /** Quotient and remainder are unique. */
  lemma Remainder(y: int, q: int, r: int, total: int)
    requires 0 < total && 0 <= r < total && y == q * total + r
    ensures y % total == r
  {
    var d := y / total - q;
    assert y == (y / total) * total + y % total;
    assert d * total == (y / total) * total - q * total;
    assert d * total == r - y % total;
    if d >= 0 { NonNegativeProduct(d, total); }
    assert d >= 1 ==> d * total - total == (d - 1) * total;
    assert d >= 1 ==> 0 <= (d - 1) * total;
    assert d <= -1 ==> d * total + total == (d + 1) * total;
    assert d <= -1 ==> (d + 1) * total <= 0;
  }

  lemma {:induction false} RoundsVanish(x: int, n: nat, total: int)
    requires 0 < total
    ensures (x + Rounds(n, total)) % total == x % total
  {
    if n != 0 {
      RoundsVanish(x, n - 1, total);
      var y := x + Rounds(n - 1, total);
      assert y + total == (y / total + 1) * total + y % total;
      Remainder(y + total, y / total + 1, y % total, total);
    }
  }

  /**
    After any number of ticks the animation shows the moment it should, up to whole
    rounds, and the frame shown has not been shown longer than it may.
   */
  lemma Clock(durations: seq<int>, p: Position, k: nat)
    requires Positive(durations) && p.index < |durations| && 0 <= p.offset <= durations[p.index]
    ensures var now := Ticks(durations, p, k);
            && 0 < Sum(durations)
            && Elapsed(durations, now) % Sum(durations) == (Elapsed(durations, p) + k * 20) % Sum(durations)
            && 0 <= now.offset <= durations[now.index]
            && (0 < k ==> 0 < now.offset)
  {
    hide Sum, Ticks, Elapsed, Rounds;
    SumPositive(durations);
    var n := TicksClock(durations, p, k);
    RoundsVanish(Elapsed(durations, Ticks(durations, p, k)), n, Sum(durations));
    TicksInFrame(durations, p, k);
  }

  lemma {:induction false} TicksInFrame(durations: seq<int>, p: Position, k: nat)
    requires Positive(durations) && p.index < |durations| && 0 <= p.offset <= durations[p.index]
    ensures var now := Ticks(durations, p, k); 0 <= now.offset <= durations[now.index] && (0 < k ==> 0 < now.offset)
  {
    if k != 0 {
      TicksInFrame(durations, p, k - 1);
    }
  }
}
