/** What the stable merge promises: the laws behind `Channel::fillInMissingMessages`. */
module FillLaws {
  import opened Sequences
  import opened MessageLog
  import opened FillHistory

  /** `x` occurs somewhere before an occurrence of `y`. */
  ghost predicate Before<T>(s: seq<T>, x: T, y: T) {
    exists i, j :: 0 <= i < j < |s| && s[i] == x && s[j] == y
  }

  lemma BeforeCons<T>(h: T, s: seq<T>, x: T, y: T)
    requires Before(s, x, y)
    ensures Before([h] + s, x, y)
  {
    var i, j :| 0 <= i < j < |s| && s[i] == x && s[j] == y;
    assert ([h] + s)[i + 1] == x && ([h] + s)[j + 1] == y;
  }

  lemma BeforeHead<T>(h: T, s: seq<T>, y: T)
    requires y in s
    ensures Before([h] + s, h, y)
  {
    var j :| 0 <= j < |s| && s[j] == y;
    assert ([h] + s)[0] == h && ([h] + s)[j + 1] == y;
  }

  /** The messages of `s` that are in `keep`, in order. */
  ghost function Restrict<T>(s: seq<T>, keep: iset<T>): seq<T> {
    if s == [] then [] else (if s[0] in keep then [s[0]] else []) + Restrict(s[1..], keep)
  }

  lemma {:induction false} RestrictAll<T>(s: seq<T>, keep: iset<T>)
    requires forall x :: x in s ==> x in keep
    ensures Restrict(s, keep) == s
  {
    if s != [] {
      RestrictAll(s[1..], keep);
    }
  }

  lemma {:induction false} RestrictNone<T>(s: seq<T>, keep: iset<T>)
    requires forall x :: x in s ==> x !in keep
    ensures Restrict(s, keep) == []
  {
    if s != [] {
      RestrictNone(s[1..], keep);
    }
  }

  lemma RestrictCons<T>(h: T, s: seq<T>, keep: iset<T>)
    ensures Restrict([h] + s, keep) == (if h in keep then [h] else []) + Restrict(s, keep)
  {
    assert ([h] + s)[1..] == s;
  }

  /** Both inputs survive whole and in their own order. */
  lemma {:induction false} MergeKeepsBoth(a: seq<Message>, b: seq<Message>, inA: iset<Message>, inB: iset<Message>)
    requires forall x :: x in a ==> x in inA && x !in inB
    requires forall x :: x in b ==> x in inB && x !in inA
    ensures Restrict(StableMerge(a, b), inA) == a
    ensures Restrict(StableMerge(a, b), inB) == b
    decreases |a| + |b|
  {
    if b == [] {
      RestrictAll(a, inA);
      RestrictNone(a, inB);
    } else if a == [] {
      RestrictAll(b, inB);
      RestrictNone(b, inA);
    } else if !a[0].system && b[0].time < a[0].time {
      hide Restrict;
      MergeKeepsBoth(a, b[1..], inA, inB);
      RestrictCons(b[0], StableMerge(a, b[1..]), inA);
      RestrictCons(b[0], StableMerge(a, b[1..]), inB);
    } else {
      hide Restrict;
      MergeKeepsBoth(a[1..], b, inA, inB);
      RestrictCons(a[0], StableMerge(a[1..], b), inA);
      RestrictCons(a[0], StableMerge(a[1..], b), inB);
    }
  }

  lemma MergeMembers(a: seq<Message>, b: seq<Message>, x: Message)
    ensures x in StableMerge(a, b) <==> x in a || x in b
  {
  }

  /**
    The exact place of every new message: it precedes an existing message just when that
    message is the first later non-system one, or stands behind it.
   */
  lemma {:induction false} MergeDecides(a: seq<Message>, b: seq<Message>, n: Message, k: nat)
    requires Sorted(b) && n in b && k < |a|
    ensures if GapIndex(a, n.time) <= k then Before(StableMerge(a, b), n, a[k]) else Before(StableMerge(a, b), a[k], n)
    decreases |a| + |b|
  {
    assert b[0].time <= n.time;
    if !a[0].system && b[0].time < a[0].time {
      var rest := StableMerge(a, b[1..]);
      if n in b[1..] {
        MergeDecides(a, b[1..], n, k);
        if GapIndex(a, n.time) <= k { BeforeCons(b[0], rest, n, a[k]); } else { BeforeCons(b[0], rest, a[k], n); }
      } else {
        MergeMembers(a, b[1..], a[k]);
        BeforeHead(b[0], rest, a[k]);
      }
    } else {
      var rest := StableMerge(a[1..], b);
      if k == 0 {
        MergeMembers(a[1..], b, n);
        BeforeHead(a[0], rest, n);
      } else {
        MergeDecides(a[1..], b, n, k - 1);
        if GapIndex(a, n.time) <= k { BeforeCons(a[0], rest, n, a[k]); } else { BeforeCons(a[0], rest, a[k], n); }
      }
    }
  }

  /** Two existing messages are in time order unless one of them is a system message. */
  ghost predicate TimeOrdered(s: seq<Message>, exempt: iset<Message>) {
    forall i, j :: 0 <= i < j < |s| && s[i] !in exempt && s[j] !in exempt ==> s[i].time <= s[j].time
  }

  lemma OrderedCons(h: Message, s: seq<Message>, exempt: iset<Message>)
    requires TimeOrdered(s, exempt)
    requires h in exempt || forall x :: x in s && x !in exempt ==> h.time <= x.time
    ensures TimeOrdered([h] + s, exempt)
  {
  }

  /** If the existing non-system messages and the batch are each time-ordered, so is the result. */
  lemma {:induction false} MergeOrdered(a: seq<Message>, b: seq<Message>, exempt: iset<Message>)
    requires TimeOrdered(a, exempt) && Sorted(b)
    requires forall x :: x in a ==> (x in exempt <==> x.system)
    ensures TimeOrdered(StableMerge(a, b), exempt)
    decreases |a| + |b|
  {
    if a != [] && b != [] {
      if !a[0].system && b[0].time < a[0].time {
        MergeOrdered(a, b[1..], exempt);
        forall x | x in StableMerge(a, b[1..]) && x !in exempt ensures b[0].time <= x.time {
          MergeMembers(a, b[1..], x);
        }
        OrderedCons(b[0], StableMerge(a, b[1..]), exempt);
      } else {
        MergeOrdered(a[1..], b, exempt);
        forall x | x in StableMerge(a[1..], b) && x !in exempt && !a[0].system ensures a[0].time <= x.time {
          MergeMembers(a[1..], b, x);
        }
        OrderedCons(a[0], StableMerge(a[1..], b), exempt);
      }
    }
  }

  // ----- which messages are filled in

  lemma {:induction false} MissingCount(present: set<string>, batch: seq<Message>, m: Message)
    ensures multiset(Missing(present, batch))[m] == if m.id in present then 0 else multiset(batch)[m]
  {
    if batch != [] {
      MissingCount(present, batch[1..], m);
      HeadCounts(batch);
    }
  }

  /**
    A fill adds the messages of the batch that have no id, and those whose id no non-system
    message of the snapshot carries; nothing else comes in, and nothing gets lost.
   */
  lemma FillsExactly(limit: nat, log: seq<Message>, batch: seq<Message>, appended: seq<Message>, m: Message)
    ensures var wanted := m.id == "" || forall x :: x in Window(limit, log) && !x.system ==> x.id != m.id;
            multiset(FilledLog(limit, log, batch, appended))[m] ==
            multiset(log)[m] + multiset(appended)[m] + if wanted then multiset(batch)[m] else 0
  {
    hide StableMerge, Missing;
    var w := Window(limit, log);
    WindowSize(limit, log);
    MergeElements(w, Missing(PresentIds(w), batch));
    MissingCount(PresentIds(w), batch, m);
    assert multiset(log) == multiset(log[..Evicted(limit, log)]) + multiset(w);
  }

  // ----- filling twice

  lemma {:induction false} MissingNone(present: set<string>, batch: seq<Message>)
    requires forall m :: m in batch ==> m.id in present
    ensures Missing(present, batch) == []
  {
    if batch != [] {
      MissingNone(present, batch[1..]);
    }
  }

  lemma {:induction false} MissingOrPresent(present: set<string>, batch: seq<Message>, m: Message)
    requires m in batch
    ensures m.id in present || m in Missing(present, batch)
  {
    if m != batch[0] {
      MissingOrPresent(present, batch[1..], m);
    }
  }

  /**
    A batch of messages that all carry ids and are not system messages, and that fits,
    is filled in once: filling it again changes nothing and signals nothing.
   */
  lemma RefillIsNoop(limit: nat, log: seq<Message>, batch: seq<Message>, appended: seq<Message>)
    requires forall m :: m in batch ==> m.id != "" && !m.system
    requires Evicted(limit, FilledLog(limit, log, batch, appended)) == Evicted(limit, log)
    ensures var filled := FilledLog(limit, log, batch, appended);
            && Missing(PresentIds(Window(limit, filled)), batch) == []
            && FilledLog(limit, filled, batch, []) == filled
  {
    var w, filled := Window(limit, log), FilledLog(limit, log, batch, appended);
    var merged := StableMerge(w, Missing(PresentIds(w), batch));
    assert Window(limit, filled) == merged + appended;
    forall m | m in batch ensures m.id in PresentIds(Window(limit, filled)) {
      MissingOrPresent(PresentIds(w), batch, m);
      var x: Message := if m.id in PresentIds(w) then (var y :| y in w && !y.system && y.id != "" && y.id == m.id; y) else m;
      MergeMembers(w, Missing(PresentIds(w), batch), x);
      assert x in merged + appended;
    }
    MissingNone(PresentIds(Window(limit, filled)), batch);
    WindowSize(limit, filled);
  }
}
