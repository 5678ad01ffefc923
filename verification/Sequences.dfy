/** Facts about sequences shared by the models. */
module Sequences {

  /** No element occurs twice. */
  ghost predicate Distinct<T>(s: seq<T>) {
    forall i, j :: 0 <= i < j < |s| ==> s[i] != s[j]
  }

  /** The position of the first occurrence of `x`, or `|s|` when there is none. */
  function IndexOf<T(==)>(s: seq<T>, x: T): (i: nat)
    ensures i <= |s|
    ensures i < |s| ==> s[i] == x
    ensures x !in s[..i]
    ensures i == |s| <==> x !in s
  {
    if s == [] then 0 else if s[0] == x then 0 else 1 + IndexOf(s[1..], x)
  }

  /** Opens a gap at position `i` and puts `x` there. */
  function InsertAt<T>(s: seq<T>, i: nat, x: T): (r: seq<T>)
    requires i <= |s|
  {
    s[..i] + [x] + s[i..]
  }

  lemma InsertedIs<T>(s: seq<T>, i: nat, x: T, r: seq<T>)
    requires i <= |s| && |r| == |s| + 1 && r[i] == x
    requires forall k :: 0 <= k < |r| && k != i ==> r[k] == s[if k < i then k else k - 1]
    ensures r == InsertAt(s, i, x)
  {
  }

  /** Inserting at two places gives the same just when only copies of `x` lie between them. */
  lemma {:induction false} InsertSame<T>(s: seq<T>, i: nat, j: nat, x: T)
    requires i <= j <= |s|
    ensures InsertAt(s, i, x) == InsertAt(s, j, x) <==> forall k :: i <= k < j ==> s[k] == x
    decreases j - i
  {
    if i < j {
      InsertSame(s, i + 1, j, x);
      if s[i] == x {
        InsertNext(s, i, x);
      } else {
        assert InsertAt(s, i, x)[i] == x && InsertAt(s, j, x)[i] == s[i];
      }
    }
  }

  lemma InsertNext<T>(s: seq<T>, i: nat, x: T)
    requires i < |s| && s[i] == x
    ensures InsertAt(s, i, x) == InsertAt(s, i + 1, x)
  {
  }

  lemma IndexOfUnique<T>(s: seq<T>, x: T, i: nat)
    requires i < |s| && s[i] == x && x !in s[..i]
    ensures IndexOf(s, x) == i
  {
  }

  lemma IndexOfDistinct<T>(s: seq<T>, i: nat)
    requires Distinct(s) && i < |s|
    ensures IndexOf(s, s[i]) == i
  {
  }

  lemma HeadCounts<T>(s: seq<T>)
    requires s != []
    ensures multiset(s) == multiset{s[0]} + multiset(s[1..])
  {
    assert s == [s[0]] + s[1..];
  }

  lemma DistinctHead<T>(s: seq<T>)
    requires s != []
    ensures Distinct(s) <==> s[0] !in s[1..] && Distinct(s[1..])
  {
    if s[0] !in s[1..] && Distinct(s[1..]) {
      forall i, j | 0 <= i < j < |s| ensures s[i] != s[j] {
        assert s[j] == s[1..][j - 1];
        assert i > 0 ==> s[i] == s[1..][i - 1];
      }
    }
  }

  /** Distinctness seen through the multiset of elements. */
  lemma {:induction false} DistinctCounts<T>(s: seq<T>)
    ensures Distinct(s) <==> forall x :: x in multiset(s) ==> multiset(s)[x] == 1
  {
    if s != [] {
      hide Distinct;
      DistinctCounts(s[1..]);
      DistinctHead(s);
      HeadCounts(s);
      if s[0] !in s[1..] {
        assert forall x :: x in multiset(s) ==> multiset(s)[x] == if x == s[0] then 1 else multiset(s[1..])[x];
        assert forall x :: x in multiset(s[1..]) ==> multiset(s[1..])[x] == multiset(s)[x];
      } else {
        assert multiset(s)[s[0]] >= 2;
      }
    }
  }

  /** Part of a distinct sequence, in any order, is distinct. */
  lemma SubDistinct<T>(s: seq<T>, t: seq<T>)
    requires Distinct(t) && multiset(s) <= multiset(t)
    ensures Distinct(s)
  {
    DistinctCounts(s);
    DistinctCounts(t);
  }

  /** All groups, one after the other. */
  function Flatten<T>(groups: seq<seq<T>>): seq<T> {
    if groups == [] then [] else groups[0] + Flatten(groups[1..])
  }

  lemma FlattenCons<T>(g: seq<T>, groups: seq<seq<T>>)
    ensures Flatten([g] + groups) == g + Flatten(groups)
  {
    assert ([g] + groups)[1..] == groups;
  }

  lemma {:induction false} FlattenSnoc<T>(groups: seq<seq<T>>, g: seq<T>)
    ensures Flatten(groups + [g]) == Flatten(groups) + g
  {
    if groups == [] {
      assert groups + [g] == [g];
    } else {
      FlattenSnoc(groups[1..], g);
      assert (groups + [g])[1..] == groups[1..] + [g];
    }
  }

  lemma {:induction false} FlattenSplit<T>(groups: seq<seq<T>>, k: nat)
    requires k <= |groups|
    ensures Flatten(groups) == Flatten(groups[..k]) + Flatten(groups[k..])
  {
    if k != 0 {
      FlattenSplit(groups[1..], k - 1);
      assert groups[..k][1..] == groups[1..][..k - 1];
    }
  }
}
