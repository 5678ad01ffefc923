/** Message similarity: the longest common substring, relative to the longer message. */
module Similarity {

  /** The `n` characters of `a` from `i` on are the `n` characters of `b` from `j` on. */
  ghost predicate Agree(a: string, b: string, i: int, j: int, n: nat) {
    0 <= i && 0 <= j && i + n <= |a| && j + n <= |b| && a[i..i + n] == b[j..j + n]
  }

  /** Some substring of length `n` occurs in both. */
  ghost predicate Common(a: string, b: string, n: nat) {
    exists i, j :: Agree(a, b, i, j, n)
  }

  ghost predicate IsLongest(a: string, b: string, z: nat) {
    Common(a, b, z) && forall n: nat :: z < n ==> !Common(a, b, n)
  }

  // ----- what the table holds

  /** The longest common suffix of `a[..i]` and `b[..j]`. */
  function Suffix(a: string, b: string, i: nat, j: nat): (n: nat)
    requires i <= |a| && j <= |b|
    ensures n <= i && n <= j
  {
    if i == 0 || j == 0 || a[i - 1] != b[j - 1] then 0 else Suffix(a, b, i - 1, j - 1) + 1
  }

  lemma AgreeSnoc(a: string, b: string, i: int, j: int, n: nat)
    requires 0 <= i && 0 <= j && i + n < |a| && j + n < |b|
    ensures Agree(a, b, i, j, n + 1) <==> Agree(a, b, i, j, n) && a[i + n] == b[j + n]
  {
    assert a[i..i + n + 1] == a[i..i + n] + [a[i + n]];
    assert b[j..j + n + 1] == b[j..j + n] + [b[j + n]];
    assert a[i..i + n + 1][..n] == a[i..i + n] && b[j..j + n + 1][..n] == b[j..j + n];
  }

  lemma AgreeEmpty(a: string, b: string, i: nat, j: nat, n: nat)
    requires i <= |a| && j <= |b|
    ensures Agree(a, b, i, j, 0)
    ensures Agree(a, b, i - n, j - n, n) ==> n <= i && n <= j
  {
  }

  /** Both texts agree on that many characters, and on no more. */
  lemma {:induction false} SuffixIsLongest(a: string, b: string, i: nat, j: nat, n: nat)
    requires i <= |a| && j <= |b|
    ensures Agree(a, b, i - Suffix(a, b, i, j), j - Suffix(a, b, i, j), Suffix(a, b, i, j))
    ensures Agree(a, b, i - n, j - n, n) ==> n <= Suffix(a, b, i, j)
  {
    hide Agree;
    AgreeEmpty(a, b, i, j, n);
    if 0 < i && 0 < j {
      SuffixIsLongest(a, b, i - 1, j - 1, if n == 0 then 0 else n - 1);
      var m := Suffix(a, b, i - 1, j - 1);
      AgreeSnoc(a, b, i - 1 - m, j - 1 - m, m);
      if 0 < n <= i && n <= j {
        AgreeSnoc(a, b, i - n, j - n, n - 1);
      }
    }
  }

  function Max(x: nat, y: nat): nat {
    if x < y then y else x
  }

  /** The maximum over the first `j` cells of row `i`. */
  function RowBest(a: string, b: string, i: nat, j: nat): (z: nat)
    requires i <= |a| && j <= |b|
  {
    if j == 0 then 0 else Max(Suffix(a, b, i, j), RowBest(a, b, i, j - 1))
  }

  /** The maximum over the first `i` rows. */
  function TableBest(a: string, b: string, i: nat): (z: nat)
    requires i <= |a|
  {
    if i == 0 then 0 else Max(RowBest(a, b, i, |b|), TableBest(a, b, i - 1))
  }

  function LongestCommonSubstring(a: string, b: string): nat {
    TableBest(a, b, |a|)
  }

  // ----- the loops

  /** The nested loops over the table; `tree[i, j]` belongs to the cell after `i` and `j` characters. */
  method LongestMatch(a: string, b: string) returns (z: nat)
    ensures z == LongestCommonSubstring(a, b)
  {
    var tree := new nat[|a|, |b|]((i, j) => 0);
    z := 0;
    for i := 0 to |a|
      invariant z == TableBest(a, b, i)
      invariant forall k, l :: 0 <= k < i && 0 <= l < |b| ==> tree[k, l] == Suffix(a, b, k + 1, l + 1)
    {
      for j := 0 to |b|
        invariant z == Max(RowBest(a, b, i + 1, j), TableBest(a, b, i))
        invariant forall k, l :: 0 <= k < i && 0 <= l < |b| ==> tree[k, l] == Suffix(a, b, k + 1, l + 1)
        invariant forall l :: 0 <= l < j ==> tree[i, l] == Suffix(a, b, i + 1, l + 1)
      {
        if a[i] == b[j] {
          if i == 0 || j == 0 {
            tree[i, j] := 1;
          } else {
            tree[i, j] := tree[i - 1, j - 1] + 1;
          }
          z := Max(tree[i, j], z);
        } else {
          tree[i, j] := 0;
        }
      }
    }
  }

  method RelativeSimilarity(a: string, b: string) returns (r: real)
    ensures r == Similarity(a, b)
  {
    var z := LongestMatch(a, b);
    if z == 0 {
      return 0.0;
    }
    var div := Max(1, Max(|a|, |b|));
    return z as real / div as real;
  }

  function Similarity(a: string, b: string): real {
    LongestCommonSubstring(a, b) as real / Max(1, Max(|a|, |b|)) as real
  }

  // ----- the maximum of the table is the longest common substring

  lemma {:induction false} RowBestBounds(a: string, b: string, i: nat, j: nat)
    requires i <= |a| && j <= |b|
    ensures forall l :: 0 <= l <= j ==> Suffix(a, b, i, l) <= RowBest(a, b, i, j)
    ensures exists l :: 0 <= l <= j && Suffix(a, b, i, l) == RowBest(a, b, i, j)
  {
    if j != 0 {
      RowBestBounds(a, b, i, j - 1);
    } else {
      assert Suffix(a, b, i, 0) == RowBest(a, b, i, 0);
    }
  }

  lemma {:induction false} TableBestBounds(a: string, b: string, i: nat)
    requires i <= |a|
    ensures forall k, l :: 0 <= k <= i && 0 <= l <= |b| ==> Suffix(a, b, k, l) <= TableBest(a, b, i)
    ensures exists k, l :: 0 <= k <= i && 0 <= l <= |b| && Suffix(a, b, k, l) == TableBest(a, b, i)
  {
    if i != 0 {
      RowBestBounds(a, b, i, |b|);
      TableBestBounds(a, b, i - 1);
    } else {
      assert Suffix(a, b, 0, 0) == TableBest(a, b, 0);
    }
  }

  /** A witness exists and nothing longer does. */
  lemma LongestIsLongest(a: string, b: string)
    ensures IsLongest(a, b, LongestCommonSubstring(a, b))
  {
    var z := LongestCommonSubstring(a, b);
    TableBestBounds(a, b, |a|);
    var k, l :| 0 <= k <= |a| && 0 <= l <= |b| && Suffix(a, b, k, l) == z;
    SuffixIsLongest(a, b, k, l, 0);
    forall n: nat | Common(a, b, n) ensures n <= z {
      var i, j :| Agree(a, b, i, j, n);
      SuffixIsLongest(a, b, i + n, j + n, n);
    }
  }

  // ----- what similarity promises

  /** Similarity times the length of the longer text is the length of the longest common substring, and of nothing else. */
  lemma SimilarityMeans(a: string, b: string, z: nat)
    ensures IsLongest(a, b, z) <==> Similarity(a, b) * (if |a| < |b| then |b| else if a == [] then 1 else |a|) as real == z as real
  {
    hide LongestCommonSubstring, IsLongest;
    LongestIsLongest(a, b);
    LongestUnique(a, b, LongestCommonSubstring(a, b), z);
    RatioTimes(LongestCommonSubstring(a, b) as real, Max(1, Max(|a|, |b|)) as real);
  }

  lemma LongestUnique(a: string, b: string, x: nat, y: nat)
    requires IsLongest(a, b, x)
    ensures IsLongest(a, b, y) <==> x == y
  {
  }

  lemma RatioTimes(x: real, d: real)
    requires 0.0 < d
    ensures x / d * d == x
  {
  }

  lemma CommonSymmetric(a: string, b: string, n: nat)
    ensures Common(a, b, n) ==> Common(b, a, n)
  {
    if Common(a, b, n) {
      var i, j :| Agree(a, b, i, j, n);
      assert Agree(b, a, j, i, n);
    }
  }

  lemma SimilaritySymmetric(a: string, b: string)
    ensures Similarity(a, b) == Similarity(b, a)
  {
    LongestIsLongest(a, b);
    LongestIsLongest(b, a);
    CommonSymmetric(a, b, LongestCommonSubstring(a, b));
    CommonSymmetric(b, a, LongestCommonSubstring(b, a));
  }

  /** Similarity lies between 0 and 1; it is 1 just for equal non-empty texts and 0 just when no character is shared. */
  lemma SimilarityRange(a: string, b: string)
    ensures 0.0 <= Similarity(a, b) <= 1.0
    ensures Similarity(a, b) == 1.0 <==> a == b && a != []
    ensures Similarity(a, b) == 0.0 <==> forall c :: c in a ==> c !in b
  {
    FullMeansEqual(a, b);
    ZeroMeansDisjoint(a, b);
    RatioBounds(LongestCommonSubstring(a, b), Max(1, Max(|a|, |b|)));
  }

  lemma FullMeansEqual(a: string, b: string)
    ensures LongestCommonSubstring(a, b) <= Max(1, Max(|a|, |b|))
    ensures LongestCommonSubstring(a, b) == Max(1, Max(|a|, |b|)) <==> a == b && a != []
  {
    hide LongestCommonSubstring;
    var z := LongestCommonSubstring(a, b);
    LongestIsLongest(a, b);
    var i, j :| Agree(a, b, i, j, z);
    assert a == b ==> Agree(a, b, 0, 0, |a|);
    assert a == b ==> Common(a, b, |a|) && !(z < |a|);
    assert a[0..|a|] == a && b[0..|b|] == b;
  }

  lemma ZeroMeansDisjoint(a: string, b: string)
    ensures LongestCommonSubstring(a, b) == 0 <==> forall c :: c in a ==> c !in b
  {
    hide LongestCommonSubstring;
    var z := LongestCommonSubstring(a, b);
    LongestIsLongest(a, b);
    forall i, j | 0 <= i < |a| && 0 <= j < |b| && a[i] == b[j] ensures Agree(a, b, i, j, 1) {
      assert a[i..i + 1] == b[j..j + 1];
    }
    if z == 0 {
      assert !Common(a, b, 1);
    } else {
      var i, j :| Agree(a, b, i, j, z);
      assert a[i] == a[i..i + z][0] && b[j] == b[j..j + z][0];
      assert a[i] in a && b[j] in b;
    }
  }

  lemma RatioBounds(z: nat, div: nat)
    requires 0 < div && z <= div
    ensures var q := z as real / div as real;
            0.0 <= q <= 1.0 && (q == 1.0 <==> z == div) && (q == 0.0 <==> z == 0)
  {
    Quotient(z as real, div as real);
  }

  lemma Quotient(x: real, d: real)
    requires 0.0 < d && 0.0 <= x <= d
    ensures 0.0 <= x / d <= 1.0
    ensures x / d == 1.0 <==> x == d
    ensures x / d == 0.0 <==> x == 0.0
  {
  }
}
