/** The "similar suggestion" test of the reconciler: two strings are similar
    when both are present and non-empty and, once all whitespace is removed,
    they are equal or one edit apart. The edit distance is the Levenshtein
    distance, computed by a dynamic-programming matrix. */
module Similarity {
  import opened Wrappers
  import opened Text

  function Min3(x: nat, y: nat, z: nat): (m: nat)
    ensures m <= x && m <= y && m <= z
    ensures m == x || m == y || m == z
  {
    if x <= y && x <= z then x else if y <= z then y else z
  }

  /** The minimum does not depend on the order of its first two arguments. */
  lemma Min3Swap(x: nat, y: nat, z: nat, x': nat, y': nat, z': nat)
    requires x == x' && y == y' && z == z'
    ensures Min3(x, y, z) == Min3(y', x', z')
  {
  }

  /** Levenshtein distance between the prefixes `a[..i]` and `b[..j]`: the
      recurrence the matrix cell `[i][j]` is filled with. */
  function Dist(a: string, b: string, i: nat, j: nat): nat
    requires i <= |a| && j <= |b|
    decreases i + j
  {
    if i == 0 then j
    else if j == 0 then i
    else Min3(Dist(a, b, i - 1, j) + 1,
              Dist(a, b, i, j - 1) + 1,
              Dist(a, b, i - 1, j - 1) + (if a[i - 1] == b[j - 1] then 0 else 1))
  }

  /** One step of the recurrence, for an inner cell. */
  lemma DistStep(a: string, b: string, i: nat, j: nat)
    requires 0 < i <= |a| && 0 < j <= |b|
    ensures Dist(a, b, i, j) ==
      Min3(Dist(a, b, i - 1, j) + 1, Dist(a, b, i, j - 1) + 1, Dist(a, b, i - 1, j - 1) + (if a[i - 1] == b[j - 1] then 0 else 1))
  {
  }

  /** Levenshtein distance of two whole strings. */
  function Distance(a: string, b: string): nat {
    Dist(a, b, |a|, |b|)
  }

  /** The inductive step of `DistSymmetric`: the recurrence is the same
      with the roles of the two strings exchanged. */
  lemma DistSymmetricStep(a: string, b: string, i: nat, j: nat)
    requires 0 < i <= |a| && 0 < j <= |b|
    requires Dist(a, b, i - 1, j) == Dist(b, a, j, i - 1)
    requires Dist(a, b, i, j - 1) == Dist(b, a, j - 1, i)
    requires Dist(a, b, i - 1, j - 1) == Dist(b, a, j - 1, i - 1)
    ensures Dist(a, b, i, j) == Dist(b, a, j, i)
  {
    DistStep(a, b, i, j);
    DistStep(b, a, j, i);
    Min3Swap(Dist(a, b, i - 1, j) + 1, Dist(a, b, i, j - 1) + 1,
             Dist(a, b, i - 1, j - 1) + (if a[i - 1] == b[j - 1] then 0 else 1),
             Dist(b, a, j, i - 1) + 1, Dist(b, a, j - 1, i) + 1,
             Dist(b, a, j - 1, i - 1) + (if b[j - 1] == a[i - 1] then 0 else 1));
  }

  /** Swapping the two strings does not change the distance. */
  lemma {:induction false} DistSymmetric(a: string, b: string, i: nat, j: nat)
    requires i <= |a| && j <= |b|
    ensures Dist(a, b, i, j) == Dist(b, a, j, i)
    decreases i + j
  {
    if i != 0 && j != 0 {
      DistSymmetric(a, b, i - 1, j);
      DistSymmetric(a, b, i, j - 1);
      DistSymmetric(a, b, i - 1, j - 1);
      DistSymmetricStep(a, b, i, j);
    }
  }

  /** The distance is at least the difference of the lengths. */
  lemma {:induction false} DistLowerBound(a: string, b: string, i: nat, j: nat)
    requires i <= |a| && j <= |b|
    ensures Dist(a, b, i, j) >= i - j && Dist(a, b, i, j) >= j - i
    decreases i + j
  {
    if i != 0 && j != 0 {
      DistLowerBound(a, b, i - 1, j);
      DistLowerBound(a, b, i, j - 1);
      DistLowerBound(a, b, i - 1, j - 1);
      var up, left, diag := Dist(a, b, i - 1, j), Dist(a, b, i, j - 1), Dist(a, b, i - 1, j - 1);
      assert Dist(a, b, i, j) == Min3(up + 1, left + 1, diag + (if a[i - 1] == b[j - 1] then 0 else 1));
    }
  }

  /** The distance is at most the longer length. */
  lemma {:induction false} DistUpperBound(a: string, b: string, i: nat, j: nat)
    requires i <= |a| && j <= |b|
    ensures Dist(a, b, i, j) <= if i < j then j else i
    decreases i + j
  {
    if i != 0 && j != 0 {
      DistUpperBound(a, b, i - 1, j - 1);
      var diag := Dist(a, b, i - 1, j - 1);
      assert Dist(a, b, i, j) <= diag + 1;
    }
  }

  /** The distance is zero exactly when the two prefixes are equal. */
  lemma {:induction false} DistZero(a: string, b: string, i: nat, j: nat)
    requires i <= |a| && j <= |b|
    ensures Dist(a, b, i, j) == 0 <==> i == j && a[..i] == b[..j]
    decreases i + j
  {
    if i != 0 && j != 0 {
      DistZero(a, b, i - 1, j - 1);
      var diag := Dist(a, b, i - 1, j - 1);
      var cost := if a[i - 1] == b[j - 1] then 0 else 1;
      assert Dist(a, b, i, j) == 0 <==> diag + cost == 0;
      assert a[..i] == a[..i - 1] + [a[i - 1]];
      assert b[..j] == b[..j - 1] + [b[j - 1]];
      if i == j && a[..i] == b[..j] {
        assert a[..i - 1] == a[..i][..i - 1];
        assert a[i - 1] == a[..i][i - 1];
      }
    }
  }

  /** Number of positions below `n` where two equally long strings differ. */
  function Mismatches(a: string, b: string, n: nat): nat
    requires n <= |a| && n <= |b|
  {
    if n == 0 then 0
    else Mismatches(a, b, n - 1) + (if a[n - 1] == b[n - 1] then 0 else 1)
  }

  /** Substituting characters costs at most one edit each, so the distance
      of two equally long prefixes is bounded by their mismatch count. */
  lemma {:induction false} DistAtMostMismatches(a: string, b: string, n: nat)
    requires n <= |a| && n <= |b|
    ensures Dist(a, b, n, n) <= Mismatches(a, b, n)
  {
    if n != 0 {
      DistAtMostMismatches(a, b, n - 1);
    }
  }

  /** Whole-string facts: `d(a, a) = 0`, `d(a, "") = |a|`, `d(a, b) = d(b, a)`,
      `||a| - |b|| <= d(a, b) <= max(|a|, |b|)`, `d(a, b) = 0` only for equal
      strings, and equally long strings differing in one position are at
      distance at most one. */
  lemma DistanceProperties(a: string, b: string)
    ensures Distance(a, a) == 0
    ensures Distance(a, []) == |a| && Distance([], a) == |a|
    ensures Distance(a, b) == Distance(b, a)
    ensures |a| - |b| <= Distance(a, b) && |b| - |a| <= Distance(a, b)
    ensures Distance(a, b) <= if |a| < |b| then |b| else |a|
    ensures Distance(a, b) == 0 <==> a == b
    ensures |a| == |b| ==> Distance(a, b) <= Mismatches(a, b, |a|)
  {
    DistZero(a, a, |a|, |a|);
    DistZero(a, b, |a|, |b|);
    DistSymmetric(a, b, |a|, |b|);
    DistLowerBound(a, b, |a|, |b|);
    DistUpperBound(a, b, |a|, |b|);
    assert a[..|a|] == a && b[..|b|] == b;
    if |a| == |b| {
      DistAtMostMismatches(a, b, |a|);
    }
  }

  /** `levenshteinDistance`: fills the `(|a|+1) x (|b|+1)` matrix row by row
      and returns its last cell. */
  method LevenshteinDistance(a: string, b: string) returns (d: nat)
    ensures d == Distance(a, b)
  {
    var matrix := new nat[|a| + 1, |b| + 1];
    for i := 0 to |a| + 1
      invariant forall i' :: 0 <= i' < i ==> matrix[i', 0] == i'
    {
      matrix[i, 0] := i;
    }
    for j := 0 to |b| + 1
      invariant forall i' :: 0 <= i' <= |a| ==> matrix[i', 0] == i'
      invariant forall j' :: 0 <= j' < j ==> matrix[0, j'] == j'
    {
      matrix[0, j] := j;
    }
    for i := 1 to |a| + 1
      invariant forall i', j' {:trigger matrix[i', j']} :: 0 <= i' < i && 0 <= j' <= |b| ==> matrix[i', j'] == Dist(a, b, i', j')
      invariant forall i' :: i <= i' <= |a| ==> matrix[i', 0] == i'
    {
      for j := 1 to |b| + 1
        invariant forall i', j' {:trigger matrix[i', j']} :: 0 <= i' < i && 0 <= j' <= |b| ==> matrix[i', j'] == Dist(a, b, i', j')
        invariant forall i' :: i <= i' <= |a| ==> matrix[i', 0] == i'
        invariant forall j' {:trigger matrix[i, j']} :: 0 <= j' < j ==> matrix[i, j'] == Dist(a, b, i, j')
      {
        var cost := if a[i - 1] == b[j - 1] then 0 else 1;
        var cell := Min3(matrix[i - 1, j] + 1, matrix[i, j - 1] + 1, matrix[i - 1, j - 1] + cost);
        assert cell == Dist(a, b, i, j);
        matrix[i, j] := cell;
      }
    }
    d := matrix[|a|, |b|];
  }

  /** `areStringsSimilar` as a specification: both strings present and
      non-empty, and their whitespace-free forms equal or one edit apart. */
  predicate Similar(a: Option<string>, b: Option<string>) {
    Truthy(a) && Truthy(b) &&
    var x := StripWhitespace(a.value);
    var y := StripWhitespace(b.value);
    x == y || Distance(x, y) <= 1
  }

  /** Similarity is symmetric, false whenever a side is missing or empty,
      and, for present non-empty strings, exactly "whitespace-free forms at
      distance at most one": the equality shortcut never changes the answer. */
  lemma SimilarProperties(a: Option<string>, b: Option<string>)
    ensures Similar(a, b) == Similar(b, a)
    ensures !Truthy(a) || !Truthy(b) ==> !Similar(a, b)
    ensures Truthy(a) && Truthy(b) ==>
      (Similar(a, b) <==> Distance(StripWhitespace(a.value), StripWhitespace(b.value)) <= 1)
  {
    if Truthy(a) && Truthy(b) {
      DistanceProperties(StripWhitespace(a.value), StripWhitespace(b.value));
    }
  }

  /** `areStringsSimilar`: the equality shortcut, then the matrix. */
  method AreStringsSimilar(a: Option<string>, b: Option<string>) returns (similar: bool)
    ensures similar == Similar(a, b)
  {
    if !Truthy(a) || !Truthy(b) {
      return false;
    }
    var aNormalized := StripWhitespace(a.value);
    var bNormalized := StripWhitespace(b.value);
    if aNormalized == bNormalized {
      return true;
    }
    var d := LevenshteinDistance(aNormalized, bNormalized);
    similar := d <= 1;
  }
}
