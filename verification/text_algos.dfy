/**
 * The two operations of the `TextAlgos` class: the dynamic-programming
 * Levenshtein distance and the key/value swap test built on it.
 */
module TextAlgos {
  import opened Levenshtein

  /**
   * Fills an (|s|+1) x (|t|+1) table column by column, cell (i, j) holding
   * the distance between the first i characters of s and the first j
   * characters of t, and returns the last cell.
   */
  method LevenshteinDistance(s: Utf16String, t: Utf16String) returns (dist: int)
    ensures dist == Lev(s, t)
    ensures dist == 0 <==> s == t
  {
    var d := new int[|s| + 1, |t| + 1];

    for i := 0 to |s| + 1
      invariant forall i' :: 0 <= i' < i ==> d[i', 0] == i'
    {
      d[i, 0] := i;
    }

    for j := 0 to |t| + 1
      invariant forall i' :: 0 <= i' <= |s| ==> d[i', 0] == i'
      invariant forall j' :: 0 <= j' < j ==> d[0, j'] == j'
    {
      d[0, j] := j;
    }

    // Column 0 holds Lev(s[..i'], []) and row 0 holds Lev([], t[..j']).
    for j := 1 to |t| + 1
      invariant forall i', j' {:trigger d[i', j']} :: 0 <= i' <= |s| && 0 <= j' < j ==> d[i', j'] == Lev(s[..i'], t[..j'])
      invariant forall j' :: j <= j' <= |t| ==> d[0, j'] == j'
    {
      FillColumn(d, s, t, j);
    }

    assert s[..|s|] == s && t[..|t|] == t;
    dist := d[|s|, |t|];
    LevZeroIff(s, t);
  }

  /**
   * The inner loop of the table fill: computes column j from column j - 1
   * and the seeded cell d[0, j], top to bottom, leaving every other column
   * as it was.
   */
  method FillColumn(d: array2<int>, s: Utf16String, t: Utf16String, j: nat)
    requires d.Length0 == |s| + 1 && d.Length1 == |t| + 1 && 0 < j <= |t|
    requires forall i' :: 0 <= i' <= |s| ==> d[i', j - 1] == Lev(s[..i'], t[..j - 1])
    requires d[0, j] == j
    modifies d
    ensures forall i' :: 0 <= i' <= |s| ==> d[i', j] == Lev(s[..i'], t[..j])
    ensures forall i', j' :: 0 <= i' <= |s| && 0 <= j' <= |t| && j' != j ==> d[i', j'] == old(d[i', j'])
  {
    LevFromEmpty(t[..j]);
    assert s[..0] == [];
    for i := 1 to |s| + 1
      invariant forall i' {:trigger d[i', j]} :: 0 <= i' < i ==> d[i', j] == Lev(s[..i'], t[..j])
      invariant forall i', j' :: 0 <= i' <= |s| && 0 <= j' <= |t| && j' != j ==> d[i', j'] == old(d[i', j'])
    {
      var cost := if s[i - 1] == t[j - 1] then 0 else 1;
      LevCellStep(s, t, i, j, d[i - 1, j], d[i, j - 1], d[i - 1, j - 1]);
      d[i, j] := Min(Min(
        d[i - 1, j] + 1,          // deletion
        d[i, j - 1] + 1),         // insertion
        d[i - 1, j - 1] + cost);  // substitution
    }
  }

  /** A key/value pair of strings. */
  datatype KeyValue = KeyValue(key: Utf16String, value: Utf16String)

  /**
   * The pairs match better crossed (key with value, value with key) than
   * straight: the crossed distances sum to strictly less. A tie is not a swap.
   */
  ghost predicate IsSwapped(kv: KeyValue, kv2: KeyValue) {
    Lev(kv.key, kv2.value) + Lev(kv.value, kv2.key) < Lev(kv.key, kv2.key) + Lev(kv.value, kv2.value)
  }

  /** Computes the four distances with the table method and compares the sums. */
  method KvIsSwapped(kv: KeyValue, kv2: KeyValue) returns (swapped: bool)
    ensures swapped == IsSwapped(kv, kv2)
  {
    var distanceKK := LevenshteinDistance(kv.key, kv2.key);
    var distanceVV := LevenshteinDistance(kv.value, kv2.value);
    var sumStraight := distanceKK + distanceVV;

    var distanceKV := LevenshteinDistance(kv.key, kv2.value);
    var distanceVK := LevenshteinDistance(kv.value, kv2.key);
    var sumSwapped := distanceKV + distanceVK;

    swapped := sumSwapped < sumStraight;
  }

  /** Two identical pairs are never reported as swapped. */
  lemma {:induction false} IdenticalPairsNotSwapped(kv: KeyValue)
    ensures !IsSwapped(kv, kv)
  {
    LevSelf(kv.key);
    LevSelf(kv.value);
  }

  /** A pair compared with its mirror image is swapped exactly when key and value differ. */
  lemma {:induction false} MirroredPairSwapped(a: Utf16String, b: Utf16String)
    ensures IsSwapped(KeyValue(a, b), KeyValue(b, a)) <==> a != b
  {
    LevSelf(a);
    LevSelf(b);
    LevZeroIff(a, b);
    LevZeroIff(b, a);
  }

  /** The decision does not depend on which pair comes first. */
  lemma {:induction false} IsSwappedSymmetric(kv: KeyValue, kv2: KeyValue)
    ensures IsSwapped(kv, kv2) == IsSwapped(kv2, kv)
  {
    LevSymmetric(kv.key, kv2.key);
    LevSymmetric(kv.value, kv2.value);
    LevSymmetric(kv.key, kv2.value);
    LevSymmetric(kv.value, kv2.key);
  }
}
