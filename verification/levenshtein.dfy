/**
 * The Levenshtein distance as a mathematical definition, and what it means.
 *
 * `Lev(s, t)` is the recurrence the dynamic-programming table of
 * `TextAlgos.LevenshteinDistance` fills in: on the prefixes `s[..i]` and
 * `t[..j]` it is exactly the cell `d[i, j]`. The lemmas below show that it is
 * a metric (zero exactly on equal strings, symmetric, triangle inequality),
 * that it is bounded by the lengths, and that it is the least number of
 * single-character insertions, deletions and substitutions that turn one
 * string into the other.
 */
module Levenshtein {

  /** A UTF-16 code unit, the element a .NET string is indexed by and counted in. */
  newtype CodeUnit = x: int | 0 <= x < 0x1_0000

  /** A .NET string: a sequence of UTF-16 code units. */
  type Utf16String = seq<CodeUnit>

  /** Substitution cost of the table fill: free for equal characters, 1 otherwise. */
  function Cost(a: CodeUnit, b: CodeUnit): (c: nat) {
    if a == b then 0 else 1
  }

  function Min(a: int, b: int): (m: int) {
    if a <= b then a else b
  }

  function Max(a: int, b: int): (m: int) {
    if a >= b then a else b
  }

  /**
   * Unit-cost edit distance. The distance to an empty string is the other
   * string's length; otherwise it is the cheapest of deleting the last
   * character of `s`, inserting the last character of `t`, or matching the
   * two last characters (free when they are equal).
   */
  ghost function Lev(s: Utf16String, t: Utf16String): (d: nat)
    decreases |s| + |t|
  {
    if |s| == 0 then |t|
    else if |t| == 0 then |s|
    else
      Min(Min(Lev(s[..|s| - 1], t) + 1,                                     // deletion
              Lev(s, t[..|t| - 1]) + 1),                                    // insertion
          Lev(s[..|s| - 1], t[..|t| - 1]) + Cost(s[|s| - 1], t[|t| - 1]))   // substitution
  }

  /** Seeding of the table's first column: s is at distance |s| from the empty string. */
  lemma {:induction false} LevToEmpty(s: Utf16String)
    ensures Lev(s, []) == |s|
  {
  }

  /** Seeding of the table's first row: the empty string is at distance |t| from t. */
  lemma {:induction false} LevFromEmpty(t: Utf16String)
    ensures Lev([], t) == |t|
  {
  }

  /**
   * The recurrence read on prefixes: given the values of the three
   * neighbouring table cells, cell (i, j) is their cheapest continuation.
   */
  lemma {:induction false} LevCellStep(s: Utf16String, t: Utf16String, i: nat, j: nat, del: int, ins: int, sub: int)
    requires 0 < i <= |s| && 0 < j <= |t|
    requires del == Lev(s[..i - 1], t[..j])
    requires ins == Lev(s[..i], t[..j - 1])
    requires sub == Lev(s[..i - 1], t[..j - 1])
    ensures Lev(s[..i], t[..j]) == Min(Min(del + 1, ins + 1), sub + Cost(s[i - 1], t[j - 1]))
  {
    assert s[..i][..i - 1] == s[..i - 1];
    assert t[..j][..j - 1] == t[..j - 1];
  }

  // ---------------------------------------------------------------------
  // One-step bounds read off the recurrence

  lemma {:induction false} LevDeleteLast(s: Utf16String, t: Utf16String)
    requires |s| > 0
    ensures Lev(s, t) <= Lev(s[..|s| - 1], t) + 1
  {
  }

  lemma {:induction false} LevInsertLast(s: Utf16String, t: Utf16String)
    requires |t| > 0
    ensures Lev(s, t) <= Lev(s, t[..|t| - 1]) + 1
  {
  }

  lemma {:induction false} LevMatchLast(s: Utf16String, t: Utf16String)
    requires |s| > 0 && |t| > 0 && s[|s| - 1] == t[|t| - 1]
    ensures Lev(s, t) <= Lev(s[..|s| - 1], t[..|t| - 1])
  {
  }

  /** Distance is at least the difference of the lengths and at most the longer length. */
  lemma {:induction false} LevBounds(s: Utf16String, t: Utf16String)
    ensures |s| - |t| <= Lev(s, t) && |t| - |s| <= Lev(s, t)
    ensures Lev(s, t) <= Max(|s|, |t|)
    decreases |s| + |t|
  {
    if |s| > 0 && |t| > 0 {
      var s', t' := s[..|s| - 1], t[..|t| - 1];
      LevBounds(s', t);
      LevBounds(s, t');
      LevBounds(s', t');
    }
  }

  // ---------------------------------------------------------------------
  // Metric properties

  /** A string is at distance 0 from itself. */
  lemma {:induction false} LevSelf(s: Utf16String)
    ensures Lev(s, s) == 0
    decreases |s|
  {
    if |s| > 0 {
      LevSelf(s[..|s| - 1]);
    }
  }

  /** "distance = 0 : perfect match", in both directions. */
  lemma {:induction false} LevZeroIff(s: Utf16String, t: Utf16String)
    ensures Lev(s, t) == 0 <==> s == t
    decreases |s| + |t|
  {
    if s == t {
      LevSelf(s);
    } else if |s| > 0 && |t| > 0 {
      // Deletion and insertion cost at least 1; a substitution is free only
      // when the prefixes are at distance 0 (so equal) and the last characters
      // are equal, which would make s == t.
      var s', t' := s[..|s| - 1], t[..|t| - 1];
      LevZeroIff(s', t');
      assert s == s' + [s[|s| - 1]];
      assert t == t' + [t[|t| - 1]];
    }
  }

  /** The distance does not depend on the order of its arguments. */
  lemma {:induction false} LevSymmetric(s: Utf16String, t: Utf16String)
    ensures Lev(s, t) == Lev(t, s)
    decreases |s| + |t|
  {
    if |s| > 0 && |t| > 0 {
      var s', t' := s[..|s| - 1], t[..|t| - 1];
      LevSymmetric(s', t);
      LevSymmetric(s, t');
      LevSymmetric(s', t');
    }
  }

  /** The triangle inequality. */
  lemma {:induction false} LevTriangle(s: Utf16String, t: Utf16String, u: Utf16String)
    ensures Lev(s, u) <= Lev(s, t) + Lev(t, u)
    decreases |s| + |t| + |u|
  {
    if |s| == 0 || |t| == 0 || |u| == 0 {
      LevBounds(s, t);
      LevBounds(t, u);
      LevBounds(s, u);
    } else {
      var s', t', u' := s[..|s| - 1], t[..|t| - 1], u[..|u| - 1];
      if Lev(s, t) == Lev(s', t) + 1 {
        // s loses its last character first.
        LevTriangle(s', t, u);
        LevDeleteLast(s, u);
      } else if Lev(t, u) == Lev(t, u') + 1 {
        // u's last character is inserted last.
        LevTriangle(s, t, u');
        LevInsertLast(s, u);
      } else if Lev(s, t) == Lev(s, t') + 1 {
        // t's last character is inserted into s and then consumed towards u.
        LevTriangle(s, t', u);
        LevInsertLast(t', u);
      } else if Lev(t, u) == Lev(t', u) + 1 {
        // s and t match last characters; t's last character is then deleted.
        LevTriangle(s, t', u);
        LevDeleteLast(s, t');
      } else {
        // Both steps match last characters.
        assert Lev(s, t) == Lev(s', t') + Cost(s[|s| - 1], t[|t| - 1]);
        assert Lev(t, u) == Lev(t', u') + Cost(t[|t| - 1], u[|u| - 1]);
        LevTriangle(s', t', u');
      }
    }
  }

  // ---------------------------------------------------------------------
  // Reference semantics: edit scripts

  /** A single-character edit at a position of the current string. */
  datatype Edit =
    | Insert(pos: nat, ch: CodeUnit)
    | Delete(pos: nat)
    | Substitute(pos: nat, ch: CodeUnit)

  predicate Applicable(e: Edit, s: Utf16String) {
    match e
    case Insert(p, _) => p <= |s|
    case Delete(p) => p < |s|
    case Substitute(p, _) => p < |s|
  }

  function Apply(e: Edit, s: Utf16String): (r: Utf16String)
    requires Applicable(e, s)
  {
    match e
    case Insert(p, c) => s[..p] + [c] + s[p..]
    case Delete(p) => s[..p] + s[p + 1..]
    case Substitute(p, c) => s[..p] + [c] + s[p + 1..]
  }

  /** Applying the edits `es` in order, each where it applies, turns `s` into `t`. */
  ghost predicate Transforms(es: seq<Edit>, s: Utf16String, t: Utf16String)
    decreases |es|
  {
    if es == [] then s == t
    else Applicable(es[0], s) && Transforms(es[1..], Apply(es[0], s), t)
  }

  lemma {:induction false} TransformsConcat(a: seq<Edit>, b: seq<Edit>, s: Utf16String, t: Utf16String, u: Utf16String)
    requires Transforms(a, s, t) && Transforms(b, t, u)
    ensures Transforms(a + b, s, u)
    decreases |a|
  {
    if a == [] {
      assert a + b == b;
    } else {
      TransformsConcat(a[1..], b, Apply(a[0], s), t, u);
      assert (a + b)[1..] == a[1..] + b;
    }
  }

  lemma {:induction false} ApplyAppend(e: Edit, s: Utf16String, c: CodeUnit)
    requires Applicable(e, s)
    ensures Applicable(e, s + [c]) && Apply(e, s + [c]) == Apply(e, s) + [c]
  {
    match e
    case Insert(p, _) =>
      assert (s + [c])[..p] == s[..p] && (s + [c])[p..] == s[p..] + [c];
    case Delete(p) =>
      assert (s + [c])[..p] == s[..p] && (s + [c])[p + 1..] == s[p + 1..] + [c];
    case Substitute(p, _) =>
      assert (s + [c])[..p] == s[..p] && (s + [c])[p + 1..] == s[p + 1..] + [c];
  }

  /** Edits that never touch the end of a string work the same with a character appended. */
  lemma {:induction false} TransformsAppend(es: seq<Edit>, s: Utf16String, t: Utf16String, c: CodeUnit)
    requires Transforms(es, s, t)
    ensures Transforms(es, s + [c], t + [c])
    decreases |es|
  {
    if es != [] {
      ApplyAppend(es[0], s, c);
      TransformsAppend(es[1..], Apply(es[0], s), t, c);
    }
  }

  /** Distance 0 on a common suffix is free: Lev(x + z, y + z) <= Lev(x, y). */
  lemma {:induction false} LevCommonSuffix(x: Utf16String, y: Utf16String, z: Utf16String)
    ensures Lev(x + z, y + z) <= Lev(x, y)
    decreases |z|
  {
    if z == [] {
      assert x + z == x && y + z == y;
    } else {
      var z' := z[..|z| - 1];
      LevCommonSuffix(x, y, z');
      var X, Y := x + z, y + z;
      assert X[..|X| - 1] == x + z';
      assert Y[..|Y| - 1] == y + z';
      LevMatchLast(X, Y);
    }
  }

  /** Inserting one character costs at most 1. */
  lemma {:induction false} SingleInsert(pre: Utf16String, c: CodeUnit, suf: Utf16String)
    ensures Lev(pre + suf, pre + [c] + suf) <= 1
  {
    LevSelf(pre);
    var Y := pre + [c];
    assert Y[..|Y| - 1] == pre;
    LevInsertLast(pre, Y);
    LevCommonSuffix(pre, Y, suf);
  }

  /** Deleting one character costs at most 1. */
  lemma {:induction false} SingleDelete(pre: Utf16String, c: CodeUnit, suf: Utf16String)
    ensures Lev(pre + [c] + suf, pre + suf) <= 1
  {
    LevSelf(pre);
    var X := pre + [c];
    assert X[..|X| - 1] == pre;
    LevDeleteLast(X, pre);
    LevCommonSuffix(X, pre, suf);
  }

  /** Substituting one character costs at most 1. */
  lemma {:induction false} SingleSubstitute(pre: Utf16String, a: CodeUnit, c: CodeUnit, suf: Utf16String)
    ensures Lev(pre + [a] + suf, pre + [c] + suf) <= 1
  {
    LevSelf(pre);
    var X, Y := pre + [a], pre + [c];
    assert X[..|X| - 1] == pre;
    assert Y[..|Y| - 1] == pre;
    assert Lev(X, Y) <= Lev(pre, pre) + Cost(a, c);
    LevCommonSuffix(X, Y, suf);
  }

  /** One edit moves a string by distance at most 1. */
  lemma {:induction false} SingleEdit(e: Edit, s: Utf16String)
    requires Applicable(e, s)
    ensures Lev(s, Apply(e, s)) <= 1
  {
    match e
    case Insert(p, c) =>
      assert s == s[..p] + s[p..];
      SingleInsert(s[..p], c, s[p..]);
    case Delete(p) =>
      assert s == s[..p] + [s[p]] + s[p + 1..];
      SingleDelete(s[..p], s[p], s[p + 1..]);
    case Substitute(p, c) =>
      assert s == s[..p] + [s[p]] + s[p + 1..];
      SingleSubstitute(s[..p], s[p], c, s[p + 1..]);
  }

  /** No edit script is shorter than the distance. */
  lemma {:induction false} LevLowerBound(es: seq<Edit>, s: Utf16String, t: Utf16String)
    requires Transforms(es, s, t)
    ensures Lev(s, t) <= |es|
    decreases |es|
  {
    if es == [] {
      LevSelf(s);
    } else {
      var s1 := Apply(es[0], s);
      LevLowerBound(es[1..], s1, t);
      SingleEdit(es[0], s);
      LevTriangle(s, s1, t);
    }
  }

  /** An edit script that follows the recurrence's cheapest choice at every step. */
  ghost function Script(s: Utf16String, t: Utf16String): (es: seq<Edit>)
    decreases |s| + |t|
  {
    if |t| > 0 && (|s| == 0 || Lev(s, t) == Lev(s, t[..|t| - 1]) + 1) then
      Script(s, t[..|t| - 1]) + [Insert(|t| - 1, t[|t| - 1])]
    else if |s| > 0 && (|t| == 0 || Lev(s, t) == Lev(s[..|s| - 1], t) + 1) then
      [Delete(|s| - 1)] + Script(s[..|s| - 1], t)
    else if |s| > 0 && s[|s| - 1] == t[|t| - 1] then
      Script(s[..|s| - 1], t[..|t| - 1])
    else if |s| > 0 then
      Script(s[..|s| - 1], t[..|t| - 1]) + [Substitute(|t| - 1, t[|t| - 1])]
    else
      []
  }

  /** The distance is attained: Script(s, t) turns s into t in exactly Lev(s, t) edits. */
  lemma {:induction false} ScriptAttainsLev(s: Utf16String, t: Utf16String)
    ensures Transforms(Script(s, t), s, t)
    ensures |Script(s, t)| == Lev(s, t)
    decreases |s| + |t|
  {
    if |t| > 0 && (|s| == 0 || Lev(s, t) == Lev(s, t[..|t| - 1]) + 1) {
      var t' := t[..|t| - 1];
      ScriptAttainsLev(s, t');
      InsertLastStep(Script(s, t'), s, t);
    } else if |s| > 0 && (|t| == 0 || Lev(s, t) == Lev(s[..|s| - 1], t) + 1) {
      var s' := s[..|s| - 1];
      ScriptAttainsLev(s', t);
      DeleteLastStep(Script(s', t), s, t);
    } else if |s| > 0 && s[|s| - 1] == t[|t| - 1] {
      var s', t' := s[..|s| - 1], t[..|t| - 1];
      ScriptAttainsLev(s', t');
      MatchLastStep(Script(s', t'), s, t);
    } else if |s| > 0 {
      var s', t' := s[..|s| - 1], t[..|t| - 1];
      ScriptAttainsLev(s', t');
      SubstituteLastStep(Script(s', t'), s, t);
    }
  }

  lemma {:induction false} InsertLastStep(es: seq<Edit>, s: Utf16String, t: Utf16String)
    requires |t| > 0 && Transforms(es, s, t[..|t| - 1])
    ensures Transforms(es + [Insert(|t| - 1, t[|t| - 1])], s, t)
  {
    var t' := t[..|t| - 1];
    var ins := Insert(|t'|, t[|t| - 1]);
    assert Apply(ins, t') == t;
    assert Transforms([ins], t', t);
    TransformsConcat(es, [ins], s, t', t);
  }

  lemma {:induction false} DeleteLastStep(es: seq<Edit>, s: Utf16String, t: Utf16String)
    requires |s| > 0 && Transforms(es, s[..|s| - 1], t)
    ensures Transforms([Delete(|s| - 1)] + es, s, t)
  {
    var s' := s[..|s| - 1];
    assert Apply(Delete(|s'|), s) == s';
    assert Transforms([Delete(|s'|)], s, s');
    TransformsConcat([Delete(|s'|)], es, s, s', t);
  }

  lemma {:induction false} MatchLastStep(es: seq<Edit>, s: Utf16String, t: Utf16String)
    requires |s| > 0 && |t| > 0 && s[|s| - 1] == t[|t| - 1]
    requires Transforms(es, s[..|s| - 1], t[..|t| - 1])
    ensures Transforms(es, s, t)
  {
    var s', t' := s[..|s| - 1], t[..|t| - 1];
    var a := s[|s| - 1];
    assert s' + [a] == s;
    assert t' + [a] == t;
    TransformsAppend(es, s', t', a);
  }

  lemma {:induction false} SubstituteLastStep(es: seq<Edit>, s: Utf16String, t: Utf16String)
    requires |s| > 0 && |t| > 0 && Transforms(es, s[..|s| - 1], t[..|t| - 1])
    ensures Transforms(es + [Substitute(|t| - 1, t[|t| - 1])], s, t)
  {
    var s', t' := s[..|s| - 1], t[..|t| - 1];
    var a := s[|s| - 1];
    assert s' + [a] == s;
    TransformsAppend(es, s', t', a);
    SubstituteLast(t' + [a], t);
    TransformsConcat(es, [Substitute(|t'|, t[|t| - 1])], s, t' + [a], t);
  }

  lemma {:induction false} SubstituteLast(u: Utf16String, t: Utf16String)
    requires |u| == |t| > 0 && u[..|u| - 1] == t[..|t| - 1]
    ensures Transforms([Substitute(|t| - 1, t[|t| - 1])], u, t)
  {
    var sub := Substitute(|t| - 1, t[|t| - 1]);
    assert Apply(sub, u) == t;
    assert [sub][1..] == [];
  }
}
