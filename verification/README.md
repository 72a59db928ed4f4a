# TextAlgos: verified model of the Levenshtein distance and the key/value swap test

This project models the two text algorithms of the `AlgoLibrary.TextAlgos`
class.

- `LevenshteinDistance(s, t)` computes the unit-cost edit distance with a
  dynamic-programming table. The table is `(|s|+1) x (|t|+1)`. Its first
  column and first row are seeded with their index. It is then filled column
  by column: the outer loop runs over `j`, the inner loop over `i`. Each cell
  takes the cheapest of deletion, insertion and substitution, and
  substitution is free on equal characters. The result is the last cell.
- `KV_IsSwapped(kv, kv2)` compares two key/value pairs of strings. It reports
  `true` when crossing them (key with value, value with key) gives a strictly
  smaller sum of distances than pairing them straight.

Files:

- `levenshtein.dfy`, module `Levenshtein`, holds the mathematical side:
  - `Utf16String`, a .NET string as a sequence of UTF-16 code units;
  - `Lev(s, t)`, the recurrence the table fills in, recursing on the last
    characters so that table cell `d[i, j]` is `Lev(s[..i], t[..j])`;
  - lemmas showing `Lev` is bounded by the lengths and is a metric (zero
    exactly on equal strings, symmetric, triangle inequality);
  - an independent reference semantics, edit scripts of positional
    `Insert`/`Delete`/`Substitute` steps, and proofs that `Lev(s, t)` is
    exactly the length of the shortest script turning `s` into `t`.
- `text_algos.dfy`, module `TextAlgos`, holds the class's operations:
  - `LevenshteinDistance`, imperative over an `array2<int>`, proved equal to
    `Lev`;
  - `KvIsSwapped`, which calls it four times and is proved equal to the
    predicate `IsSwapped`;
  - lemmas about `IsSwapped`.

## Model

| member | source | states |
|---|---|---|
| `TextAlgos.LevenshteinDistance` | AlgoLibrary/TextAlgos.cs:11-39 | the returned last cell of the filled table equals `Lev(s, t)`, and it is 0 exactly when `s == t` ("distance = 0 : perfect match") |
| `TextAlgos.FillColumn` | AlgoLibrary/TextAlgos.cs:25-35 | one pass of the inner loop: given column `j - 1` holding `Lev(s[..i'], t[..j - 1])` and the seeded `d[0, j] == j`, afterwards every cell `d[i', j]` of column `j` holds `Lev(s[..i'], t[..j])` and every other column is unchanged; the outer loop's invariant keeps every cell of the finished columns equal to `Lev` on prefixes |
| `Levenshtein.LevCellStep` | AlgoLibrary/TextAlgos.cs:29-34 | the distance on prefixes of lengths `i`, `j` is the minimum of the deletion neighbour + 1, the insertion neighbour + 1, and the substitution neighbour + cost, with cost 0 exactly when `s[i - 1] == t[j - 1]` |
| `Levenshtein.LevToEmpty` | AlgoLibrary/TextAlgos.cs:15-18 | the seed of column 0: a string is at distance equal to its length from the empty string |
| `Levenshtein.LevFromEmpty` | AlgoLibrary/TextAlgos.cs:20-23 | the seed of row 0: the empty string is at distance equal to its length from a string |
| `Levenshtein.LevBounds` | AlgoLibrary/TextAlgos.cs:31-34 | the distance is at least the difference of the two lengths and at most the longer length |
| `Levenshtein.LevSelf` | AlgoLibrary/TextAlgos.cs:7 | a string is at distance 0 from itself |
| `Levenshtein.LevZeroIff` | AlgoLibrary/TextAlgos.cs:6-7 | the distance is 0 if and only if the strings are equal |
| `Levenshtein.LevSymmetric` | AlgoLibrary/TextAlgos.cs:5-9 | `Lev(s, t) == Lev(t, s)` |
| `Levenshtein.LevTriangle` | AlgoLibrary/TextAlgos.cs:5-9 | triangle inequality: `Lev(s, u) <= Lev(s, t) + Lev(t, u)` |
| `Levenshtein.SingleEdit` | AlgoLibrary/TextAlgos.cs:8 | one insertion, deletion or substitution, at any position, changes a string by distance at most 1 |
| `Levenshtein.LevLowerBound` | AlgoLibrary/TextAlgos.cs:8 | every sequence of insertions, deletions and substitutions turning `s` into `t` has at least `Lev(s, t)` steps |
| `Levenshtein.ScriptAttainsLev` | AlgoLibrary/TextAlgos.cs:8 | some such sequence, `Script(s, t)`, turns `s` into `t` in exactly `Lev(s, t)` steps, so `Lev` is the minimum edit count |
| `TextAlgos.KvIsSwapped` | AlgoLibrary/TextAlgos.cs:48-68 | the result is `true` exactly when `dist(K1, V2) + dist(V1, K2) < dist(K1, K2) + dist(V1, V2)` (`IsSwapped`); equal sums give `false` |
| `TextAlgos.IdenticalPairsNotSwapped` | AlgoLibrary/TextAlgos.cs:50-67 | a pair compared with itself is never swapped |
| `TextAlgos.MirroredPairSwapped` | AlgoLibrary/TextAlgos.cs:41-67 | `(a, b)` compared with its mirror `(b, a)` is swapped if and only if `a != b` |
| `TextAlgos.IsSwappedSymmetric` | AlgoLibrary/TextAlgos.cs:48-67 | the verdict does not depend on which pair comes first |

## Left out

- The `Console.WriteLine` diagnostics of `KV_IsSwapped` (AlgoLibrary/TextAlgos.cs:59-65) are output only and do not affect the result, so they are not modelled.
- 32-bit `int` arithmetic: the distance is bounded by the longer length, so the cell values and the two sums cannot overflow at realistic lengths. The model uses unbounded integers.
- `TextAlgos.FillColumn`: the inner loop of the table fill is a method of its own rather than inlined in `LevenshteinDistance`. The order of the cell updates is the same, column by column and top to bottom.
- Only the two operations of TextAlgos.cs are modelled. The toolkit's date resolver, normaliser, best-match helper and team-name normalisers are outside this model.
- `KeyValuePair<string, string>` is modelled as the datatype `KeyValue`.
- A .NET `string` is modelled as `Utf16String`, a sequence of 16-bit UTF-16 code units (`CodeUnit`), because `s.Length` and `s[i - 1]` count and index code units. Text is not decoded: a character outside the Basic Multilingual Plane, such as U+1F600, is two code units, so its distance from the empty string is 2. Turning text into code units is not part of the model. Character comparison is equality of code units.
- Null arguments are not modelled. In C#, a null `s` or `t`, or a `KeyValuePair` with a null key or value, throws `NullReferenceException` at `s.Length` or `t.Length`. The model's strings always exist.
