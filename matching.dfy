/** Deciding whether two module names denote the same module: the
    "communication" F1/A1 rule, substring containment, aliases, and a
    similarity score built on the Levenshtein edit distance. */
module Matching {
  import opened Text

  function Min3(a: nat, b: nat, c: nat): (m: nat)
    ensures m <= a && m <= b && m <= c
    ensures m == a || m == b || m == c
  {
    if a <= b && a <= c then a else if b <= c then b else c
  }

  /** The source's `Math.min(a + 1, b + 1, c + 1)` is one more than the
      minimum. */
  lemma Min3Shift(a: nat, b: nat, c: nat)
    ensures Min3(a + 1, b + 1, c + 1) == 1 + Min3(a, b, c)
  {
  }

  /** The edit distance between t[..i] and s[..j]: the entry matrix[i][j]
      of the source's table, rows running over t and columns over s. Where
      the characters differ it is one more than the least of the three
      neighbouring entries (the source adds the one to each, `Min3Shift`). */
  function Dist(s: string, t: string, i: nat, j: nat): nat
    requires i <= |t| && j <= |s|
    decreases i + j
  {
    if i == 0 then j
    else if j == 0 then i
    else if t[i - 1] == s[j - 1] then Dist(s, t, i - 1, j - 1)
    else 1 + Min3(Dist(s, t, i - 1, j - 1), Dist(s, t, i, j - 1), Dist(s, t, i - 1, j))
  }

  /** `levenshteinDistance(s, t)`. */
  function EditDistance(s: string, t: string): nat
  {
    Dist(s, t, |t|, |s|)
  }

  lemma {:induction false} DistBounds(s: string, t: string, i: nat, j: nat)
    requires i <= |t| && j <= |s|
    ensures Dist(s, t, i, j) <= if i < j then j else i
    ensures Dist(s, t, i, j) >= if i < j then j - i else i - j
    decreases i + j
  {
    if i > 0 && j > 0 {
      DistBounds(s, t, i - 1, j - 1);
      DistBounds(s, t, i, j - 1);
      DistBounds(s, t, i - 1, j);
    }
  }

  /** Distance to the empty string is the length; the distance never
      exceeds the longer length nor falls below the length difference. */
  lemma EditDistanceBounds(s: string, t: string)
    ensures EditDistance(s, "") == |s| && EditDistance("", t) == |t|
    ensures EditDistance(s, t) <= if |s| < |t| then |t| else |s|
    ensures EditDistance(s, t) >= if |s| < |t| then |t| - |s| else |s| - |t|
  {
    DistBounds(s, t, |t|, |s|);
  }

  lemma {:induction false} DistTranspose(s: string, t: string, i: nat, j: nat)
    requires i <= |t| && j <= |s|
    ensures Dist(s, t, i, j) == Dist(t, s, j, i)
    decreases i + j
  {
    if i > 0 && j > 0 {
      DistTranspose(s, t, i - 1, j - 1);
      if t[i - 1] != s[j - 1] {
        DistTranspose(s, t, i, j - 1);
        DistTranspose(s, t, i - 1, j);
      }
    }
  }

  /** The distance does not depend on the order of its arguments. */
  lemma EditDistanceSymmetric(s: string, t: string)
    ensures EditDistance(s, t) == EditDistance(t, s)
  {
    DistTranspose(s, t, |t|, |s|);
  }

  lemma {:induction false} DistDiagonal(s: string, i: nat)
    requires i <= |s|
    ensures Dist(s, s, i, i) == 0
  {
    if i > 0 {
      DistDiagonal(s, i - 1);
    }
  }

  /** A string is at distance 0 from itself. */
  lemma EditDistanceSelf(s: string)
    ensures EditDistance(s, s) == 0
  {
    DistDiagonal(s, |s|);
  }

  /** `levenshteinDistance`: fills the (|str2|+1) x (|str1|+1) matrix row by
      row, as the source does, and returns its last entry. */
  method LevenshteinDistance(str1: string, str2: string) returns (d: nat)
    ensures d == EditDistance(str1, str2)
  {
    var matrix := new nat[|str2| + 1, |str1| + 1];
    FillBorders(matrix, str1, str2);
    for i := 1 to |str2| + 1
      invariant forall r, c {:trigger matrix[r, c]} | 0 <= r < i && 0 <= c <= |str1| :: matrix[r, c] == Dist(str1, str2, r, c)
      invariant forall r | i <= r <= |str2| :: matrix[r, 0] == r
    {
      FillRow(matrix, str1, str2, i);
    }
    d := matrix[|str2|, |str1|];
  }

  /** The first column holds 0 .. |str2| and the first row 0 .. |str1|. */
  method FillBorders(matrix: array2<nat>, str1: string, str2: string)
    requires matrix.Length0 == |str2| + 1 && matrix.Length1 == |str1| + 1
    modifies matrix
    ensures forall r | 0 <= r <= |str2| :: matrix[r, 0] == r
    ensures forall c | 0 <= c <= |str1| :: matrix[0, c] == Dist(str1, str2, 0, c)
  {
    for i := 0 to |str2| + 1
      invariant forall r | 0 <= r < i :: matrix[r, 0] == r
    {
      matrix[i, 0] := i;
    }
    for j := 0 to |str1| + 1
      invariant forall r | 0 <= r <= |str2| :: matrix[r, 0] == r
      invariant forall c | 0 <= c < j :: matrix[0, c] == c
    {
      matrix[0, j] := j;
    }
  }

  /** Row i filled from the row above it and the entry on its left. */
  method FillRow(matrix: array2<nat>, str1: string, str2: string, i: nat)
    requires matrix.Length0 == |str2| + 1 && matrix.Length1 == |str1| + 1
    requires 1 <= i <= |str2| && matrix[i, 0] == i
    requires forall r, c {:trigger matrix[r, c]} | 0 <= r < i && 0 <= c <= |str1| :: matrix[r, c] == Dist(str1, str2, r, c)
    modifies matrix
    ensures forall r, c {:trigger matrix[r, c]} | 0 <= r <= i && 0 <= c <= |str1| :: matrix[r, c] == Dist(str1, str2, r, c)
    ensures forall r, c {:trigger matrix[r, c]} | i < r <= |str2| && 0 <= c <= |str1| :: matrix[r, c] == old(matrix[r, c])
  {
    for j := 1 to |str1| + 1
      invariant forall r, c {:trigger matrix[r, c]} | 0 <= r < i && 0 <= c <= |str1| :: matrix[r, c] == Dist(str1, str2, r, c)
      invariant forall c {:trigger matrix[i, c]} | 0 <= c < j :: matrix[i, c] == Dist(str1, str2, i, c)
      invariant forall r, c {:trigger matrix[r, c]} | i < r <= |str2| && 0 <= c <= |str1| :: matrix[r, c] == old(matrix[r, c])
    {
      var diagonal, left, up := matrix[i - 1, j - 1], matrix[i, j - 1], matrix[i - 1, j];
      if str2[i - 1] == str1[j - 1] {
        matrix[i, j] := diagonal;
      } else {
        Min3Shift(diagonal, left, up);
        matrix[i, j] := Min3(diagonal + 1, left + 1, up + 1);
      }
    }
  }

  /** `calculateSimilarity`: 1 minus the distance relative to the longer
      length; two empty strings are fully similar. */
  function CalculateSimilarity(str1: string, str2: string): (r: real)
    ensures 0.0 <= r <= 1.0
    ensures |str1| == 0 && |str2| == 0 ==> r == 1.0
    ensures str1 == str2 ==> r == 1.0
  {
    var longer := if |str1| > |str2| then str1 else str2;
    var shorter := if |str1| > |str2| then str2 else str1;
    if |longer| == 0 then 1.0
    else
      var d := EditDistance(longer, shorter);
      EditDistanceBounds(longer, shorter);
      EditDistanceSelf(str1);
      RatioInUnit(|longer| - d, |longer|);
      (|longer| - d) as real / |longer| as real
  }

  lemma RatioInUnit(a: nat, l: nat)
    requires a <= l && l > 0
    ensures 0.0 <= a as real / l as real <= 1.0
    ensures a == l ==> a as real / l as real == 1.0
  {
  }

  /** Similarity is (L - d) / L for the longer length L and distance d, in
      either argument order. */
  lemma SimilarityIsRelativeDistance(str1: string, str2: string)
    requires |str1| > 0 || |str2| > 0
    ensures var l := if |str1| > |str2| then |str1| else |str2|;
      CalculateSimilarity(str1, str2) == (l - EditDistance(str1, str2)) as real / l as real
  {
    EditDistanceSymmetric(str1, str2);
  }

  /** Swapping the names does not change the similarity. */
  lemma SimilaritySymmetric(str1: string, str2: string)
    ensures CalculateSimilarity(str1, str2) == CalculateSimilarity(str2, str1)
  {
    if |str1| > 0 || |str2| > 0 {
      SimilarityIsRelativeDistance(str1, str2);
      SimilarityIsRelativeDistance(str2, str1);
      EditDistanceSymmetric(str1, str2);
    }
  }

  /** Names above this similarity count as the same module. */
  const SimilarityThreshold: real := 0.7

  /** True when some alias, lower-cased, occurs in the name or contains it. */
  function AliasMatch(name1: string, aliases: seq<string>): bool
  {
    exists k | 0 <= k < |aliases| ::
      Contains(name1, Lower(aliases[k])) || Contains(Lower(aliases[k]), name1)
  }

  /** Both names mention "communication": the F1/A1 rule decides alone. */
  predicate BothCommunication(name1: string, name2: string)
  {
    Contains(name1, "communication") && Contains(name2, "communication")
  }

  /** The F1/A1 rule: a name tagged F1 never matches one tagged A1; otherwise
      they match when they share a tag, and untagged names never match. */
  predicate CommunicationMatch(name1: string, name2: string)
  {
    var f1, a1 := Contains(name1, "f1"), Contains(name1, "a1");
    var f2, a2 := Contains(name2, "f1"), Contains(name2, "a1");
    if (f1 && a2) || (a1 && f2) then false
    else (f1 && f2) || (a1 && a2)
  }

  /** `isModuleMatch(name1, name2, aliases)` on names the caller has already
      lower-cased. */
  function IsModuleMatch(name1: string, name2: string, aliases: seq<string>): bool
  {
    if BothCommunication(name1, name2) then CommunicationMatch(name1, name2)
    else if Contains(name1, name2) || Contains(name2, name1) then true
    else if AliasMatch(name1, aliases) then true
    else CalculateSimilarity(name1, name2) > SimilarityThreshold
  }

  /** Two "communication" names match exactly when they share the F1 or the
      A1 tag and neither pairs F1 with A1; substrings, aliases and similarity
      are never consulted. */
  lemma CommunicationRule(name1: string, name2: string, aliases: seq<string>)
    requires BothCommunication(name1, name2)
    ensures IsModuleMatch(name1, name2, aliases) <==>
      && !(Contains(name1, "f1") && Contains(name2, "a1"))
      && !(Contains(name1, "a1") && Contains(name2, "f1"))
      && ((Contains(name1, "f1") && Contains(name2, "f1")) || (Contains(name1, "a1") && Contains(name2, "a1")))
  {
  }

  /** Outside the communication rule, one name inside the other is a match. */
  lemma SubstringMatches(name1: string, name2: string, aliases: seq<string>)
    requires !BothCommunication(name1, name2)
    requires Contains(name1, name2) || Contains(name2, name1)
    ensures IsModuleMatch(name1, name2, aliases)
  {
  }

  /** Without aliases, matching is symmetric. */
  lemma MatchSymmetric(name1: string, name2: string)
    ensures IsModuleMatch(name1, name2, []) == IsModuleMatch(name2, name1, [])
  {
    SimilaritySymmetric(name1, name2);
  }

  /** Every name without "communication" matches itself. */
  lemma MatchReflexive(name: string, aliases: seq<string>)
    requires !Contains(name, "communication")
    ensures IsModuleMatch(name, name, aliases)
  {
    ContainsSelf(name);
  }

  /** Outside the communication rule, with no substring or alias relation,
      the names match exactly when their similarity exceeds 0.7. */
  lemma SimilarityDecides(name1: string, name2: string, aliases: seq<string>)
    requires !BothCommunication(name1, name2)
    requires !Contains(name1, name2) && !Contains(name2, name1) && !AliasMatch(name1, aliases)
    ensures IsModuleMatch(name1, name2, aliases) <==> CalculateSimilarity(name1, name2) > 0.7
  {
  }

  /** "communication f1" and "communication a1" are different modules. */
  lemma CommunicationF1A1Example()
    ensures !IsModuleMatch("communication f1", "communication a1", [])
  {
    var c := "communication";
    assert OccursAt("communication f1", c, 0) && OccursAt("communication a1", c, 0);
    ContainsAt("communication f1", c, 0);
    ContainsAt("communication a1", c, 0);
    assert OccursAt("communication f1", "f1", 14) && OccursAt("communication a1", "a1", 14);
    ContainsAt("communication f1", "f1", 14);
    ContainsAt("communication a1", "a1", 14);
  }

  /** Two A1 communication names match whatever else they say. */
  lemma CommunicationA1Example(x: string, y: string)
    requires x == "communication a1 x" && y == "communication a1 y"
    ensures IsModuleMatch(x, y, [])
  {
    CommunicationA1Name(x, 'x');
    CommunicationA1Name(y, 'y');
    CommunicationRule(x, y, []);
  }

  /** "communication a1 " followed by a letter other than f is a communication
      name tagged A1 and not F1. */
  lemma CommunicationA1Name(name: string, last: char)
    requires name == "communication a1 " + [last] && last != 'f'
    ensures Contains(name, "communication") && Contains(name, "a1") && !Contains(name, "f1")
  {
    var c := "communication";
    assert OccursAt(name, c, 0);
    ContainsAt(name, c, 0);
    assert OccursAt(name, "a1", 14);
    ContainsAt(name, "a1", 14);
    NotContainsChar(name, "f1", 0);
  }
}
