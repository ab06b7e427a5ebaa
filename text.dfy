/** Scanning helpers over decoded text, shared by the header, body and
    release-date models. Each stands for one fixed regular-expression step
    of the notebook, written out as an explicit scan. */
module Text {

  /** `pat` occurs in `s` starting at index `i`. */
  ghost predicate OccursAt(s: string, pat: string, i: int)
  {
    0 <= i && i + |pat| <= |s| && s[i..i + |pat|] == pat
  }

  /** Index of the first `c` in `s` at or after `from`, or `|s|` when there is none. */
  function IndexFrom(s: string, c: char, from: nat): (k: nat)
    requires from <= |s|
    ensures from <= k <= |s|
    ensures k < |s| ==> s[k] == c
    ensures forall i :: from <= i < k ==> s[i] != c
    decreases |s| - from
  {
    if from == |s| || s[from] == c then from else IndexFrom(s, c, from + 1)
  }

  /** Whether `pat` occurs anywhere in `s` (an unanchored search for a literal). */
  function Occurs(s: string, pat: string): (b: bool)
    ensures b <==> exists i :: OccursAt(s, pat, i)
  {
    if pat <= s then
      assert OccursAt(s, pat, 0);
      true
    else if |s| == 0 then
      false
    else
      var b := Occurs(s[1..], pat);
      assert forall i :: OccursAt(s[1..], pat, i) <==> OccursAt(s, pat, i + 1);
      assert forall i :: OccursAt(s, pat, i) && i > 0 ==> OccursAt(s[1..], pat, i - 1);
      b
  }

  /** Number of occurrences of `pat` in `s`, counted left to right without
      overlap, as `len(re.findall(pat, s))` counts a literal pattern. */
  function CountMatches(s: string, pat: string): (n: nat)
    requires pat != []
    ensures n * |pat| <= |s|
  {
    if |s| < |pat| then 0
    else if pat <= s then
      var m := CountMatches(s[|pat|..], pat);
      assert (1 + m) * |pat| == m * |pat| + |pat|;
      1 + m
    else
      CountMatches(s[1..], pat)
  }

  /** A positive count means the pattern occurs in the text. */
  lemma {:induction false} CountedPatternOccurs(s: string, pat: string)
    requires pat != [] && CountMatches(s, pat) > 0
    ensures Occurs(s, pat)
    decreases |s|
  {
    if !(pat <= s) {
      assert CountMatches(s[1..], pat) == CountMatches(s, pat);
      CountedPatternOccurs(s[1..], pat);
      assert Occurs(s, pat) == Occurs(s[1..], pat);
    }
  }

  /** Number of indices at which `pat` occurs in `s`, overlapping ones included:
      an independent reference for `CountMatches`. */
  ghost function Occurrences(s: string, pat: string): nat
  {
    if |s| == 0 then 0
    else (if pat <= s then 1 else 0) + Occurrences(s[1..], pat)
  }

  /** No proper suffix of `pat` is also a prefix of it, so two occurrences
      can never overlap. */
  ghost predicate SelfDisjoint(pat: string)
  {
    forall k :: 0 < k < |pat| ==> !(pat[k..] <= pat)
  }

  /** For a pattern that cannot overlap itself, the non-overlapping count is
      the number of positions at which the pattern occurs. */
  lemma {:induction false} CountMatchesIsOccurrences(s: string, pat: string)
    requires pat != [] && SelfDisjoint(pat)
    ensures CountMatches(s, pat) == Occurrences(s, pat)
    decreases |s|
  {
    if |s| < |pat| {
      NoOccurrencesInShort(s, pat);
    } else if pat <= s {
      CountMatchesIsOccurrences(s[|pat|..], pat);
      SkipInsideMatch(s, pat, 1);
    } else {
      CountMatchesIsOccurrences(s[1..], pat);
    }
  }

  lemma {:induction false} NoOccurrencesInShort(s: string, pat: string)
    requires |s| < |pat|
    ensures Occurrences(s, pat) == 0
    decreases |s|
  {
    if |s| > 0 {
      NoOccurrencesInShort(s[1..], pat);
    }
  }

  /** Inside an occurrence of a self-disjoint pattern no other occurrence
      starts, so counting from offset `k` equals counting after the occurrence. */
  lemma {:induction false} SkipInsideMatch(s: string, pat: string, k: nat)
    requires pat != [] && SelfDisjoint(pat) && pat <= s
    requires 1 <= k <= |pat|
    ensures Occurrences(s[k..], pat) == Occurrences(s[|pat|..], pat)
    decreases |pat| - k
  {
    if k < |pat| {
      SkipInsideMatch(s, pat, k + 1);
      assert s[k..][1..] == s[k + 1..];
      assert !(pat[k..] <= pat);
    }
  }

  /** Number of times the character `c` appears in `s`. */
  function CountChar(s: string, c: char): (n: nat)
    ensures n == multiset(s)[c]
    ensures n <= |s|
  {
    if s == [] then 0
    else
      assert s == [s[0]] + s[1..];
      (if s[0] == c then 1 else 0) + CountChar(s[1..], c)
  }
}
