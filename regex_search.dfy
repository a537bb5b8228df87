/**
 * A model of Python's `re.search` for the one regular-expression shape the
 * extractor uses:
 *
 *     (?:L0|L1|...)([^&\n?#]+)
 *
 * that is, an alternation of literal prefixes followed by a capturing group
 * holding a greedy, non-empty run of characters from the class `[^&\n?#]`.
 * Nothing follows the group, so the greedy run never has to give characters
 * back: a match at a start position exists exactly when one of the literals
 * occurs there and is followed by at least one class character, and its
 * group is the longest class run after that literal.
 */
module RegexSearch {

  import opened Wrappers

  /** A pattern `(?:L0|L1|...)([^&\n?#]+)`, given by its literal alternatives in order. */
  datatype Pattern = Pattern(alternatives: seq<string>)

  /**
   * What a successful `re.search` yields: where the whole match starts, which
   * alternative of the prefix matched there, and `group(1)`.
   */
  datatype Match = Match(start: nat, alternative: nat, group: string)

  /** Membership in the character class `[^&\n?#]`. */
  predicate InClass(c: char) {
    c != '&' && c != '\n' && c != '?' && c != '#'
  }

  /** The literal `lit` occurs in `s` at index `i` (case-sensitive). */
  predicate LiteralAt(s: string, i: nat, lit: string) {
    i + |lit| <= |s| && s[i..i + |lit|] == lit
  }

  /**
   * The alternative `lit` followed by `([^&\n?#]+)` matches at index `i`:
   * the literal occurs there and at least one class character follows it.
   */
  predicate AlternativeMatchesAt(s: string, i: nat, lit: string) {
    LiteralAt(s, i, lit) && i + |lit| < |s| && InClass(s[i + |lit|])
  }

  /** Some alternative of `pat` matches at index `i`. */
  predicate MatchesAt(pat: Pattern, s: string, i: nat) {
    exists k :: 0 <= k < |pat.alternatives| && AlternativeMatchesAt(s, i, pat.alternatives[k])
  }

  /** `pat` matches nowhere in `s`. */
  ghost predicate NoMatch(pat: Pattern, s: string) {
    forall i: nat :: !MatchesAt(pat, s, i)
  }

  /**
   * `g` is the longest run of class characters in `s` starting at index `j`:
   * it occurs at `j`, holds only class characters, and is followed by the end
   * of `s` or by one of `&`, `\n`, `?`, `#`.
   */
  ghost predicate IsMaximalRun(s: string, j: nat, g: string) {
    && j + |g| <= |s|
    && s[j..j + |g|] == g
    && (forall t :: 0 <= t < |g| ==> InClass(g[t]))
    && (j + |g| == |s| || !InClass(s[j + |g|]))
  }

  /**
   * `m` is the match `re.search(pat, s)` reports: no earlier start position
   * matches, at `m.start` the alternative `m.alternative` is the first one
   * that matches, and the group is the greedy run after that alternative.
   */
  ghost predicate IsLeftmostMatch(pat: Pattern, s: string, m: Match) {
    && m.alternative < |pat.alternatives|
    && AlternativeMatchesAt(s, m.start, pat.alternatives[m.alternative])
    && (forall k :: 0 <= k < m.alternative ==> !AlternativeMatchesAt(s, m.start, pat.alternatives[k]))
    && (forall i: nat :: i < m.start ==> !MatchesAt(pat, s, i))
    && IsMaximalRun(s, m.start + |pat.alternatives[m.alternative]|, m.group)
  }

  /** End index of the greedy run of class characters starting at `j`. */
  function RunEnd(s: string, j: nat): (e: nat)
    requires j <= |s|
    ensures j <= e <= |s|
    ensures forall t :: j <= t < e ==> InClass(s[t])
    ensures e == |s| || !InClass(s[e])
    decreases |s| - j
  {
    if j == |s| || !InClass(s[j]) then j else RunEnd(s, j + 1)
  }

  /** Index of the first alternative, from `k` on, that matches at `i`. */
  function FirstAlternative(alts: seq<string>, s: string, i: nat, k: nat): (r: Option<nat>)
    requires k <= |alts|
    ensures r.Some? ==> k <= r.value < |alts| && AlternativeMatchesAt(s, i, alts[r.value])
    ensures r.Some? ==> forall k' :: k <= k' < r.value ==> !AlternativeMatchesAt(s, i, alts[k'])
    ensures r.None? <==> forall k' :: k <= k' < |alts| ==> !AlternativeMatchesAt(s, i, alts[k'])
    decreases |alts| - k
  {
    if k == |alts| then None
    else if AlternativeMatchesAt(s, i, alts[k]) then Some(k)
    else FirstAlternative(alts, s, i, k + 1)
  }

  /** The match of `pat` anchored at index `i`, as the regex engine tries it there. */
  function MatchAt(pat: Pattern, s: string, i: nat): (r: Option<Match>)
    ensures r.None? <==> !MatchesAt(pat, s, i)
    ensures r.Some? ==> r.value.start == i
    ensures r.Some? ==> r.value.alternative < |pat.alternatives|
    ensures r.Some? ==> AlternativeMatchesAt(s, i, pat.alternatives[r.value.alternative])
    ensures r.Some? ==> forall k :: 0 <= k < r.value.alternative ==> !AlternativeMatchesAt(s, i, pat.alternatives[k])
    ensures r.Some? ==> IsMaximalRun(s, i + |pat.alternatives[r.value.alternative]|, r.value.group)
  {
    match FirstAlternative(pat.alternatives, s, i, 0)
    case None => None
    case Some(k) =>
      var j := i + |pat.alternatives[k]|;
      Some(Match(i, k, s[j..RunEnd(s, j)]))
  }

  /** Scan start positions `i`, `i + 1`, ..., `|s|` left to right for the first match. */
  function SearchFrom(pat: Pattern, s: string, i: nat): (r: Option<Match>)
    requires i <= |s|
    ensures r.Some? ==> i <= r.value.start && MatchAt(pat, s, r.value.start) == r
    ensures r.Some? ==> forall j: nat :: i <= j < r.value.start ==> !MatchesAt(pat, s, j)
    ensures r.None? <==> forall j: nat :: i <= j ==> !MatchesAt(pat, s, j)
    decreases |s| - i
  {
    var here := MatchAt(pat, s, i);
    if here.Some? then here
    else if i == |s| then
      assert forall j: nat :: i < j ==> !MatchesAt(pat, s, j) by {
        forall j: nat | i < j ensures !MatchesAt(pat, s, j) {
          NoMatchPastEnd(pat, s, j);
        }
      }
      None
    else SearchFrom(pat, s, i + 1)
  }

  /** `re.search(pat, s)`: the leftmost match, or `None`. */
  function Search(pat: Pattern, s: string): (r: Option<Match>)
    ensures r.Some? ==> IsLeftmostMatch(pat, s, r.value)
    ensures r.None? <==> NoMatch(pat, s)
  {
    SearchFrom(pat, s, 0)
  }

  /** No alternative matches at or past the end of the string. */
  lemma NoMatchPastEnd(pat: Pattern, s: string, j: nat)
    requires |s| <= j
    ensures !MatchesAt(pat, s, j)
  {
  }

  /** Every character of `s` covered by a run is a class character. */
  lemma RunCharsInClass(s: string, j: nat, g: string)
    requires IsMaximalRun(s, j, g)
    ensures forall t :: j <= t < j + |g| ==> InClass(s[t])
  {
    forall t | j <= t < j + |g| ensures InClass(s[t]) {
      assert s[t] == g[t - j];
    }
  }

  /** The greedy run starting at a given index is unique. */
  lemma {:induction false} MaximalRunUnique(s: string, j: nat, g1: string, g2: string)
    requires IsMaximalRun(s, j, g1) && IsMaximalRun(s, j, g2)
    ensures g1 == g2
  {
    RunCharsInClass(s, j, g1);
    RunCharsInClass(s, j, g2);
    if |g1| < |g2| {
      assert false;
    } else if |g2| < |g1| {
      assert false;
    }
  }

  /** At most one match satisfies the leftmost-match description. */
  lemma {:induction false} LeftmostMatchUnique(pat: Pattern, s: string, m1: Match, m2: Match)
    requires IsLeftmostMatch(pat, s, m1) && IsLeftmostMatch(pat, s, m2)
    ensures m1 == m2
  {
    if m1.start < m2.start {
      assert MatchesAt(pat, s, m1.start);
      assert false;
    } else if m2.start < m1.start {
      assert MatchesAt(pat, s, m2.start);
      assert false;
    }
    assert m1.alternative == m2.alternative;
    MaximalRunUnique(s, m1.start + |pat.alternatives[m1.alternative]|, m1.group, m2.group);
  }

  /** `Search` returns a match exactly when that match is the leftmost, greedy one. */
  lemma SearchIsLeftmostMatch(pat: Pattern, s: string, m: Match)
    ensures Search(pat, s) == Some(m) <==> IsLeftmostMatch(pat, s, m)
  {
    if IsLeftmostMatch(pat, s, m) {
      assert MatchesAt(pat, s, m.start);
      LeftmostMatchUnique(pat, s, Search(pat, s).value, m);
    }
  }

  /**
   * A string that starts with alternative `k`, followed by a non-empty class
   * run `g` and then the end or a non-class character, matches at index 0
   * with group `g`, provided no earlier alternative matches there.
   */
  lemma {:induction false} SearchAtStart(pat: Pattern, k: nat, g: string, rest: string)
    requires k < |pat.alternatives|
    requires forall k' :: 0 <= k' < k ==> !AlternativeMatchesAt(pat.alternatives[k] + g + rest, 0, pat.alternatives[k'])
    requires |g| > 0 && forall t :: 0 <= t < |g| ==> InClass(g[t])
    requires rest == [] || !InClass(rest[0])
    ensures Search(pat, pat.alternatives[k] + g + rest) == Some(Match(0, k, g))
  {
    var lit, s := pat.alternatives[k], pat.alternatives[k] + g + rest;
    assert s[..|lit|] == lit;
    assert s[|lit|..|lit| + |g|] == g;
    assert |lit| + |g| < |s| ==> s[|lit| + |g|] == rest[0];
    assert s[|lit|] == g[0];
    SearchIsLeftmostMatch(pat, s, Match(0, k, g));
  }

  /** The group of a match is a non-empty run of class characters. */
  lemma MatchGroupNonEmptyInClass(pat: Pattern, s: string, m: Match)
    requires IsLeftmostMatch(pat, s, m)
    ensures |m.group| > 0
    ensures forall c :: c in m.group ==> InClass(c)
  {
  }
}
