/**
 * Case-insensitive substring search, the model of pandas'
 * `Series.str.contains(pattern, case=False)` for a pattern with no regular
 * expression metacharacters. Letters are folded the ASCII way.
 */
module Text {

  function Lower(c: char): char
  {
    if 'A' <= c <= 'Z' then (c as int + 32) as char else c
  }

  function LowerAll(s: string): (r: string)
    ensures |r| == |s|
    ensures forall i :: 0 <= i < |s| ==> r[i] == Lower(s[i])
  {
    seq(|s|, i requires 0 <= i < |s| => Lower(s[i]))
  }

  /** The slice of `s` starting at `i` equals `pattern` up to letter case. */
  predicate MatchesAt(s: string, pattern: string, i: int)
  {
    0 <= i && i + |pattern| <= |s| && LowerAll(s[i..i + |pattern|]) == LowerAll(pattern)
  }

  /**
   * Whether `pattern` occurs in `s` ignoring letter case, by scanning the
   * start positions left to right as a regular-expression search does.
   */
  function ContainsIgnoringCase(s: string, pattern: string): (b: bool)
    ensures b <==> exists i :: MatchesAt(s, pattern, i)
    decreases |s|
  {
    if |s| < |pattern| then
      assert forall i :: !MatchesAt(s, pattern, i);
      false
    else if LowerAll(s[..|pattern|]) == LowerAll(pattern) then
      assert MatchesAt(s, pattern, 0);
      true
    else
      ShiftMatches(s, pattern);
      ContainsIgnoringCase(s[1..], pattern)
  }

  /** A match in the tail of `s` is a match in `s` one position later, and back. */
  lemma ShiftMatches(s: string, pattern: string)
    requires |s| > 0
    ensures forall i :: 0 <= i ==> (MatchesAt(s[1..], pattern, i) <==> MatchesAt(s, pattern, i + 1))
    ensures (exists i :: MatchesAt(s, pattern, i)) <==>
              MatchesAt(s, pattern, 0) || exists i :: MatchesAt(s[1..], pattern, i)
  {
    forall i | 0 <= i
      ensures MatchesAt(s[1..], pattern, i) <==> MatchesAt(s, pattern, i + 1)
    {
      if 0 <= i && i + |pattern| <= |s| - 1 {
        assert s[1..][i..i + |pattern|] == s[i + 1..i + 1 + |pattern|];
      }
    }
    if exists i :: MatchesAt(s, pattern, i) {
      var i :| MatchesAt(s, pattern, i);
      if i > 0 {
        assert MatchesAt(s[1..], pattern, i - 1);
      }
    }
  }

  /** A text none of whose letters folds to the pattern's first letter does not contain it. */
  lemma NoFirstLetterNoMatch(s: string, pattern: string)
    requires |pattern| > 0
    requires forall i :: 0 <= i < |s| ==> Lower(s[i]) != Lower(pattern[0])
    ensures !ContainsIgnoringCase(s, pattern)
  {
    if i :| MatchesAt(s, pattern, i) {
      assert LowerAll(s[i..i + |pattern|])[0] == LowerAll(pattern)[0];
    }
  }
}
