/** Characters and runs of characters, as the regular expressions of logpuzzle.py see them.
    `\s` is taken in its ASCII meaning: space, tab, newline, vertical tab, form feed and
    carriage return; `\S` is every other character. */
module Text {

  /** A character matched by `\s`: ' ' or one of '\t', '\n', '\v', '\f', '\r'. */
  predicate IsSpace(c: char) {
    c == ' ' || '\t' <= c <= '\r'
  }

  /** Every character of s[lo..hi] is matched by `\S`. */
  predicate NonSpaceIn(s: string, lo: int, hi: int)
    requires 0 <= lo <= hi <= |s|
  {
    forall k :: lo <= k < hi ==> !IsSpace(s[k])
  }

  /** A whole string of `\S` characters. */
  predicate IsWord(s: string) {
    NonSpaceIn(s, 0, |s|)
  }

  /** No `\S` run goes on to the left of position i. */
  predicate RunStartsAt(s: string, i: int)
    requires 0 <= i <= |s|
  {
    i == 0 || IsSpace(s[i - 1])
  }

  /** No `\S` run goes on to the right of position i. */
  predicate RunEndsAt(s: string, i: int)
    requires 0 <= i <= |s|
  {
    i == |s| || IsSpace(s[i])
  }

  /** Position i is not strictly inside a run of `\S` characters. */
  predicate Boundary(s: string, i: int)
    requires 0 <= i <= |s|
  {
    RunStartsAt(s, i) || RunEndsAt(s, i)
  }

  /** Where a greedy `\S+` (or `\S*`) that starts at i stops: the first `\s` at or
      after i, or the end of s. */
  function RunEnd(s: string, i: nat): (e: nat)
    requires i <= |s|
    decreases |s| - i
    ensures i <= e <= |s|
    ensures NonSpaceIn(s, i, e)
    ensures RunEndsAt(s, e)
  {
    if i == |s| || IsSpace(s[i]) then i else RunEnd(s, i + 1)
  }

  /** A run of `\S` characters cannot reach past the end of the run it starts in. */
  lemma RunInside(s: string, i: nat, lo: int, hi: int)
    requires i <= lo <= hi <= |s|
    requires lo <= RunEnd(s, i)
    requires NonSpaceIn(s, lo, hi)
    ensures hi <= RunEnd(s, i)
  {
  }

  /** "puzzle" occurs in s starting at index j. */
  predicate PuzzleAt(s: string, j: int) {
    0 <= j && j + 6 <= |s| && s[j..j + 6] == "puzzle"
  }
}
