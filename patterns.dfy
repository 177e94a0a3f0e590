/** The three regular expressions of `read_urls` (logpuzzle.py), written as matchers.
    Python's `re.search` reports the leftmost position where the pattern matches and,
    at that position, the match that backtracking reaches first: every greedy `\S+`
    tries its longest extent first. Each matcher below is stated against a predicate
    that says when a stretch of text matches the pattern, and its contract says which
    of all those matches is the one `search` returns. */
module Patterns {
  import opened Wrappers
  import opened Text

  // ---------------------------------------------------------------------------
  // `_(\S+)`: the site name inside the log's file name (logpuzzle.py:32-34)

  /** `_(\S+)` matches with its underscore at index i. */
  predicate SiteAt(f: string, i: int) {
    0 <= i && i + 1 < |f| && f[i] == '_' && !IsSpace(f[i + 1])
  }

  /** The first index at or after i where `_(\S+)` matches. */
  function FirstSiteFrom(f: string, i: nat): (r: Option<nat>)
    requires i <= |f|
    decreases |f| - i
    ensures r.Some? ==> i <= r.value && SiteAt(f, r.value)
    ensures r.Some? ==> forall k :: i <= k < r.value ==> !SiteAt(f, k)
    ensures r.None? ==> forall k :: i <= k ==> !SiteAt(f, k)
  {
    if i + 1 >= |f| then None
    else if SiteAt(f, i) then Some(i)
    else FirstSiteFrom(f, i + 1)
  }

  /** `re.search(r'_(\S+)', f)`, as the span (lo, hi) of group 1. It is found exactly
      when some underscore is followed by a non-whitespace character; the underscore
      is the first such one, and the group is the whole run of `\S` after it. */
  function SiteSearch(f: string): (r: Option<(nat, nat)>)
    ensures r.None? <==> forall k :: !SiteAt(f, k)
    ensures r.Some? ==>
      var (lo, hi) := r.value;
      && 1 <= lo < hi <= |f|
      && SiteAt(f, lo - 1)
      && (forall k :: 0 <= k < lo - 1 ==> !SiteAt(f, k))
      && NonSpaceIn(f, lo, hi)
      && RunEndsAt(f, hi)
  {
    match FirstSiteFrom(f, 0)
    case None => None
    case Some(u) => Some((u + 1, RunEnd(f, u + 1)))
  }

  // ---------------------------------------------------------------------------
  // `(\S+puzzle\S+)`: the puzzle URL on one log line (logpuzzle.py:37-41)

  /** s[lo..hi] is an entire match of `\S+puzzle\S+`: non-whitespace throughout, with
      "puzzle" somewhere after its first character and before its last. */
  predicate PuzzleSpan(s: string, lo: int, hi: int) {
    && 0 <= lo < hi <= |s|
    && NonSpaceIn(s, lo, hi)
    && exists j | lo < j < hi - 6 :: PuzzleAt(s, j)
  }

  /** A `\S+puzzle\S+` match starting inside the run that begins at i widens to the
      whole run, and cannot reach past it. */
  lemma PuzzleWidens(s: string, i: nat, lo: int, hi: int)
    requires i <= |s| && i <= lo < RunEnd(s, i)
    requires PuzzleSpan(s, lo, hi)
    ensures hi <= RunEnd(s, i) && PuzzleSpan(s, i, RunEnd(s, i))
  {
    var e := RunEnd(s, i);
    RunInside(s, i, lo, hi);
    var j :| lo < j < hi - 6 && PuzzleAt(s, j);
    assert i < j < e - 6;
  }

  lemma NoPuzzleInRun(s: string, i: nat)
    requires i < |s|
    requires !PuzzleSpan(s, i, RunEnd(s, i))
    ensures forall lo, hi :: i <= lo < RunEnd(s, i) ==> !PuzzleSpan(s, lo, hi)
  {
    forall lo, hi | i <= lo < RunEnd(s, i) && PuzzleSpan(s, lo, hi)
      ensures false
    {
      PuzzleWidens(s, i, lo, hi);
    }
  }

  lemma PuzzleRunIsLongest(s: string, i: nat)
    requires i < |s|
    ensures forall hi :: PuzzleSpan(s, i, hi) ==> hi <= RunEnd(s, i)
  {
    forall hi | PuzzleSpan(s, i, hi)
      ensures hi <= RunEnd(s, i)
    {
      RunInside(s, i, i, hi);
    }
  }

  /** The leftmost `\S+puzzle\S+` match starting at or after i, which must not be
      strictly inside a run of `\S`. The match found is a whole run (a
      whitespace-delimited token); no match starts earlier, and none starting at the
      same place is longer. */
  function PuzzleFrom(s: string, i: nat): (r: Option<(nat, nat)>)
    requires i <= |s| && Boundary(s, i)
    decreases |s| - i
    ensures r.None? ==> forall lo, hi :: i <= lo ==> !PuzzleSpan(s, lo, hi)
    ensures r.Some? ==>
      var (lo, hi) := r.value;
      && i <= lo
      && PuzzleSpan(s, lo, hi)
      && RunStartsAt(s, lo) && RunEndsAt(s, hi)
      && (forall lo', hi' :: i <= lo' < lo ==> !PuzzleSpan(s, lo', hi'))
      && (forall hi' :: PuzzleSpan(s, lo, hi') ==> hi' <= hi)
  {
    if i == |s| then None
    else if IsSpace(s[i]) then PuzzleFrom(s, i + 1)
    else
      var e := RunEnd(s, i);
      if PuzzleSpan(s, i, e) then
        PuzzleRunIsLongest(s, i);
        Some((i, e))
      else
        NoPuzzleInRun(s, i);
        PuzzleFrom(s, e)
  }

  /** `re.search(r'(\S+puzzle\S+)', line)`, as the span of group 1 (the whole match). */
  function PuzzleSearch(line: string): (r: Option<(nat, nat)>)
    ensures r.None? <==> forall lo, hi :: !PuzzleSpan(line, lo, hi)
    ensures r.Some? ==>
      var (lo, hi) := r.value;
      && PuzzleSpan(line, lo, hi)
      && RunStartsAt(line, lo) && RunEndsAt(line, hi)
      && (forall lo', hi' :: 0 <= lo' < lo ==> !PuzzleSpan(line, lo', hi'))
      && (forall hi' :: PuzzleSpan(line, lo, hi') ==> hi' <= hi)
  {
    PuzzleFrom(line, 0)
  }

  // ---------------------------------------------------------------------------
  // `\S+puzzle\S+-\S+-(\S+)`: the "place" sort key (logpuzzle.py:45-50)

  /** s[lo..hi] is an entire match of `\S+puzzle\S+-\S+-(\S+)` with "puzzle" at p and
      the two literal dashes at d1 and d2; group 1 is then s[d2 + 1..hi]. */
  predicate PlaceSpan(s: string, lo: int, p: int, d1: int, d2: int, hi: int) {
    && 0 <= lo < p
    && p + 6 < d1
    && d1 + 1 < d2
    && d2 + 1 < hi <= |s|
    && NonSpaceIn(s, lo, hi)
    && PuzzleAt(s, p)
    && s[d1] == '-' && s[d2] == '-'
  }

  /** Some place match covers s[lo..hi] with its second dash at d. */
  predicate PlaceSpanWithDash(s: string, lo: int, d: int, hi: int) {
    exists p, d1 | lo < p < d && p < d1 < d :: PlaceSpan(s, lo, p, d1, d, hi)
  }

  /** Where a place match was found: it covers s[lo..hi] and its group is s[dash + 1..hi]. */
  datatype PlaceMatch = PlaceMatch(lo: nat, dash: nat, hi: nat)

  /** The last '-' in s[lo..hi]. */
  function LastDash(s: string, lo: nat, hi: nat): (r: Option<nat>)
    requires lo <= hi <= |s|
    decreases hi - lo
    ensures r.Some? ==> lo <= r.value < hi && s[r.value] == '-'
    ensures r.Some? ==> forall k :: r.value < k < hi ==> s[k] != '-'
    ensures r.None? ==> forall k :: lo <= k < hi ==> s[k] != '-'
  {
    if lo == hi then None
    else if s[hi - 1] == '-' then Some(hi - 1)
    else LastDash(s, lo, hi - 1)
  }

  /** A place match starting inside the run that begins at i widens to the whole run;
      its second dash can then be moved to the run's last dash that has a character
      after it. */
  lemma PlaceWidens(s: string, i: nat, lo: int, p: int, d1: int, d2: int, hi: int)
    requires i <= |s| && i <= lo < RunEnd(s, i)
    requires PlaceSpan(s, lo, p, d1, d2, hi)
    ensures hi <= RunEnd(s, i)
    ensures LastDash(s, i, RunEnd(s, i) - 1).Some?
    ensures d2 <= LastDash(s, i, RunEnd(s, i) - 1).value
    ensures PlaceSpan(s, i, p, d1, LastDash(s, i, RunEnd(s, i) - 1).value, RunEnd(s, i))
  {
    RunInside(s, i, lo, hi);
  }

  lemma NoPlaceInRun(s: string, i: nat)
    requires i < |s| && !IsSpace(s[i])
    requires var d := LastDash(s, i, RunEnd(s, i) - 1);
      !(d.Some? && PlaceSpanWithDash(s, i, d.value, RunEnd(s, i)))
    ensures forall lo, p, d1, d2, hi :: i <= lo < RunEnd(s, i) ==> !PlaceSpan(s, lo, p, d1, d2, hi)
  {
    forall lo, p, d1, d2, hi | i <= lo < RunEnd(s, i) && PlaceSpan(s, lo, p, d1, d2, hi)
      ensures false
    {
      WidenedPlaceHasLastDash(s, i, lo, p, d1, d2, hi);
    }
  }

  lemma WidenedPlaceHasLastDash(s: string, i: nat, lo: int, p: int, d1: int, d2: int, hi: int)
    requires i < |s| && i <= lo < RunEnd(s, i)
    requires PlaceSpan(s, lo, p, d1, d2, hi)
    ensures var d := LastDash(s, i, RunEnd(s, i) - 1);
      d.Some? && PlaceSpanWithDash(s, i, d.value, RunEnd(s, i))
  {
    PlaceWidens(s, i, lo, p, d1, d2, hi);
    var e := RunEnd(s, i);
    var d := LastDash(s, i, e - 1).value;
    assert i < p < d && p < d1 < d && PlaceSpan(s, i, p, d1, d, e);
  }

  lemma PlaceRunIsGreedy(s: string, i: nat)
    requires i < |s| && !IsSpace(s[i])
    requires LastDash(s, i, RunEnd(s, i) - 1).Some?
    ensures forall p, d1, d2, hi :: PlaceSpan(s, i, p, d1, d2, hi) ==>
      d2 <= LastDash(s, i, RunEnd(s, i) - 1).value && hi <= RunEnd(s, i)
  {
    forall p, d1, d2, hi | PlaceSpan(s, i, p, d1, d2, hi)
      ensures d2 <= LastDash(s, i, RunEnd(s, i) - 1).value && hi <= RunEnd(s, i)
    {
      PlaceWidens(s, i, i, p, d1, d2, hi);
    }
  }

  /** m is what `search` reports for the place pattern when it scans from i: a match
      starts at m.lo, at a run start, with its second dash at m.dash, ending at m.hi;
      no match starts earlier; and every match starting at m.lo has its second dash
      at or before m.dash and ends at or before m.hi. */
  ghost predicate LeftmostGreedyPlace(s: string, i: int, m: PlaceMatch)
  {
    && i <= m.lo <= m.hi <= |s|
    && PlaceSpanWithDash(s, m.lo, m.dash, m.hi)
    && RunStartsAt(s, m.lo) && RunEndsAt(s, m.hi)
    && (forall lo, p, d1, d2, hi :: i <= lo < m.lo ==> !PlaceSpan(s, lo, p, d1, d2, hi))
    && (forall p, d1, d2, hi :: PlaceSpan(s, m.lo, p, d1, d2, hi) ==> d2 <= m.dash && hi <= m.hi)
  }

  /** The leftmost place match starting at or after i (i not strictly inside a run). */
  function PlaceFrom(s: string, i: nat): (r: Option<PlaceMatch>)
    requires i <= |s| && Boundary(s, i)
    decreases |s| - i
    ensures r.None? ==> forall lo, p, d1, d2, hi :: i <= lo ==> !PlaceSpan(s, lo, p, d1, d2, hi)
    ensures r.Some? ==> LeftmostGreedyPlace(s, i, r.value)
  {
    if i == |s| then None
    else if IsSpace(s[i]) then PlaceFrom(s, i + 1)
    else
      var e := RunEnd(s, i);
      var d := LastDash(s, i, e - 1);
      if d.Some? && PlaceSpanWithDash(s, i, d.value, e) then
        PlaceRunIsGreedy(s, i);
        Some(PlaceMatch(i, d.value, e))
      else
        NoPlaceInRun(s, i);
        PlaceFrom(s, e)
  }

  /** `re.search(r'\S+puzzle\S+-\S+-(\S+)', url)`. */
  function PlaceSearch(url: string): (r: Option<PlaceMatch>)
    ensures r.None? <==> forall lo, p, d1, d2, hi :: !PlaceSpan(url, lo, p, d1, d2, hi)
    ensures r.Some? ==> LeftmostGreedyPlace(url, 0, r.value)
  {
    PlaceFrom(url, 0)
  }

  /** (a1, a2, a3, a4) comes no later than (b1, b2, b3, b4) in lexicographic order. */
  predicate TupleLe(a1: int, a2: int, a3: int, a4: int, b1: int, b2: int, b3: int, b4: int) {
    a1 < b1 || (a1 == b1 && (a2 < b2 || (a2 == b2 && (a3 < b3 || (a3 == b3 && a4 <= b4)))))
  }

  /** Backtracking tries each greedy `\S+` longest first, so among the matches that
      start at the reported position, the one Python reports is the one whose
      (p, d1, d2, hi) is lexicographically greatest. Whichever that is, its second dash
      and its end are the ones PlaceSearch reports, so the group is the same. */
  lemma PlaceGroupIsBacktrackingGroup(s: string, m: PlaceMatch, p: int, d1: int, d2: int, hi: int)
    requires PlaceSearch(s) == Some(m)
    requires PlaceSpan(s, m.lo, p, d1, d2, hi)
    requires forall q, e1, e2, h :: PlaceSpan(s, m.lo, q, e1, e2, h) ==> TupleLe(q, e1, e2, h, p, d1, d2, hi)
    ensures d2 == m.dash && hi == m.hi
  {
    var q, e1 :| m.lo < q < m.dash && q < e1 < m.dash && PlaceSpan(s, m.lo, q, e1, m.dash, m.hi);
    assert PlaceSpan(s, m.lo, p, d1, m.dash, m.hi);
    assert TupleLe(p, d1, m.dash, m.hi, p, d1, d2, hi);
  }

  /** The key of a place URL: the text after the URL's last '-' that has at least one
      character after it. */
  function PlaceKey(url: string): (key: string)
    ensures PlaceSearch(url).None? ==> key == ""
    ensures PlaceSearch(url).Some? ==>
      var hi := PlaceSearch(url).value.hi;
      && 0 < |key| < hi
      && url[hi - |key|..hi] == key
      && url[hi - |key| - 1] == '-'
      && IsWord(key)
      && (forall k :: 0 <= k < |key| - 1 ==> key[k] != '-')
  {
    match PlaceSearch(url)
    case Some(m) =>
      PlaceKeyIsLastDash(url, m);
      url[m.dash + 1..m.hi]
    case None => ""
  }

  /** After the second dash of the reported place match, only the last character
      of the match can be a dash. */
  lemma PlaceKeyIsLastDash(url: string, m: PlaceMatch)
    requires PlaceSearch(url) == Some(m)
    ensures m.dash + 1 < m.hi <= |url| && url[m.dash] == '-'
    ensures forall k :: m.dash < k < m.hi - 1 ==> url[k] != '-'
    ensures IsWord(url[m.dash + 1..m.hi])
  {
    var p, d1 :| m.lo < p < m.dash && p < d1 < m.dash && PlaceSpan(url, m.lo, p, d1, m.dash, m.hi);
    assert forall k :: m.dash < k < m.hi - 1 && url[k] == '-' ==> PlaceSpan(url, m.lo, p, d1, k, m.hi);
  }

  /** For a URL without whitespace (every URL the log yields is one), the place search
      starts at 0 and ends at the end; its second dash is the last '-' that still has a
      character after it, so the key is the non-empty text after that dash. */
  lemma {:induction false} PlaceKeyOfWord(u: string)
    requires IsWord(u) && PlaceSearch(u).Some?
    ensures var m := PlaceSearch(u).value;
      && m.lo == 0 && m.hi == |u|
      && m.dash + 1 < |u| && u[m.dash] == '-'
      && (forall k :: m.dash < k < |u| - 1 ==> u[k] != '-')
      && PlaceKey(u) == u[m.dash + 1..]
      && |PlaceKey(u)| > 0
  {
    var m := PlaceSearch(u).value;
    var p, d1 :| m.lo < p < m.dash && p < d1 < m.dash && PlaceSpan(u, m.lo, p, d1, m.dash, m.hi);
    assert forall k :: m.dash < k < m.hi - 1 && u[k] == '-' ==> PlaceSpan(u, m.lo, p, d1, k, m.hi);
  }

  /** A whole-word puzzle match: the entry one log line contributes. */
  lemma {:induction false} PuzzleSearchIsToken(line: string)
    requires PuzzleSearch(line).Some?
    ensures var (lo, hi) := PuzzleSearch(line).value;
      && RunStartsAt(line, lo) && RunEndsAt(line, hi)
      && IsWord(line[lo..hi])
      && exists j | 0 < j < hi - lo - 6 :: PuzzleAt(line[lo..hi], j)
  {
    var (lo, hi) := PuzzleSearch(line).value;
    var w := line[lo..hi];
    var j :| lo < j < hi - 6 && PuzzleAt(line, j);
    assert w[j - lo..j - lo + 6] == line[j..j + 6];
    assert PuzzleAt(w, j - lo);
  }
}
