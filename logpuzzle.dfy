/** `read_urls` of logpuzzle.py (lines 26-54): from a log file's name and its lines to
    the ordered list of absolute puzzle URLs. The file's contents arrive as the list
    of lines `readlines()` would return. */
module LogPuzzle {
  import opened Wrappers
  import opened Text
  import opened Patterns
  import opened Seqs
  import opened Sorting

  /** The two ways `read_urls` fails. Both are the AttributeError raised by calling
      `.group` on the None that a search returns when it finds nothing. */
  datatype Error =
    | NoSiteInFileName   // `site_pattern.search(filename).group(1)`
    | NoPlaceKey         // the `key=` lambda applied to a URL with no place match

  // ---------------------------------------------------------------------------
  // The host name (logpuzzle.py:32-34)

  /** site is the run of non-whitespace characters right after the first underscore
      of f that is followed by a non-whitespace character. */
  ghost predicate IsSiteOf(f: string, site: string) {
    exists u ::
      && SiteAt(f, u)
      && (forall k :: 0 <= k < u ==> !SiteAt(f, k))
      && u + 1 + |site| <= |f|
      && f[u + 1..u + 1 + |site|] == site
      && IsWord(site)
      && RunEndsAt(f, u + 1 + |site|)
  }

  /** `site_pattern.search(filename).group(1)`. */
  function Site(filename: string): (r: Result<string, Error>)
    ensures r.Failure? <==> forall k :: !SiteAt(filename, k)
    ensures r.Failure? ==> r.error == NoSiteInFileName
    ensures r.Success? ==> |r.value| > 0 && IsSiteOf(filename, r.value)
  {
    match SiteSearch(filename)
    case None => Failure(NoSiteInFileName)
    case Some((lo, hi)) =>
      var site := filename[lo..hi];
      assert filename[lo..lo + |site|] == site;
      assert IsWord(site) by {
        forall k | 0 <= k < |site| ensures !IsSpace(site[k]) {
          assert site[k] == filename[lo + k];
        }
      }
      assert SiteAt(filename, lo - 1);
      Success(site)
  }

  // ---------------------------------------------------------------------------
  // One entry per matching line (logpuzzle.py:37-41)

  /** What one line contributes: group 1 of `(\S+puzzle\S+)`, if the line matches. */
  function LineUrl(line: string): (r: Option<string>)
    ensures r.None? <==> forall lo, hi :: !PuzzleSpan(line, lo, hi)
    ensures r.Some? ==> IsPuzzleWord(r.value)
    ensures r.Some? ==> exists lo :: IsLeftmostToken(line, lo, r.value)
  {
    match PuzzleSearch(line)
    case None => None
    case Some((lo, hi)) =>
      PuzzleSearchIsToken(line);
      assert IsLeftmostToken(line, lo, line[lo..hi]);
      Some(line[lo..hi])
  }

  /** u occurs in line at lo as a whole whitespace-delimited token that matches
      `\S+puzzle\S+`, and no match of that pattern starts before lo. */
  ghost predicate IsLeftmostToken(line: string, lo: int, u: string) {
    && 0 <= lo && lo + |u| <= |line|
    && line[lo..lo + |u|] == u
    && RunStartsAt(line, lo) && RunEndsAt(line, lo + |u|)
    && PuzzleSpan(line, lo, lo + |u|)
    && forall lo', hi' :: 0 <= lo' < lo ==> !PuzzleSpan(line, lo', hi')
  }

  /** The list the `for line in puzzle_text` loop appends to. */
  function PuzzleTokens(lines: seq<string>): (r: seq<string>)
    ensures |r| <= |lines|
    ensures forall u :: u in r ==> IsPuzzleWord(u)
  {
    if lines == [] then []
    else
      var init := PuzzleTokens(lines[..|lines| - 1]);
      match LineUrl(lines[|lines| - 1])
      case None => init
      case Some(url) => init + [url]
  }

  /** The loop over the lines of the log (logpuzzle.py:38-41). */
  method CollectPuzzleUrls(lines: seq<string>) returns (urls: seq<string>)
    ensures urls == PuzzleTokens(lines)
  {
    urls := [];
    for i := 0 to |lines|
      invariant urls == PuzzleTokens(lines[..i])
    {
      assert lines[..i + 1][..i] == lines[..i];
      var m := PuzzleSearch(lines[i]);
      if m.Some? {
        urls := urls + [lines[i][m.value.0..m.value.1]];
      }
    }
    assert lines[..|lines|] == lines;
  }

  /** A URL as the log yields it: no whitespace, and "puzzle" with at least one
      character before it and one after it. */
  predicate IsPuzzleWord(u: string) {
    IsWord(u) && exists j | 0 < j < |u| - 6 :: PuzzleAt(u, j)
  }

  /** Each line contributes at most one entry; the entries are exactly the lines'
      matches; and every entry is a whole puzzle word. */
  lemma {:induction false} PuzzleTokensAreLineMatches(lines: seq<string>)
    ensures |PuzzleTokens(lines)| <= |lines|
    ensures forall u :: u in PuzzleTokens(lines) <==>
      exists k :: 0 <= k < |lines| && LineUrl(lines[k]) == Some(u)
    ensures forall u :: u in PuzzleTokens(lines) ==> IsPuzzleWord(u)
  {
    if lines != [] {
      var init := lines[..|lines| - 1];
      var last := lines[|lines| - 1];
      PuzzleTokensAreLineMatches(init);
      forall u
        ensures u in PuzzleTokens(lines) <==>
          exists k :: 0 <= k < |lines| && LineUrl(lines[k]) == Some(u)
      {
        assert lines == init + [last];
        SomeLineYieldsStep(LineUrl, init, last, u);
        assert u in PuzzleTokens(lines) <==> u in PuzzleTokens(init) || LineUrl(last) == Some(u);
      }
    }
  }

  /** For any per-line extraction f, a value comes from some line of init + [last]
      exactly when it comes from a line of init or from last. */
  lemma SomeLineYieldsStep(f: string -> Option<string>, init: seq<string>, last: string, u: string)
    ensures (exists k :: 0 <= k < |init + [last]| && f((init + [last])[k]) == Some(u)) <==>
      (exists k :: 0 <= k < |init| && f(init[k]) == Some(u)) || f(last) == Some(u)
  {
    var lines := init + [last];
    if exists k :: 0 <= k < |lines| && f(lines[k]) == Some(u) {
      var k :| 0 <= k < |lines| && f(lines[k]) == Some(u);
      if k < |init| {
        assert init[k] == lines[k];
      }
    }
    if exists k :: 0 <= k < |init| && f(init[k]) == Some(u) {
      var k :| 0 <= k < |init| && f(init[k]) == Some(u);
      assert init[k] == lines[k];
    }
    assert lines[|init|] == last;
  }

  // ---------------------------------------------------------------------------
  // The ordering loop (logpuzzle.py:44-52)

  /** `place_pattern.search(url)` finds a match. */
  predicate HasPlace(u: string) {
    PlaceSearch(u).Some?
  }

  /** Every URL of urls has a place match. */
  predicate AllPlace(urls: seq<string>) {
    forall u :: u in urls ==> HasPlace(u)
  }

  /** No URL of urls has a place match. */
  predicate NoPlace(urls: seq<string>) {
    forall u :: u in urls ==> !HasPlace(u)
  }

  /** What the ordering loop computes, case by case: with no place URL the plain sort;
      with only place URLs the sort by place key; with both kinds the key lambda
      meets a URL it cannot key, and the call fails. An empty list is left as it is. */
  function Ordered(urls: seq<string>): (r: Result<seq<string>, Error>)
    ensures r.Failure? <==>
      (exists u :: u in urls && HasPlace(u)) && (exists u :: u in urls && !HasPlace(u))
    ensures r.Failure? ==> r.error == NoPlaceKey
    ensures r.Success? ==> multiset(r.value) == multiset(urls)
    ensures urls == [] ==> r == Success([])
  {
    if NoPlace(urls) then Success(Sorted(urls, Identity))
    else if AllPlace(urls) then Success(Sorted(urls, PlaceKey))
    else Failure(NoPlaceKey)
  }

  /** Some URL before position i has a place match. */
  ghost predicate SeenPlace(urls: seq<string>, i: int)
    requires 0 <= i <= |urls|
  {
    exists k :: 0 <= k < i && HasPlace(urls[k])
  }

  lemma SeenPlaceStep(urls: seq<string>, i: int)
    requires 0 <= i < |urls|
    ensures SeenPlace(urls, i + 1) <==> SeenPlace(urls, i) || HasPlace(urls[i])
  {
  }

  lemma SeenPlaceEverywhere(urls: seq<string>)
    ensures SeenPlace(urls, |urls|) <==> !NoPlace(urls)
  {
    if !NoPlace(urls) {
      var u :| u in urls && HasPlace(u);
      var k :| 0 <= k < |urls| && urls[k] == u;
    }
  }

  lemma PlacesOfPermutation(a: seq<string>, b: seq<string>)
    requires multiset(a) == multiset(b)
    ensures AllPlace(a) <==> AllPlace(b)
    ensures NoPlace(a) <==> NoPlace(b)
  {
    assert forall u :: u in a <==> u in multiset(b);
  }

  /** The loop as written: it walks the de-duplicated list it started with, and on
      each URL re-sorts the list built so far, by place key if that URL has a place
      match and plainly otherwise. `sorted(..., key=...)` computes every key before it
      sorts, so it fails as soon as the list holds a URL without a match. */
  method OrderUrls(urls: seq<string>) returns (r: Result<seq<string>, Error>)
    ensures r == Ordered(urls)
  {
    var current := urls;
    for i := 0 to |urls|
      invariant multiset(current) == multiset(urls)
      invariant i == 0 ==> current == urls
      invariant i > 0 ==>
        current == if SeenPlace(urls, i) then Sorted(urls, PlaceKey) else Sorted(urls, Identity)
      invariant SeenPlace(urls, i) ==> AllPlace(urls)
    {
      SeenPlaceStep(urls, i);
      PlacesOfPermutation(current, urls);
      if HasPlace(urls[i]) {
        if !AllPlace(current) {
          assert urls[i] in urls;
          return Failure(NoPlaceKey);
        }
        SortedIsIdempotent(urls, PlaceKey);
        assert i > 0 ==> HasPlace(urls[0]);
        current := Sorted(current, PlaceKey);
      } else {
        assert urls[i] in urls;
        SortedIsIdempotent(urls, Identity);
        current := Sorted(current, Identity);
      }
    }
    SeenPlaceEverywhere(urls);
    r := Success(current);
  }

  /** With no place URL among distinct URLs, the result is strictly increasing: the
      "sorting alphabetically in increasing order" that `read_urls` promises. */
  lemma OrderedWithoutPlace(urls: seq<string>)
    requires Distinct(urls)
    requires forall u :: u in urls ==> !HasPlace(u)
    ensures Ordered(urls).Success?
    ensures forall i, j :: 0 <= i < j < |Ordered(urls).value| ==>
      LexLess(Ordered(urls).value[i], Ordered(urls).value[j])
  {
    StrictlyIncreasing(urls);
  }

  /** With only place URLs, the result is in non-decreasing order of place key, and
      URLs that share a key keep the order in which they were first seen. */
  lemma OrderedWithPlace(urls: seq<string>)
    requires forall u :: u in urls ==> HasPlace(u)
    ensures Ordered(urls).Success?
    ensures IsSortedBy(Ordered(urls).value, PlaceKey)
    ensures forall k :: KeyFilter(Ordered(urls).value, PlaceKey, k) == KeyFilter(urls, PlaceKey, k)
  {
    if urls == [] {
      assert Ordered(urls).value == [];
    } else {
      assert urls[0] in urls;
      SortedIsSorted(urls, PlaceKey);
      forall k {
        SortedIsStable(urls, PlaceKey, k);
      }
    }
  }

  // ---------------------------------------------------------------------------
  // Prefixing with the host (logpuzzle.py:53)

  /** `['http://' + site + url for url in urls]`. */
  function Absolute(site: string, urls: seq<string>): (r: seq<string>)
    ensures |r| == |urls|
    ensures forall i :: 0 <= i < |r| ==> r[i] == "http://" + site + urls[i]
  {
    seq(|urls|, i requires 0 <= i < |urls| => "http://" + site + urls[i])
  }

  /** The prefix can be taken off again, so distinct URLs stay distinct, and a URL is
      in the result exactly when the prefixed form of a listed URL is. */
  lemma {:induction false} AbsoluteIsInjective(site: string, urls: seq<string>)
    ensures forall i :: 0 <= i < |urls| ==>
      Absolute(site, urls)[i][|"http://" + site|..] == urls[i]
    ensures Distinct(urls) ==> Distinct(Absolute(site, urls))
    ensures forall u :: u in urls <==> "http://" + site + u in Absolute(site, urls)
  {
    var pre := "http://" + site;
    var r := Absolute(site, urls);
    forall i | 0 <= i < |urls|
      ensures r[i][|pre|..] == urls[i]
    {
      assert r[i] == pre + urls[i];
    }
    forall u | pre + u in r
      ensures u in urls
    {
      var i :| 0 <= i < |r| && r[i] == pre + u;
      assert (pre + u)[|pre|..] == u;
    }
    forall u | u in urls
      ensures pre + u in r
    {
      var i :| 0 <= i < |urls| && urls[i] == u;
      assert r[i] == pre + u;
    }
  }

  // ---------------------------------------------------------------------------
  // The whole of read_urls (logpuzzle.py:26-54)

  /** What `read_urls` returns for a log named filename whose lines are lines. */
  function UrlsOf(filename: string, lines: seq<string>): (r: Result<seq<string>, Error>)
    ensures r.Failure? <==>
      Site(filename).Failure? || Ordered(Dedup(PuzzleTokens(lines))).Failure?
    ensures Site(filename).Failure? ==> r == Failure(NoSiteInFileName)
    ensures Site(filename).Success? && Ordered(Dedup(PuzzleTokens(lines))).Failure? ==>
      r == Failure(NoPlaceKey)
  {
    match Site(filename)
    case Failure(e) => Failure(e)
    case Success(site) =>
      match Ordered(Dedup(PuzzleTokens(lines)))
      case Failure(e) => Failure(e)
      case Success(sorted) => Success(Absolute(site, sorted))
  }

  /** `read_urls`, step for step. */
  method ReadUrls(filename: string, lines: seq<string>) returns (r: Result<seq<string>, Error>)
    ensures r == UrlsOf(filename, lines)
  {
    var site := Site(filename);
    if site.Failure? {
      return Failure(site.error);
    }
    var found := CollectPuzzleUrls(lines);
    var unique := Dedup(found);
    var sorted := OrderUrls(unique);
    if sorted.Failure? {
      return Failure(sorted.error);
    }
    r := Success(Absolute(site.value, sorted.value));
  }

  /** On success, every puzzle URL found in the log appears exactly once, prefixed
      with `http://` and the host, and nothing else appears. */
  lemma ReadUrlsFindsEachUrlOnce(filename: string, lines: seq<string>)
    requires UrlsOf(filename, lines).Success?
    ensures var out := UrlsOf(filename, lines).value;
      && Distinct(out)
      && |out| == |Dedup(PuzzleTokens(lines))|
      && (forall u :: u in PuzzleTokens(lines) <==> "http://" + Site(filename).value + u in out)
      && (forall o :: o in out ==>
            exists u :: u in PuzzleTokens(lines) && o == "http://" + Site(filename).value + u)
  {
    var site := Site(filename).value;
    var unique := Dedup(PuzzleTokens(lines));
    var sorted := Ordered(unique).value;
    var out := Absolute(site, sorted);
    DistinctPermutation(unique, sorted);
    AbsoluteIsInjective(site, sorted);
    assert forall u :: u in sorted <==> u in multiset(unique);
    assert |sorted| == |multiset(sorted)| == |multiset(unique)| == |unique|;
    forall o | o in out
      ensures exists u :: u in PuzzleTokens(lines) && o == "http://" + site + u
    {
      var i :| 0 <= i < |out| && out[i] == o;
      assert sorted[i] in multiset(unique);
    }
  }

  /** Every URL that reaches the ordering loop is a whole puzzle word, so when it has
      a place match its key is the non-empty text after its last dash that still has
      a character after it. */
  lemma UrlsHaveSuffixKeys(lines: seq<string>, u: string)
    requires u in Dedup(PuzzleTokens(lines)) && HasPlace(u)
    ensures exists d :: (0 <= d < |u| - 1 && u[d] == '-'
      && (forall k :: d < k < |u| - 1 ==> u[k] != '-')
      && PlaceKey(u) == u[d + 1..])
  {
    PuzzleTokensAreLineMatches(lines);
    PlaceKeyOfWord(u);
  }

  /** When the log has no place URL, read_urls returns its URLs in strictly
      increasing order; when every URL is a place URL, it returns them in place-key
      order (the key of a returned URL is that of the URL the host was prefixed to),
      and that list keeps URLs with equal keys in order of first appearance. */
  lemma ReadUrlsOrder(filename: string, lines: seq<string>)
    requires Site(filename).Success?
    ensures var unique := Dedup(PuzzleTokens(lines));
      (forall u :: u in unique ==> !HasPlace(u)) ==>
        && UrlsOf(filename, lines).Success?
        && var out := UrlsOf(filename, lines).value;
           forall i, j :: 0 <= i < j < |out| ==> LexLess(out[i], out[j])
    ensures var unique := Dedup(PuzzleTokens(lines));
      var pre := "http://" + Site(filename).value;
      (forall u :: u in unique ==> HasPlace(u)) ==>
        && UrlsOf(filename, lines).Success?
        && var out := UrlsOf(filename, lines).value;
           && out == Absolute(Site(filename).value, Ordered(unique).value)
           && (forall i, j :: 0 <= i < j < |out| ==>
                 LexLe(PlaceKey(out[i][|pre|..]), PlaceKey(out[j][|pre|..])))
           && forall k :: KeyFilter(Ordered(unique).value, PlaceKey, k) == KeyFilter(unique, PlaceKey, k)
  {
    var site := Site(filename).value;
    var pre := "http://" + site;
    var unique := Dedup(PuzzleTokens(lines));
    if forall u :: u in unique ==> !HasPlace(u) {
      OrderedWithoutPlace(unique);
      var sorted := Ordered(unique).value;
      var out := Absolute(site, sorted);
      forall i, j | 0 <= i < j < |out|
        ensures LexLess(out[i], out[j])
      {
        LexLessCommonPrefix(pre, sorted[i], sorted[j]);
      }
    }
    if forall u :: u in unique ==> HasPlace(u) {
      OrderedWithPlace(unique);
      AbsoluteIsInjective(site, Ordered(unique).value);
    }
  }
}
