/** The pure part of `download_images` (logpuzzle.py:57-87): the local file name each
    URL is saved under, and the text of index.html. */
module Download {
  import opened Wrappers

  // ---------------------------------------------------------------------------
  // `str(i)` for a natural number i

  predicate IsDigit(c: char) {
    '0' <= c <= '9'
  }

  function DigitChar(d: nat): (c: char)
    requires d < 10
    ensures IsDigit(c)
  {
    "0123456789"[d]
  }

  /** `str(n)`: decimal digits, most significant first, no leading zero. */
  function Decimal(n: nat): (s: string)
    ensures |s| > 0
    ensures forall k :: 0 <= k < |s| ==> IsDigit(s[k])
    ensures |s| > 1 ==> s[0] != '0'
  {
    if n < 10 then [DigitChar(n)] else Decimal(n / 10) + [DigitChar(n % 10)]
  }

  function DigitValue(c: char): (v: nat)
    requires IsDigit(c)
  {
    (c as int) - ('0' as int)
  }

  /** The value of a string of decimal digits. */
  function DecimalValue(s: string): (v: nat)
    requires forall k :: 0 <= k < |s| ==> IsDigit(s[k])
  {
    if s == [] then 0
    else 10 * DecimalValue(s[..|s| - 1]) + DigitValue(s[|s| - 1])
  }

  /** Reading back what `str` wrote gives the number again. */
  lemma {:induction false} DecimalRoundTrip(n: nat)
    ensures DecimalValue(Decimal(n)) == n
  {
    if n >= 10 {
      var s := Decimal(n);
      assert s[..|s| - 1] == Decimal(n / 10);
      DecimalRoundTrip(n / 10);
    }
  }

  // ---------------------------------------------------------------------------
  // Local file names (logpuzzle.py:72-74)

  /** `dest_dir + '/img' + str(i)`. */
  function LocalName(destDir: string, i: nat): (name: string)
    ensures |name| > |destDir| + 4
    ensures name[..|destDir| + 4] == destDir + "/img"
    ensures var d := name[|destDir| + 4..];
      && (forall k :: 0 <= k < |d| ==> IsDigit(d[k]))
      && (|d| > 1 ==> d[0] != '0')
      && DecimalValue(d) == i
  {
    DecimalRoundTrip(i);
    var name := destDir + "/img" + Decimal(i);
    assert name[|destDir| + 4..] == Decimal(i);
    name
  }

  /** Different positions are saved under different names, so n URLs give n files. */
  lemma LocalNamesDiffer(destDir: string, i: nat, j: nat)
    requires i != j
    ensures LocalName(destDir, i) != LocalName(destDir, j)
  {
  }

  /** The retrieval loop, with each `urlretrieve(url, name)` recorded as the pair
      (url, name) instead of being carried out: URL i is saved as img<i>, in order. */
  method RetrievalPlan(imgUrls: seq<string>, destDir: string) returns (plan: seq<(string, string)>)
    ensures |plan| == |imgUrls|
    ensures forall i :: 0 <= i < |plan| ==> plan[i] == (imgUrls[i], LocalName(destDir, i))
  {
    plan := [];
    for i := 0 to |imgUrls|
      invariant |plan| == i
      invariant forall k :: 0 <= k < i ==> plan[k] == (imgUrls[k], LocalName(destDir, k))
    {
      plan := plan + [(imgUrls[i], destDir + "/img" + Decimal(i))];
    }
  }

  // ---------------------------------------------------------------------------
  // The index page (logpuzzle.py:79-87)

  const TagOpen: string := "<img src=\"img"
  const TagClose: string := "\">"
  const Header: string := "<html>\n<body>\n"
  const Footer: string := "\n</body>\n</html>"

  /** `'<img src="' + 'img' + str(i) + '">'`. */
  function Tag(i: nat): (tag: string) {
    TagOpen + Decimal(i) + TagClose
  }

  /** `image_string` after the loop has seen n URLs. */
  function ImageTags(n: nat): (tags: string) {
    if n == 0 then "" else ImageTags(n - 1) + Tag(n - 1)
  }

  /** The loop that builds `image_string` (logpuzzle.py:80-82). */
  method BuildImageString(imgUrls: seq<string>) returns (imageString: string)
    ensures imageString == ImageTags(|imgUrls|)
  {
    imageString := "";
    for i := 0 to |imgUrls|
      invariant imageString == ImageTags(i)
    {
      imageString := imageString + "<img src=\"" + "img" + Decimal(i) + "\">";
    }
  }

  /** What is written to index.html for n URLs. */
  function IndexPage(n: nat): (page: string) {
    Header + ImageTags(n) + Footer
  }

  /** The page for the URLs img_urls, built as download_images builds it. */
  method BuildIndexPage(imgUrls: seq<string>) returns (page: string)
    ensures page == IndexPage(|imgUrls|)
  {
    var imageString := BuildImageString(imgUrls);
    page := "<html>\n<body>\n" + imageString + "\n</body>\n</html>";
  }

  // A reader of the page, to state what the page holds.

  /** The longest prefix of s made of digits. */
  function DigitPrefix(s: string): (d: string)
    ensures |d| <= |s| && d == s[..|d|]
    ensures forall k :: 0 <= k < |d| ==> IsDigit(d[k])
    ensures |d| < |s| ==> !IsDigit(s[|d|])
  {
    if s == [] || !IsDigit(s[0]) then []
    else
      var rest := DigitPrefix(s[1..]);
      assert s[..1 + |rest|] == [s[0]] + s[1..][..|rest|];
      [s[0]] + rest
  }

  /** The image numbers of a run of `<img src="img<digits>">` tags, in order, or None
      if s is anything else. */
  function ParseTags(s: string): (ns: Option<seq<nat>>)
    decreases |s|
  {
    if s == [] then Some([])
    else if |s| < |TagOpen| || s[..|TagOpen|] != TagOpen then None
    else
      var rest := s[|TagOpen|..];
      var d := DigitPrefix(rest);
      var after := rest[|d|..];
      if |d| == 0 || |after| < |TagClose| || after[..|TagClose|] != TagClose then None
      else
        match ParseTags(after[|TagClose|..])
        case None => None
        case Some(ns) => Some([DecimalValue(d)] + ns)
  }

  /** The image numbers on a page, or None if it is not header, tags and footer. */
  function ParsePage(page: string): (ns: Option<seq<nat>>) {
    if |page| < |Header| + |Footer| then None
    else if page[..|Header|] != Header || page[|page| - |Footer|..] != Footer then None
    else ParseTags(page[|Header|..|page| - |Footer|])
  }

  /** 0, 1, ..., n - 1. */
  function Range(n: nat): (r: seq<nat>)
    ensures |r| == n && forall i :: 0 <= i < n ==> r[i] == i
  {
    if n == 0 then [] else Range(n - 1) + [n - 1]
  }

  function Prepend(p: seq<nat>, o: Option<seq<nat>>): (r: Option<seq<nat>>) {
    match o
    case None => None
    case Some(q) => Some(p + q)
  }

  lemma TagThenRest(i: nat, rest: string)
    ensures ParseTags(Tag(i) + rest) == Prepend([i], ParseTags(rest))
  {
    var s := Tag(i) + rest;
    var afterOpen := Decimal(i) + TagClose + rest;
    assert s[..|TagOpen|] == TagOpen;
    assert s[|TagOpen|..] == afterOpen;
    DigitsBeforeQuote(Decimal(i), TagClose + rest);
    assert afterOpen == Decimal(i) + (TagClose + rest);
    assert afterOpen[|Decimal(i)|..] == TagClose + rest;
    assert (TagClose + rest)[..|TagClose|] == TagClose;
    assert (TagClose + rest)[|TagClose|..] == rest;
    DecimalRoundTrip(i);
  }

  lemma {:induction false} DigitsBeforeQuote(d: string, rest: string)
    requires forall k :: 0 <= k < |d| ==> IsDigit(d[k])
    requires rest != [] && !IsDigit(rest[0])
    ensures DigitPrefix(d + rest) == d
  {
    if d == [] {
      assert d + rest == rest;
    } else {
      assert (d + rest)[1..] == d[1..] + rest;
      DigitsBeforeQuote(d[1..], rest);
      assert d == [d[0]] + d[1..];
    }
  }

  lemma PrependTwice(a: seq<nat>, b: seq<nat>, o: Option<seq<nat>>)
    ensures Prepend(a, Prepend(b, o)) == Prepend(a + b, o)
  {
    if o.Some? {
      assert a + (b + o.value) == (a + b) + o.value;
    }
  }

  lemma {:induction false} ImageTagsThenRest(n: nat, rest: string)
    ensures ParseTags(ImageTags(n) + rest) == Prepend(Range(n), ParseTags(rest))
  {
    if n == 0 {
      NoTagsThenRest(rest);
    } else {
      ImageTagsThenRest(n - 1, Tag(n - 1) + rest);
      TagThenRest(n - 1, rest);
      ParsesInSequence(ParseTags, ImageTags(n - 1), Tag(n - 1), rest, Range(n - 1), [n - 1]);
      assert Range(n - 1) + [n - 1] == Range(n);
    }
  }

  /** For any reader, if a then b + rest reads as na followed by the reading of b + rest,
      and b then rest reads as nb followed by the reading of rest, then
      (a + b) + rest reads as na + nb followed by the reading of rest. */
  lemma ParsesInSequence(parse: string -> Option<seq<nat>>, a: string, b: string, rest: string,
                         na: seq<nat>, nb: seq<nat>)
    requires parse(a + (b + rest)) == Prepend(na, parse(b + rest))
    requires parse(b + rest) == Prepend(nb, parse(rest))
    ensures parse((a + b) + rest) == Prepend(na + nb, parse(rest))
  {
    assert (a + b) + rest == a + (b + rest);
    PrependTwice(na, nb, parse(rest));
  }

  lemma NoTagsThenRest(rest: string)
    ensures ParseTags(ImageTags(0) + rest) == Prepend(Range(0), ParseTags(rest))
  {
    assert ImageTags(0) + rest == rest;
    match ParseTags(rest) {
      case None =>
      case Some(q) => assert [] + q == q;
    }
  }

  /** The page for n URLs holds exactly n image tags, for img0 up to img<n-1>, in
      that order, between the fixed header and footer. */
  lemma {:induction false} IndexPageLists(n: nat)
    ensures ParsePage(IndexPage(n)) == Some(Range(n))
  {
    var body := ImageTags(n);
    ThreePieces(Header, body, Footer);
    ImageTagsThenRest(n, "");
    assert body + "" == body;
    match ParseTags("") {
      case Some(q) => assert Range(n) + [] == Range(n);
    }
  }

  lemma ThreePieces(a: string, b: string, c: string)
    ensures |a + b + c| >= |a| + |c|
    ensures (a + b + c)[..|a|] == a
    ensures (a + b + c)[|a + b + c| - |c|..] == c
    ensures (a + b + c)[|a|..|a + b + c| - |c|] == b
  {
  }
}
