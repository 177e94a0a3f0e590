# Log Puzzle: URL extraction and index page, in Dafny

logpuzzle.py reads an Apache access log and finds the "puzzle" image URLs in it. It
takes the host name from the log's own file name. It drops repeated URLs, orders the
rest, and prefixes each with `http://<host>`. Then it downloads the images as
`img0`, `img1`, … and writes an `index.html` that shows them in order.

This project models the deterministic core of that program:

- `read_urls`, step by step:
  - the host name matched by `_(\S+)`;
  - the per-line loop that collects the first `(\S+puzzle\S+)` token of each line;
  - the `dict.fromkeys` de-duplication;
  - the re-sorting loop over the place pattern `\S+puzzle\S+-\S+-(\S+)`;
  - the `http://` prefixing.
- `download_images`: the local file names and the exact index page text.

Files and modules:

- `wrappers.dfy` (`Wrappers`): the `Option` and `Result` types.
- `text.dfy` (`Text`): ASCII whitespace, runs of non-whitespace, and where a greedy `\S+` stops.
- `patterns.dfy` (`Patterns`): the three regular expressions, written as matchers.
  - Each has a predicate that says when a stretch of text matches the pattern.
  - Each has a contract that says which match `re.search` reports. That is the leftmost
    one, and at that position the one backtracking reaches first: every greedy `\S+`
    first tries its longest extent.
- `seqs.dfy` (`Seqs`): lists without repeats, first occurrences, and `Dedup` (`list(dict.fromkeys(...))`).
- `sorting.dfy` (`Sorting`): Python's `<` on `str`, and `sorted(..., key=...)`.
  - `Sorted` is defined by stable insertion.
  - `Sorted` is proved to be sorted, a permutation and stable.
  - `StableSortIsSorted` proves it is the only list with those three properties. So it
    is what Python's sort returns.
- `logpuzzle.dfy` (`LogPuzzle`): the `read_urls` pipeline.
  - The two loops of `read_urls` are methods, proved against specification functions.
  - `ReadUrls` is the whole function.
  - Its two failures are values of `Error`. Both are the AttributeError that Python raises
    when `.group` is called on `None`.
- `download.dfy` (`Download`):
  - `str(i)`;
  - the retrieval loop, recorded as (URL, file name) pairs;
  - the `image_string` loop and the page text;
  - a reader of the page, used to state what the page contains.

What the ordering loop does (logpuzzle.py:46-52):

- It loops over the de-duplicated list it started with. On every URL it re-assigns
  `puzzle_urls`: it sorts by place key if that URL matches the place pattern, and plainly
  otherwise.
- `OrderUrls` models this loop literally. It is proved equal to `Ordered`, which has
  three cases:
  - No URL has a place match: the result is the plain sort.
  - Every URL has one: the result is the sort by place key. Sorting a list that is
    already in key order changes nothing.
  - Some URLs have one and some do not: the key lambda is reached on a URL without a
    match, and the call fails.

Two consequences of the code as written:

- With some place URLs and some without, the ordering loop does not settle on either
  sort. On the first URL that has a place match, the key lambda (logpuzzle.py:49-50)
  is applied to a URL without one, and `.group` on `None` raises AttributeError.
- For a log named `foo_bar.log` the host is `bar.log`, because `\S+` is greedy and
  takes the whole rest of the name (logpuzzle.py:32-33).

## Model

| member | source | states |
|---|---|---|
| `Text.RunEnd` | logpuzzle.py:32 | a greedy `\S+` from i stops at the first whitespace character at or after i, or at the end; everything before that point is non-whitespace |
| `Patterns.SiteSearch` | logpuzzle.py:32-33 | `_(\S+)` is found exactly when some `_` is followed by a non-whitespace character; the group starts after the first such `_`, is all non-whitespace, and reaches up to whitespace or the end |
| `Patterns.PuzzleFrom` | logpuzzle.py:37-39 | `(\S+puzzle\S+)` finds nothing exactly when no stretch of the line matches it; otherwise its match is a whole whitespace-delimited token, no match starts earlier, and no match at the same start is longer |
| `Patterns.PuzzleSearch` | logpuzzle.py:39 | `re.search(r'(\S+puzzle\S+)', line)` finds nothing exactly when no stretch of the line matches; otherwise its match is a whole token, no match starts earlier, and none at the same start is longer |
| `Patterns.PuzzleSearchIsToken` | logpuzzle.py:37-41 | the entry a line contributes is a whole token without whitespace, with "puzzle" after at least one character and before at least one |
| `Patterns.PlaceFrom` | logpuzzle.py:45-47 | the place pattern finds nothing exactly when no stretch matches; otherwise the reported match starts at a token start, no match starts earlier, and every match at that start has its second dash and its end no later |
| `Patterns.PlaceSearch` | logpuzzle.py:47 | `place_pattern.search(url)` finds nothing exactly when no stretch of the URL matches; otherwise it reports the leftmost match with the greatest second dash and end |
| `Patterns.PlaceGroupIsBacktrackingGroup` | logpuzzle.py:45-50 | the match backtracking reports (the lexicographically greatest choice of "puzzle" position, both dashes and end) has the reported second dash and end, so group 1 is the one Python returns |
| `Patterns.PlaceKey` | logpuzzle.py:49-50 | the `key=` lambda: with no place match it gives `""` (where Python raises, see `Ordered`); with one, the key is non-empty, without whitespace, ends where the match ends, follows a `-`, and has no `-` except possibly its last character |
| `Patterns.PlaceKeyOfWord` | logpuzzle.py:45-50 | for a URL without whitespace, the place key is the non-empty text after the last `-` that has a character after it |
| `LogPuzzle.Site` | logpuzzle.py:32-34 | the host is the non-empty run of non-whitespace after the first `_` that is followed by non-whitespace; with no such `_` the call fails with `NoSiteInFileName` |
| `LogPuzzle.LineUrl` | logpuzzle.py:39-41 | a line contributes nothing exactly when no stretch of it matches the puzzle pattern; what it contributes is a puzzle word that occurs in the line as a whole whitespace-delimited token matching the pattern, with no match starting earlier |
| `LogPuzzle.PuzzleTokens` | logpuzzle.py:38-41 | the list the line loop builds has at most one entry per line, and every entry is a puzzle word |
| `LogPuzzle.CollectPuzzleUrls` | logpuzzle.py:38-41 | the loop over the lines appends each line's match, in line order (equals `PuzzleTokens`) |
| `LogPuzzle.PuzzleTokensAreLineMatches` | logpuzzle.py:37-41 | at most one entry per line; an entry is in the list exactly when it is some line's match; every entry is a whole puzzle token |
| `LogPuzzle.SomeLineYieldsStep` | logpuzzle.py:38-41 | a URL comes from one of the lines read so far plus one more exactly when it comes from an earlier line or from the new one |
| `Seqs.Dedup` | logpuzzle.py:42 | the de-duplicated list has no repeats and holds exactly the elements of the input |
| `Seqs.DedupKeepsFirstOccurrenceOrder` | logpuzzle.py:42 | kept elements are in order of their first occurrence in the input |
| `Seqs.DedupOfDistinct` | logpuzzle.py:42 | a list without repeats is left unchanged |
| `Sorting.LexLeTotalOrder` | logpuzzle.py:52 | Python's `<=` on str is total, antisymmetric and transitive |
| `Sorting.Sorted` | logpuzzle.py:49-52 | `sorted` returns a permutation of its input, of the same length |
| `Sorting.SortedIsSorted` | logpuzzle.py:49-52 | `sorted` returns its input in non-decreasing order of key |
| `Sorting.SortedIsStable` | logpuzzle.py:49-50 | elements with equal keys keep their input order |
| `Sorting.StableSortIsSorted` | logpuzzle.py:49-52 | any list in key order that keeps every key's elements in input order equals `Sorted`: the model of `sorted` is the stable sort |
| `Sorting.SortedIsIdempotent` | logpuzzle.py:46-52 | sorting a sorted list again gives the same list |
| `Sorting.LexLessCommonPrefix` | logpuzzle.py:52-53 | putting the same prefix in front of two strings does not change how they compare |
| `Sorting.StrictlyIncreasing` | logpuzzle.py:52 | a plainly sorted list of distinct strings is strictly increasing |
| `LogPuzzle.Ordered` | logpuzzle.py:46-52 | the ordering fails, with `NoPlaceKey`, exactly when some URLs have a place match and some do not; otherwise it returns a permutation of its input; an empty list stays empty |
| `LogPuzzle.OrderUrls` | logpuzzle.py:46-52 | the re-sorting loop, run as written, returns what `Ordered` gives |
| `LogPuzzle.OrderedWithoutPlace` | logpuzzle.py:46-52 | with no place URL among distinct URLs, the result is strictly increasing in string order |
| `LogPuzzle.OrderedWithPlace` | logpuzzle.py:46-52 | with only place URLs, the result is in non-decreasing key order, and URLs that share a key keep their first-seen order |
| `LogPuzzle.Absolute` | logpuzzle.py:53 | the output has the same length and order as its input; element i is `"http://" + site` followed by URL i |
| `LogPuzzle.AbsoluteIsInjective` | logpuzzle.py:53 | the prefix comes off again; distinct URLs stay distinct; a URL is listed exactly when its prefixed form is in the output |
| `LogPuzzle.UrlsOf` | logpuzzle.py:26-54 | `read_urls` fails exactly when the host cannot be found or the ordering fails; a missing host is reported first, as `NoSiteInFileName`, and a mixed list as `NoPlaceKey` |
| `LogPuzzle.ReadUrls` | logpuzzle.py:26-54 | `read_urls` run step by step returns what `UrlsOf` gives |
| `LogPuzzle.ReadUrlsFindsEachUrlOnce` | logpuzzle.py:26-54 | on success, the output has no repeats and one entry per distinct puzzle URL; a URL of the log appears, prefixed with `http://` and the host, exactly when it is a puzzle URL, and every output entry is such a prefixed URL |
| `LogPuzzle.UrlsHaveSuffixKeys` | logpuzzle.py:45-50 | every URL reaching the ordering loop that has a place match is keyed by the non-empty text after its last `-` that has a character after it |
| `LogPuzzle.ReadUrlsOrder` | logpuzzle.py:27-53 | with a host and no place URLs, `read_urls` succeeds and the URLs it returns are strictly increasing; with only place URLs it succeeds, the URLs it returns are in the place-key order of the URLs they were built from, and that list keeps URLs with equal keys in first-seen order |
| `Download.Decimal` | logpuzzle.py:74 | `str(i)` is a non-empty string of digits without a leading zero |
| `Download.DecimalRoundTrip` | logpuzzle.py:82 | reading back the digits of `str(i)` gives i |
| `Download.LocalName` | logpuzzle.py:74 | the local name is `dest_dir` followed by `/img` and then digits, without a leading zero, that read back as the URL's position: `str(i)` |
| `Download.LocalNamesDiffer` | logpuzzle.py:72-74 | different positions get different local file names, so n URLs give n files |
| `Download.RetrievalPlan` | logpuzzle.py:72-74 | URL i, and only URL i, is saved as `dest_dir + "/img" + str(i)`, in list order |
| `Download.ImageTagsThenRest` | logpuzzle.py:80-82 | reading the tags written for n URLs, followed by any text, gives the numbers 0 … n-1 and then whatever that text reads as |
| `Download.BuildImageString` | logpuzzle.py:80-82 | the `image_string` loop produces `ImageTags(n)` for n URLs |
| `Download.BuildIndexPage` | logpuzzle.py:85-87 | the text written to index.html is the header, the image tags and the footer |
| `Download.IndexPageLists` | logpuzzle.py:80-87 | reading the page back gives exactly the image numbers 0 … n-1, in increasing order, between the fixed header and footer |

## Left out

- Opening and reading the log (logpuzzle.py:35-36): file I/O. The lines arrive as a
  parameter, as `readlines()` returns them. FileNotFoundError is therefore not modelled.
- Creating the directory and the caught FileExistsError (logpuzzle.py:66-69): operating-system I/O.
- `urllib.request.urlretrieve` (logpuzzle.py:74): network I/O. `RetrievalPlan` records
  which URL goes to which file instead. A failed download is not modelled.
- `os.path.join` and writing index.html (logpuzzle.py:77, 85-87): file I/O. Only the
  string that is written is modelled.
- The `print` calls, `create_parser`, `main` and `sys.exit` (logpuzzle.py:73, 90-119):
  console output and argument parsing.
- Unicode whitespace: Python's `\s` on str also matches characters such as `\x1c`-`\x1f`,
  `\x85` and `\xa0`. The model uses only the ASCII whitespace characters.
- The general `re` engine: only the three patterns used here are modelled.
- Timsort itself: `sorted` is modelled by stable insertion. `StableSortIsSorted` shows
  that every stable sort gives the same result.
