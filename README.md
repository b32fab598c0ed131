# White House presidential-actions scraper, modelled in Dafny

This project models the crawl and save logic of `scrape.py`, a scraper that
collects presidential actions (executive orders, proclamations, memoranda) from
`https://www.whitehouse.gov/presidential-actions/` and saves them as JSON files.
The scraper's work has these steps:

1. It reads the page count off the listing root's pagination anchors (`get_total_pages`).
2. It generates the URL of every listing page (`generate_page_urls`).
3. It finds the article URLs on each listing page with a fixed regular expression.
4. It extracts a title and a body from each article (`get_action_content`).
5. It keeps the articles that have both a title and a body (`collect_page_actions`, `collect_all_actions`).
6. It writes one file per action under a slug of its title, then an `index.json` (`save_actions`).

The network and the HTML parser are inputs to the model:

- `fetch: string -> string` returns the body of a URL. `""` stands for any failed request.
- `parse: string -> ParsedPage` returns what the parser reports about a body: the anchors' `href`s, the first `<h1>` text if any, and the `<p>` texts.

The modules follow the program's structure:

- `Text` holds the string operations Python provides: ASCII character classes, `strip`/`rstrip`, `in`, `split(sep)[-1]`, `str.join`, `int()` and `str()` on naturals.
- `Pagination` holds the page-number parsing, the maximum, and the page URLs.
- `Links` holds the `re.findall` matcher for the article-URL pattern.
- `Article` holds the title and content extraction.
- `Crawl` holds spec functions for the crawl and the `Scraper` class. The class's methods run the source's loops and are proved equal to those functions.
- `Persist` holds the file-name slug, the output directory as a map from file name to record, and the `OutputDirectory` class. Its `SaveActions` method runs the write loop and is proved equal to the spec function `Saved`.

The model keeps one quirk of the source. A root page whose only pagination links name page 0 makes `get_total_pages` return 0. Then no listing page is visited, not even the root.

## Model

| member | source | states |
|---|---|---|
| Text.LowerAll | scrape.py:123 | `lower()`: the same length, each character in its lower-case form; LowerAllKeepsLower states that text without an upper-case letter is unchanged |
| Text.Strip | scrape.py:69 | `strip()` with no argument, which drops ASCII whitespace at both ends; StripBySlice, StripByIdempotent, StripKeepsTrimmed and StripHasNoEdgeSpace state its properties |
| Text.StripBy | scrape.py:123 | `str.strip(chars)` for the characters a predicate picks, used as `strip('-')` in the slug; StripBySlice, StripByIdempotent and StripByKeepsTrimmed state its properties |
| Text.LStrip | scrape.py:69 | the result is a suffix of the input; everything cut is droppable; the result does not start with a droppable character |
| Text.RStrip | scrape.py:45 | the result is a prefix of the input; everything cut is droppable; the result does not end with a droppable character |
| Text.StripBySlice | scrape.py:69 | `strip` keeps one contiguous piece, everything cut on either side is droppable, and the piece has no droppable character at either end |
| Text.StripByIdempotent | scrape.py:73 | stripping twice equals stripping once |
| Text.Contains | scrape.py:43 | the `in` test on strings, a search from index 0; ContainsIff states that it holds exactly when the substring occurs at some index |
| Text.FindFrom | scrape.py:43 | `Some(k)` is an occurrence at or after the start; `None` means there is no occurrence after the start |
| Text.ContainsIff | scrape.py:43 | the substring test holds exactly when the substring occurs at some index |
| Text.LastPiece | scrape.py:45 | `split(sep)[-1]` is a suffix; it is the whole text when `sep` does not occur, and otherwise it directly follows an occurrence of `sep` |
| Text.LastPieceHasNoSep | scrape.py:45 | the last piece of a split never contains the separator |
| Text.LastPieceAfter | scrape.py:45 | for a separator that cannot overlap itself, the last piece of `a + sep + b` is `b` when `b` has no `sep` |
| Text.Join | scrape.py:73 | `sep.join(parts)`, the parts in order with `sep` between neighbours; JoinEnds states when it is empty and what its first and last characters are |
| Text.ReplaceChar | scrape.py:69 | `replace` of one character by another: the same length, every `from` becomes `to` and every other character is kept |
| Text.JoinEnds | scrape.py:73 | joining non-empty parts is empty only for no parts; otherwise it starts with the first part's first character and ends with the last part's last character |
| Text.ParseDecimal | scrape.py:45 | `int()` on a string: the value of a non-empty run of at most 4300 ASCII digits, and `None` for anything else, standing for the `ValueError`, including the one CPython raises past its default limit of 4300 digits; DecimalRoundTrip states that it inverts ToDecimal within that limit |
| Text.ToDecimal | scrape.py:55 | `str(n)` for a natural number; DecimalRoundTrip and ToDecimalInjective state that it is a numeral that parses back to `n` and that distinct numbers print differently |
| Text.DecimalRoundTrip | scrape.py:45 | `str(n)` is a decimal numeral with a leading zero only for 0, whose value is `n`; `int(str(n)) == n` when `str(n)` has at most 4300 digits, and `int()` refuses it beyond |
| Text.ToDecimalInjective | scrape.py:55 | distinct page numbers print differently |
| Text.ToDecimalMonotone | scrape.py:55-56 | a smaller page number never prints in more digits |
| Text.ParsedPrintsShort | scrape.py:45 | a number `int()` accepts prints back in no more digits than it was read from, so within the 4300-digit limit |
| Pagination.PageNumberOf | scrape.py:42-48 | the page number one href names: `None` unless it contains `presidential-actions/page/`, else `int()` of its text after the last `page/` with trailing `/` removed, and `None` where that raises `ValueError`, including a numeral past 4300 digits; PageNumbersExactly and PageUrlRoundTrip state its properties |
| Pagination.PageNumbers | scrape.py:40-48 | the numbers the hrefs name, in href order, skipping hrefs that name none; PageNumbersExactly states which numbers it holds |
| Pagination.TotalPages | scrape.py:35-50 | `max` of the collected numbers, or 1 when there are none; TotalPagesIsMax states that it bounds every number and is one of them |
| Pagination.Max | scrape.py:50 | `max` returns an element that is at least every element |
| Pagination.PageNumbersExactly | scrape.py:40-48 | a number is collected exactly when some href contains `presidential-actions/page/` and its text after the last `page/`, with trailing `/` removed, parses as that number |
| Pagination.TotalPagesIsMax | scrape.py:40-50 | the page count is at least every page number an href names and is one of them; when no href names one it is 1 |
| Pagination.PageUrl | scrape.py:55 | the URL of one listing page: the base for page 1 or less, else `base + "page/" + n + "/"`; PageUrlRoundTrip states that a pagination link generated this way parses back to `n` |
| Pagination.PageUrls | scrape.py:52-57 | the URLs of pages 1 to n in order; PageUrlsShape and PageUrlsDistinct state its length, its elements and that they are distinct |
| Pagination.PageUrlsShape | scrape.py:52-57 | there are `max(n, 0)` URLs; the first is the base URL and the k-th (k > 1) is `base + "page/" + k + "/"` |
| Pagination.PageUrlsDistinct | scrape.py:52-57 | no two listing pages share a URL |
| Pagination.PageUrlRoundTrip | scrape.py:43-55 | for a base ending in `presidential-actions/`, the URL generated for page n > 1 is a pagination link that parses back to n when n has at most 4300 digits, and names no page beyond |
| Pagination.PagesWithinDigitLimit | scrape.py:45-57 | every page from 1 to the page count prints in at most 4300 digits, so the page URLs never print a number `int()` would have refused |
| Crawl.DefaultBaseUrlIsListing | scrape.py:13 | the default base URL ends with the listing path, so the round trip applies to it |
| Links.IsDetailUrl | scrape.py:85 | a whole string the pattern matches: the prefix `https://www.whitehouse.gov/presidential-actions/`, four digits, `/`, two digits, `/`, and a non-empty slug without `/`; FindDetailUrls and MatchAtComplete state what is found with it |
| Links.SlugEnd | scrape.py:85 | where the greedy `[^/]+` stops: the first `/` at or after the start, or the end of the text, with no `/` before it |
| Links.MatchAt | scrape.py:84-87 | a match at i is a detail URL (prefix, four digits, `/`, two digits, `/`, non-empty slug without `/`) ending at the text's end or at a `/` |
| Links.MatchAtComplete | scrape.py:84-87 | wherever a detail URL starts, the pattern matches there, and the greedy slug is at least as long |
| Links.MatchesFrom | scrape.py:84-87 | the reported spans lie in the text, ordered left to right and non-overlapping |
| Links.MatchesFromSound | scrape.py:84-87 | every reported span is a match of the pattern |
| Links.MatchesFromComplete | scrape.py:84-87 | every position where the pattern matches is reported or lies inside a reported match |
| Links.FindDetailUrls | scrape.py:84-87 | one URL per reported span, each a detail URL |
| Links.SlashEndsUrl | scrape.py:84-87 | a page that is one detail URL followed by `/` yields exactly that URL |
| Links.SlugAbsorbsTrailingMarkup | scrape.py:84-87 | a page that is one detail URL followed by markup without `/` yields a single match that runs on through that markup to the end of the page |
| Article.TitleCaseFrom | scrape.py:69 | the left-to-right scan of `title()`, which remembers whether the previous character was a letter; it keeps the length, and TitleCaseAt states what it does to each character |
| Article.TitleCase | scrape.py:69 | `title()`, the scan started as if after a non-letter; TitleCaseAt, TitleCaseOrdinal and TitleCaseOfWords state its properties |
| Article.TitleCaseAt | scrape.py:69 | `title()` lower-cases a letter after a letter, upper-cases any other letter, and keeps every other character |
| Article.TitleCaseOrdinal | scrape.py:69 | `"2nd".title()` is `"2Nd"` |
| Article.TitleFromUrl | scrape.py:69 | the fallback title: the URL's last `/`-segment with hyphens replaced by spaces, then `title()`; TitleFromUrlShape and TitleFromUrlOfWords state its properties |
| Article.TitleFromUrlShape | scrape.py:69 | the fallback title is as long as the URL's last segment, has a space for each hyphen, contains no `/` or `-`, and differs from the segment only in letter case |
| Article.TitleCaseOfWords | scrape.py:69 | `title()` of two lower-case words separated by a space capitalises each word |
| Article.TitleFromUrlOfWords | scrape.py:69 | a URL whose last segment is two lower-case words joined by a hyphen, such as `some-order`, gives both words capitalised and separated by a space (`"Some Order"`) |
| Article.CleanParagraphs | scrape.py:72-73 | the stripped text of every paragraph whose stripped text is non-empty, in document order; CleanParagraphsStripped, CleanParagraphsEmpty and CleanParagraphsAppend state its properties |
| Article.Content | scrape.py:72-73 | the cleaned paragraphs joined by a blank line; ContentShape states when it is empty and that it has no whitespace at either end |
| Article.CleanParagraphsStripped | scrape.py:72-73 | every surviving paragraph is non-empty and already stripped |
| Article.CleanParagraphsEmpty | scrape.py:72-73 | no paragraph survives exactly when every paragraph is blank |
| Article.CleanParagraphsAppend | scrape.py:72-73 | cleaning keeps document order across consecutive runs of paragraphs |
| Article.ContentShape | scrape.py:72-73 | the content is empty exactly when no paragraph has text; otherwise it has no whitespace at either end |
| Article.Extract | scrape.py:59-75 | an empty body gives `("", "")`; the content is empty exactly when the body is empty or every paragraph is blank |
| Article.ExtractTwoParagraphs | scrape.py:59-75 | a trimmed heading and two trimmed paragraphs give the heading as title and the paragraphs joined by a blank line as content |
| Crawl.Kept | scrape.py:93 | the test `if title and content`; ActionsOfExactly states that the collected pairs are exactly the kept extractions |
| Crawl.ActionContent | scrape.py:59-75 | the extraction of one article from its fetched body and the parser's report; FailedArticleNotKept states the failed-fetch case, and Scraper.GetActionContent returns it |
| Crawl.ActionsOf | scrape.py:89-99 | every collected pair has a non-empty title and non-empty content |
| Crawl.ActionsOfExactly | scrape.py:89-99 | a pair is collected exactly when it is the non-empty extraction of one of the page's URLs |
| Crawl.ActionsOfAppend | scrape.py:89-99 | collecting two runs of URLs gives the two results in order |
| Crawl.DroppedArticleIsSkipped | scrape.py:90-97 | an article that yields no kept pair leaves the result as if its URL were absent |
| Crawl.FailedArticleNotKept | scrape.py:61-63 | an article that cannot be fetched gives `("", "")` and is not kept |
| Crawl.PageActions | scrape.py:77-99 | every pair collected from a listing page is kept |
| Crawl.RootHrefs | scrape.py:37-42 | the hrefs of the root page's anchors, none when the root fetch fails; Scraper.GetTotalPages is proved to return TotalPages of them, and RootFailureCollectsNothing states the failed-fetch case |
| Crawl.AllActions | scrape.py:101-111 | the crawl: every listing page's actions, in page order, over the pages the root's pagination names; AllActionsOfOrigin, RootFailureCollectsNothing and Scraper.CollectAllActions state its properties |
| Crawl.AllActionsOf | scrape.py:101-111 | every pair of the crawl is kept |
| Crawl.AllActionsOfAppend | scrape.py:106-111 | crawling two runs of listing pages gives the two results in order |
| Crawl.AllActionsOfIsConcat | scrape.py:106-111 | the crawl is the earlier pages' actions, then page k's, then the later pages', for every k |
| Crawl.FailedPageContributesNothing | scrape.py:79-81 | a listing page that cannot be fetched contributes nothing |
| Crawl.RootFailureCollectsNothing | scrape.py:101-111 | when the root cannot be fetched, only the root is visited and nothing is collected |
| Crawl.AllActionsOfOrigin | scrape.py:101-111 | every returned pair is kept and is the extraction of a detail URL found on a visited listing page |
| Crawl.Scraper.constructor | scrape.py:13-14 | the scraper keeps its base URL and the world it reads |
| Crawl.Scraper.GetTotalPages | scrape.py:35-50 | the loop over the root's hrefs returns the page count specified by `TotalPages` |
| Crawl.Scraper.GetActionContent | scrape.py:59-75 | returns the extraction of the article specified by `ActionContent` |
| Crawl.Scraper.CollectPageActions | scrape.py:77-99 | the loop returns the page's kept pairs, in order, each with a non-empty title and content |
| Crawl.Scraper.CollectAllActions | scrape.py:101-111 | the loop returns the crawl specified by `AllActions`, every pair kept |
| Persist.RemoveUnsafe | scrape.py:122 | keeps only `[\w\s-]` characters, all taken from the title, and leaves a title made only of such characters unchanged |
| Persist.RemoveUnsafeAppend | scrape.py:122 | the filter works character by character over a concatenation |
| Persist.CollapseFrom | scrape.py:123 | the collapsed text has only hyphens and non-separator characters of its input, never two hyphens in a row, and no leading hyphen inside a run |
| Persist.CollapseWord | scrape.py:123 | a run of characters outside `[-\s]` passes through the collapse unchanged and ends any separator run |
| Persist.CollapseRun | scrape.py:123 | a run of `[-\s]` characters becomes exactly one `-`, or nothing when it continues a run already replaced, and the scan goes on inside the run |
| Persist.CollapseKeepsNonSeparators | scrape.py:123 | the collapse keeps every character outside `[-\s]`, in order |
| Persist.Collapse | scrape.py:123 | `re.sub(r'[-\s]+', '-', ...)` over a whole text; CollapseFrom, CollapseWord, CollapseRun, CollapseKeepsNonSeparators and CollapseKeeps state its properties |
| Persist.CollapseKeeps | scrape.py:123 | text without whitespace or doubled hyphens passes through the collapse unchanged |
| Persist.Slug | scrape.py:122-123 | the safe file-name stem: unsafe characters removed, separator runs collapsed, hyphens stripped, lower-cased; SlugShape, SlugFixpoints, SlugOfSlug, SlugIgnoresUnsafe and SlugOfTwoWords state its properties |
| Persist.FileName | scrape.py:132 | the slug followed by `.json`; TitlesCollide and LastWriteWins state what happens when two titles share it |
| Persist.SlugShape | scrape.py:122-123 | every slug has only lower-case letters, digits, `_` and single hyphens, and no hyphen at either end |
| Persist.SlugOfSlug | scrape.py:122-123 | a text of slug shape is its own slug |
| Persist.SlugFixpoints | scrape.py:122-123 | a text is its own slug exactly when it has slug shape, so slugging is idempotent |
| Persist.SlugIgnoresUnsafe | scrape.py:122 | removing one character outside `[\w\s-]` from a title does not change its slug |
| Persist.SlugOfTwoWords | scrape.py:122-123 | two words separated by a space slug to the lower-cased words joined by one hyphen |
| Persist.Entries | scrape.py:120-134 | one file name and `ActionFile` record per action, in action order; the record keeps the title and content of `action_data` (scrape.py:126-130); StoreLastWins and LastWriteWins state which entry a file ends up holding |
| Persist.Store | scrape.py:120-134 | the directory after writing the entries in order, each write replacing any file of that name; StoreOverlay and StoreLastWins state its properties |
| Persist.StoreOverlay | scrape.py:120-134 | writing files lays one new map over the directory; earlier files that are not overwritten remain |
| Persist.StoreLastWins | scrape.py:120-134 | a name holds the record of the last entry written under it |
| Persist.Titles | scrape.py:139 | the titles of the actions, in order, as the index lists them; IndexWrittenLast states that `index.json` holds them |
| Persist.Saved | scrape.py:113-144 | the directory after `save_actions`: the action files, then `index.json` as an `IndexFile` record with the count and titles of `index_data` (scrape.py:137-141); SavedNames, LastWriteWins, Untouched, IndexWrittenLast and SavedIdempotent state its properties, and OutputDirectory.SaveActions is proved to produce it |
| Persist.SavedNames | scrape.py:113-144 | after saving, the directory holds exactly its old files, one file per distinct action file name, and `index.json` |
| Persist.LastWriteWins | scrape.py:120-134 | an action's file holds that action when no later action shares its file name and the name is not `index.json` |
| Persist.Untouched | scrape.py:116-134 | a file that no action names, other than `index.json`, is left exactly as it was |
| Persist.IndexWrittenLast | scrape.py:136-144 | `index.json` holds the number of actions and their titles in order, even if an action's title slugs to `index` |
| Persist.SavedIdempotent | scrape.py:113-144 | saving the same actions twice leaves the directory as saving them once |
| Persist.TitlesCollide | scrape.py:120-134 | titles such as `"Order: A!"` and `"Order A"` share the file `order-a.json`, and the later action is the one kept |
| Persist.OutputDirectory.constructor | scrape.py:116-117 | an existing directory keeps its files |
| Persist.OutputDirectory.SaveActions | scrape.py:113-144 | the write loop, then the index, leave the directory specified by `Saved` |

## Left out

- The rate limiter (`last_request_time`, `min_request_delay`, `time.time()`, `time.sleep`; scrape.py:16-24, 29) is not modelled. It is a timing side effect with no functional result.
- The HTTP client (scrape.py:15, 26-33) is replaced by the input `fetch`, with `""` for any failure. The model treats the fetch as deterministic. The root URL is fetched twice, once for the page count and once as page 1, and both fetches are assumed to give the same body.
- HTML parsing (`BeautifulSoup`, `find_all`, `find`, `get_text`) is replaced by the input `parse`. The model does not describe how anchors, headings and paragraphs are read out of markup. The one assumption it makes is that an empty root body has no anchors.
- The `except` branch of `collect_page_actions` (scrape.py:96-97) is not modelled, because nothing in the model raises.
- `print` logging, the `collected_at` timestamps, the JSON formatting and encoding, and `mkdir` are not modelled. They are output or clock readings. Records keep only the title and content, or the count and titles.
- File writes (scrape.py:133-134, 143-144) are assumed to succeed. In the source an `open` or `json.dump` that raises, for example on a slug longer than the file-name limit, stops `save_actions` with the earlier files written and no `index.json`. `Saved` and `OutputDirectory.SaveActions` always go on to write the index, so that outcome is not modelled.
- `main` (scrape.py:146-163) is only an entry point. The unused `ThreadPoolExecutor` and `itertools` imports are not modelled either.
- `generate_page_urls` is lazy in the source; the model gives the whole sequence of URLs at once.
- Character classes are ASCII only: whitespace is code points 9-13 and 28-32, `\w` is letters, digits and `_`, and `title()` and `lower()` act on ASCII letters. Unicode behaviour is out of scope.
- `int()` is modelled as accepting only non-empty strings of ASCII digits. Python's `int()` also accepts a sign, surrounding whitespace and `_` separators.
- The 4300-digit limit on `int()` is CPython's default from 3.11 on, and from the 3.10.7, 3.9.14 and 3.8.14 security releases. Earlier versions have no limit, and `sys.set_int_max_str_digits` or `PYTHONINTMAXSTRDIGITS` can change it. The model fixes it at 4300. The matching limit on `str()` is not modelled, because `PagesWithinDigitLimit` shows no page number the scraper prints reaches it.
