# article-parser in Dafny

A model of the two scraper scripts of article-parser.

- `main.py` is `ScholarScraper`. It pages through Google Scholar results, keeps the result blocks whose title passes a keyword filter, and records for each one its title, year, URL and keywords.
- `elib.py` is `ElibraryScraper`. It pages through elibrary.ru results and reads title, authors, journal and year from each listing row. It then fetches the item's page for the journal, volume, issue and abstract.

The model covers what these scripts compute:

- the text helpers: `clean_text`, `extract_year`, `check_filters`, the `|`-separated info heuristic, and the `Том:` / `Номер:` patterns;
- `parse_article`, `parse_list_item` and `fetch_article_details`, taken as functions of what the HTML queries return;
- the two paginated `search_articles` loops, as imperative methods.

The network is a sequence of page outcomes that each loop consumes in order. An outcome is a network error, any other error, or a page with its result rows. Each loop is proved equal to one specification, `Paging.Run`: the records of the rows that parse, page after page and row after row, up to the first outcome at which the loop stops, cut to the target count. The loops also prove the request offsets and page numbers they use.

The code is organised in these modules:

| module | file | contents |
|---|---|---|
| `Wrappers` | wrappers.dfy | `Option` |
| `PyText` | pytext.dfy | the parts of Python's `str` the scripts use: `\s`, `\w`, `\d`, `lower`, `strip`, `split`, `join`, `count`, `in` |
| `Whitespace` | whitespace.dfy | `re.sub(r'\s+', ' ', s).strip()` and its properties |
| `Years` | years.dfy | the `\b(19\|20)\d{2}\b` search |
| `Scraped` | scraped.dfy | records as maps, `dict.update`, `<a>` tags |
| `Paging` | paging.dfy | page outcomes and the specification of a run |
| `Scholar`, `ScholarSearch` | scholar.dfy, scholar_search.dfy | main.py |
| `Elibrary`, `ElibrarySearch` | elibrary.dfy, elibrary_search.dfy | elib.py |

## Model

| member | source | states |
|---|---|---|
| PyText.LowerChar | main.py:201-202 | `lower` on one character leaves no upper-case letter, changes exactly the upper-case letters, and keeps the space and word-character classes |
| PyText.Lower | main.py:201-202 | `str.lower` keeps the length, leaves no upper-case letter, and keeps every other character in place |
| PyText.LowerAlphabet | main.py:201-202 | `lower` sends A-Z, А-Я and Ё each to its own lower-case partner in a 59-letter table, and these are exactly the upper-case letters |
| PyText.LowerIdempotent | main.py:201-202 | lower-casing twice is lower-casing once |
| PyText.TrimLeft | elib.py:190 | `lstrip` returns a suffix of its input that is empty or starts with a non-space |
| PyText.TrimLeftDropsSpace | elib.py:190 | every character `lstrip` drops is whitespace |
| PyText.TrimRight | elib.py:190 | `rstrip` returns a prefix of its input that is empty or ends with a non-space |
| PyText.TrimRightDropsSpace | elib.py:190 | every character `rstrip` drops is whitespace |
| PyText.StripIsTrimmedSlice | elib.py:124 | `strip` returns a substring of its input, and it is empty only for all-whitespace input |
| PyText.StripEnds | elib.py:124 | what `strip` returns has no whitespace at either end |
| PyText.StripOfTrimmed | elib.py:124 | `strip` leaves text without surrounding whitespace unchanged |
| PyText.CountChar | elib.py:129 | `s.count(c)` is at most `len(s)`, and it is 0 exactly when `c` is not in `s` |
| PyText.Split | elib.py:124 | `split(sep)` yields one more piece than there are separators, and no piece contains the separator |
| PyText.JoinSplit | elib.py:124 | joining the pieces of a split with the separator gives back the input |
| PyText.SplitJoin | elib.py:124 | splitting a join of separator-free pieces gives back the pieces |
| PyText.Contains | main.py:202 | the scan decides Python's substring test `p in t` |
| Whitespace.Normalize | elib.py:187-190 | `clean_text` of elib.py returns clean text: no surrounding whitespace and no whitespace other than single spaces between non-spaces. It keeps every non-whitespace character in order |
| Whitespace.CollapseIsCollapsed | elib.py:189 | after `re.sub(r'\s+', ' ', s)` every whitespace character is a plain space, and no two whitespace characters are adjacent |
| Whitespace.CollapseKeepsText | elib.py:189 | the substitution keeps the non-whitespace characters in order |
| Whitespace.NormalizeOfClean | elib.py:187-190 | clean text is a fixed point of `clean_text` |
| Whitespace.NormalizeIdempotent | elib.py:187-190 | `clean_text` is idempotent |
| Whitespace.NormalizeIsJoinOfWords | elib.py:189-190 | `clean_text(s)` equals `' '.join(s.split())` |
| Years.FindYear | main.py:206 | the scan returns the leftmost index at or after `from` where `\b(19\|20)\d{2}\b` matches, or nothing when no such index exists |
| Years.ExtractYear | main.py:204-207 | `extract_year` returns 'N/A' exactly when the text has no match; otherwise it returns the four characters of the leftmost match, a year from 1900 to 2099 |
| Years.EmbeddedYearIgnored | main.py:206 | a year glued to another digit or a letter ("12019", "2019a") is no match |
| Years.EmbeddedYearSkipped | main.py:206 | past an embedded year the search finds the next free-standing one ("12019 2021" gives "2021") |
| Years.YearInSentence | main.py:206 | of two years the leftmost wins, and punctuation is a word boundary ("in 1999, 2020" gives "1999") |
| Scraped.Update | elib.py:95 | `dict.update` keeps the keys of both dicts; the new dict's values win, and the old values stay for the other keys |
| Paging.FirstHalt | main.py:59-61 | the index of the first outcome at which the loop stops; every earlier outcome lets it go on |
| Paging.Take | main.py:48 | the first `n` records, or all of them when there are fewer |
| Paging.PySlice | elib.py:110 | `s[:n]` is the prefix of length `min(len(s), n)` for `n >= 0`, and of length `max(0, len(s) + n)` for a negative `n` |
| Paging.Run | main.py:48 | a run never holds more than the target count of records |
| Paging.Consumed | main.py:48-61 | the number of outcomes a loop consumes lies between the ones already consumed and all of them |
| Paging.ConsumedUpToHalt | main.py:59-61 | no outcome after the first halting one is consumed |
| Paging.ConsumedStops | main.py:48 | consumption stops only when the outcomes run out, right after the halting outcome, or once the records reach the target |
| Paging.SilentOutcomeIgnored | elib.py:102-105 | an outcome that does not stop the loop and yields no record leaves the run as if it had never been served |
| Paging.ErrorFirstEndsRun | main.py:77-79 | where errors are not retried, a run whose first outcome is an error yields no record |
| Paging.EmittedFrom | main.py:65-72 | every emitted record is the parse of some row of some served page |
| Paging.EmittedCons | main.py:65-72 | the records of a page come before those of the later pages |
| Scholar.RemoveMarkers | main.py:211 | the marker removal never lengthens the text |
| Scholar.MarkerRemoved | main.py:211 | a `[PDF]` or `[HTML]` at the scan position is deleted |
| Scholar.PlainTextKept | main.py:211 | text without `[` passes the scan unchanged, whatever follows it |
| Scholar.NoBracketNoChange | main.py:211 | text without `[` has no marker to remove |
| Scholar.RemoveMarkersSinglePass | main.py:211 | the removal is a single pass and not idempotent: "[PD[PDF]F]" becomes "[PDF]", which a second pass would delete |
| Scholar.CleanText | main.py:209-213 | `clean_text` of main.py returns clean text: the words of the marker-free text joined by single spaces. Without `[` in the input it equals elib.py's `clean_text` |
| Scholar.CheckFilters | main.py:196-202 | with a missing or empty filter list every title passes; otherwise a title passes exactly when some keyword, lower-cased, is a substring of the lower-cased title |
| Scholar.CheckFiltersIgnoresCase | main.py:201-202 | the filter gives the same answer for a title and its lower-cased form |
| Scholar.EmptyKeywordPassesAll | main.py:202 | an empty keyword in the list lets every title through |
| Scholar.LinkUrl | main.py:94 | the URL is the title link's `href` when the link and its `href` exist, and it is non-empty only then |
| Scholar.FetchedText | main.py:122-123 | no content is fetched for an empty URL |
| Scholar.Keywords | main.py:179-180 | a text under 100 characters yields no keywords |
| Scholar.ParseArticle | main.py:83-118 | no record without a heading, and none when the cleaned title fails the filter. A record has exactly the four fields, the cleaned heading or link text as title, which passes the filter, the year of the meta line ('N/A' or a year), and the link's URL or ''. The keywords are the model's keywords of the fetched text joined by ', ', and there are none without a URL |
| ScholarSearch.SearchLoop | main.py:39-81 | the loop returns exactly `Run` with no retry. It consumes the number of outcomes `Consumed` gives. The offsets it requests are the first ones of `start`, `start + 10`, ... |
| ScholarSearch.OffsetListAt | main.py:49-74 | the j-th request asks for the results from `start + 10*j` |
| ScholarSearch.ServePage | main.py:63-74 | a page with result blocks adds its parsed records in order, cut at the target, and does not end the run |
| ScholarSearch.CollectRows | main.py:65-72 | the inner loop appends the parsed blocks of a prefix of the page in order. It stops early only when the target is reached |
| ScholarSearch.SearchArticles | main.py:39-81 | `search_articles` returns `Run` of `parse_article`: at most `num_articles` records, each with the four fields and a title that passes the filter. It requests one page per outcome `Consumed` counts, at offsets growing by 10 from `start` |
| ScholarSearch.RunRecordsPassFilter | main.py:65-72 | every returned record is `parse_article` of a block of a served page. It has the four fields and a clean title that passes the filter |
| Elibrary.LinkFrom | elib.py:115 | the scan decides whether `<literal>\d+` occurs in the `href` |
| Elibrary.FirstLink | elib.py:115 | `find('a', href=...)` returns the first matching `<a>` in document order, or nothing when none matches |
| Elibrary.StrippedParts | elib.py:124 | the list comprehension yields at most one part per piece, each stripped and non-blank |
| Elibrary.StrippedPartsOne | elib.py:124 | a single piece yields its stripped text, or nothing when it is blank |
| Elibrary.StrippedPartsAppend | elib.py:124 | the parts of a run of pieces are the parts of its first pieces followed by those of the rest, so the order is kept |
| Elibrary.ParseListItem | elib.py:112-144 | `None` exactly when the row has no item link or no info cell. Otherwise a record with the five fields. The title is the first item link's stripped, cleaned text. The URL is the first item link's `href` resolved against the base URL. Title, authors and journal text are clean. Authors and journal are those of the info parts, and the year is read from the journal text |
| Elibrary.AuthorsNeedTwoDots | elib.py:127-129 | the authors field is non-empty exactly when the second info part has at least two '.', and `clean_text` keeps every dot |
| Elibrary.ShortInfoGivesDefaults | elib.py:126-133 | with fewer than two info parts, authors and journal are '' and the year is 'N/A' |
| Elibrary.InfoPartsOfJoin | elib.py:124-130 | stripped, non-blank pieces without '\|', joined by '\|', come back as the same parts, so the second piece is read as the authors and the rest as the journal |
| Elibrary.NormalizeKeepsCount | elib.py:187-190 | `clean_text` keeps the count of every non-whitespace character |
| Elibrary.Volume | elib.py:170-172 | the volume is '' exactly when `Том:\s*([^\s]+)` has no match. Otherwise it is group 1 of the leftmost match, a non-empty token without whitespace |
| Elibrary.IssueAfterLabel | elib.py:171-173 | after "Номер: <tag> " the issue is the whitespace-free token that follows, whatever the tag holds before its '>' |
| Elibrary.VolumeAfterLabel | elib.py:170 | after "Том: " the volume is the whitespace-free token that follows |
| Elibrary.IssueGroup | elib.py:171 | where `\s*<[^>]*>\s*([^\s<]+)` matches right after the label, group 1 is non-empty and holds no whitespace and no '<' |
| Elibrary.TokenGroup | elib.py:171 | group 1 `([^\s<]+)` after the tag: leading whitespace skipped, then the longest non-empty run without whitespace and '<' |
| Elibrary.Issue | elib.py:171-173 | the issue is '' exactly when `Номер:\s*<[^>]*>\s*([^\s<]+)` has no match. Otherwise it is group 1 of the leftmost match |
| Elibrary.NoAngleNoIssue | elib.py:169-173 | the issue pattern needs a literal '<' in the table text; without one the issue is '' |
| Elibrary.FetchArticleDetails | elib.py:146-185 | always exactly the four fields, all '' when the fetch fails. The journal is the first journal link's stripped text or ''. Volume and issue come from the info table, '' without one. The abstract is clean |
| Elibrary.AbstractPrecedence | elib.py:176-178 | `abstract1` wins over `abstract2` even when its text is empty; without either the abstract is '' |
| ElibrarySearch.RequestedPages | elib.py:54 | the first request asks for page 1. After a network error the same page is requested again, and after a served page the next one |
| ElibrarySearch.SearchLoop | elib.py:51-110 | the loop returns exactly `Run` with network errors retried, after the final slice. It consumes the number of outcomes `Consumed` gives. The j-th request asks for page 1 + the number of pages served before it |
| ElibrarySearch.CollectRows | elib.py:88-97 | the inner loop appends, in order, the detailed records of the parsed rows of a prefix of the page. It stops early only when the target is reached |
| ElibrarySearch.SearchArticles | elib.py:51-110 | `search_articles` returns `Run` of the row parser: at most `num_articles` records, each with the nine fields. It makes one request per outcome `Consumed` counts, with page numbers as in `RequestedPages` |
| ElibrarySearch.ParsedRowRecord | elib.py:92-96 | a row that parses yields the listing record updated with the details: all nine fields, the listing fields untouched by the update, and the detail fields as fetched |
| ElibrarySearch.KeysDisjoint | elib.py:95 | no detail field has the name of a listing field, so `update` only adds fields |
| ElibrarySearch.RunRecordsComplete | elib.py:92-96 | every returned record comes from a row of a served page and has the nine fields |
| ElibrarySearch.NetworkErrorRetried | elib.py:102-105 | a network error is retried: the run goes on as if it had not happened |
| ElibrarySearch.OtherErrorEndsRun | elib.py:106-108 | any other error ends the run and keeps the records collected before it |

## Left out

- HTTP: `requests`, the session, cookies, headers, timeouts and `raise_for_status`. Each request is one page outcome, and each item-page fetch is a detail outcome stored with its row.
- An outcome sequence that runs out ends a loop. It stands for a server with nothing more to serve. In elib.py a persistent network error, including an HTTP error status, which `raise_for_status` raises as a `RequestException`, makes the script request the same page forever.
- BeautifulSoup: `find`, `find_all` and `get_text` are not modelled. The model is given what each query returns: the `<a>` tags in document order and the texts of the cells, tables and divs.
- ParseListItem, FetchArticleDetails: `get_text(strip=True)` on a link with nested tags joins its stripped pieces without a separator. The model takes the link text (the item title, the journal name) as one string and strips it.
- `urljoin`, reference resolution as section 5.2 of RFC 3986 describes it. It is an opaque function parameter.
- `quote_plus` and the search URLs and parameters built from the topic.
- Fetching article content for Scholar, the HTML and PDF text extraction (PyPDF2), and keyword extraction (KeyBERT). The fetched text is an input of each result block, and the keyword model is a function parameter.
- The 10000-character truncation of extracted text. It happens inside the content extraction, which is not part of this model.
- `_random_delay`, `time.sleep` and `random.choice` of headers: randomness, floating point and wall-clock time.
- Logging, the `print(response.text)` in elib.py, `save_to_csv`, `run` and the `__main__` blocks: console and file I/O.
- test.py is not part of this model. It is one hard-coded request and a print.
- Python's Unicode character classes. `\s`, `\w`, `\d`, `isspace` and `lower` are modelled on ASCII plus the Russian Cyrillic alphabet. Every other character is a non-space, non-word character without case.
- ParseArticle: the `except Exception` handler of `parse_article` (main.py:116-118) has no counterpart. In the source, `fetch_article_content` catches its own request and extraction errors and returns '' (main.py:135-137), and `extract_keywords` catches every KeyBERT error and returns [] (main.py:182-194). The model takes those results as values: the fetched text is an input and the keyword model a total function. Nothing the handler guards can fail on these values, so the model returns `None` only for a block without a heading or with a title the filter rejects, as the source does on those values.
- ParseListItem: an exception other than a missing info cell is not modelled. In particular `urljoin` raises `ValueError` on a malformed `href` such as `http://[x/item.asp?id=1`, and the source then returns `None`; the model's `resolve` is an opaque total function, so it returns a record for every row with an item link and an info cell.
- The `if article_data:` tests. A record dict always has fields, so the test only tells `None` from a record.
