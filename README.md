# Goodreads "read" shelf export, modelled in Dafny

The program crawls a Goodreads "read" bookshelf page by page and writes two
JSON files: every book read, and the books rated 4 or 5 stars. Between the
HTTP requests and the HTML parsing sits a small transformation pipeline, and
that pipeline is what this project models and proves things about:

- **Date normalisation** (`date_str_to_iso`). A shelf date such as
  "Feb 08, 2023" or "Feb 2023" becomes the ISO 8601 calendar date
  `2023-02-08` or `2023-02-01`. The format is chosen by whether ", " occurs
  in the input. `datetime.strptime` is modelled by the regular expression
  Python builds from the format:
  - each blank matches one or more whitespace characters;
  - `%b` matches an English month abbreviation in any ASCII letter case;
  - `%d` matches one or two digits with a value from 1 to 31;
  - `%Y` matches exactly four digits;
  - the whole input must be consumed.

  Year 0 and a day its month does not have are errors, as `datetime.date`
  makes them.
- **Cover URL rewrite** (`re.sub(r"\._S[YX]\d+_\.", ".", url)`). The scan
  tries the pattern at each position from the left. It replaces every match
  by "." and copies every other character.
- **Row extraction** (`process_bookshelf_page`). A table row is given as the
  values the HTML lookups find in it: title text, author text, image `src`,
  the class lists of the rating cell's spans, and the optional started and
  read date texts. The loop does the following:
  - skips the header row;
  - strips the title;
  - rewrites the cover URL;
  - counts the `p10` star spans;
  - converts the dates;
  - drops a row with neither date;
  - appends the rest in order.

  A date that does not convert ends the page with that date's error, as the
  `ValueError` does.
- **Pagination and selection** (`get_next_page`, `parse_books`, `process`).
  The web is a map from URL to page, where a page is its rows and its
  optional "next" link. `parse_books` recurses in the source; here it is a
  loop that accumulates the pages' records in chain order. The top-rated
  list is the order-preserving selection of the books rated 4 or 5.

Modules: `Wrappers` (Option, Result), `Text` (Python's whitespace set,
`str.strip`, digits, zero padding), `Dates`, `Covers`, `Seqs`
(order-preserving filter), `Shelf` (`BookReview`, rows, the page loop),
`Pages` (next link, crawl, top-rated selection, `process`).

The `BookReview` dataclass (run.py:25-32) is `Shelf.BookReview`; a missing
date is `None`. The two URLs (run.py:18-19) are `Pages.BaseUrl` and
`Pages.FirstPageUrl`.

The code calls `re.sub`, which replaces every occurrence of the marker, so
`…/106136930._SY75_.jpg` becomes `…/106136930.jpg`
(`Covers.ThumbnailExample`).

## Model

| member | source | states |
|---|---|---|
| Dates.DaysInMonth | run.py:93-94 | a month has 28 to 31 days, and February has 29 exactly in a Gregorian leap year |
| Dates.MonthOf | run.py:91-94 | a token names month m exactly when its ASCII lower-casing is that month's abbreviation, and names no month when it matches none |
| Dates.MonthOfName | run.py:91-94 | any token that lower-cases to a month's abbreviation is read as that month (the names are distinct) |
| Dates.HasCommaSpace | run.py:91 | true exactly when a ", " occurs somewhere in the input |
| Dates.StrptimeMonthYear | run.py:92 | "%b %Y" plus `replace(day=1)` gives only real dates, all on day 1, and the model's error records the input |
| Dates.StrptimeMonthYearSpec | run.py:92 | "%b %Y" succeeds exactly on a month token, whitespace and four final digits with a non-zero year, and yields day 1 of that month and year; otherwise it is a format error or, for year 0, a range error |
| Dates.StrptimeMonthDayYear | run.py:94 | "%b %d, %Y" gives only real dates, and the model's error records the input |
| Dates.StrptimeMonthDayYearSpec | run.py:94 | on the month, day, comma, year shape, the result is the written year, month and day, or a range error when that day does not exist |
| Dates.StrptimeMonthDayYearShape | run.py:94 | whatever "%b %d, %Y" does not reject as a format mismatch has the month, day, comma, year shape |
| Dates.IsoFormat | run.py:96 | `isoformat()` gives four digits, "-", two digits, "-", two digits, and reading those digits back gives the date itself |
| Dates.IsoFormatOfFields | run.py:96 | every ISO-shaped text of a real date is the ISO form of the date it spells: formatting and reading are inverse both ways |
| Dates.IsoTextUnique | run.py:96 | two ISO texts that spell the same date are the same text |
| Dates.DateStrToIso | run.py:84-96 | every success is a 10-character ISO text of a real date, a month-only input succeeds only on day 1, and the model's error records the input |
| Dates.MonthOnlyInput | run.py:91-92 | input without ", " converts to day 1 of its month and year when it has the "%b %Y" shape and a non-zero year; otherwise it is an error |
| Dates.FullDateInput | run.py:93-94 | input with ", " and of the full shape converts to the ISO text of the written day, or is a range error when the month has no such day |
| Dates.MalformedFullDateInput | run.py:93-94 | input with ", " that does not have the full shape is a format error |
| Dates.DateTextToIso | run.py:88-96 | a "Mon DD, YYYY" text succeeds exactly when the written day exists, then yields that year, month and day, and otherwise fails with a range error |
| Dates.ShelfDateToIso | run.py:88-96 | any date written in the shelf's full format comes back as exactly its ISO text, and a day its month lacks is an error |
| Dates.MonthTextToIso | run.py:88-96 | a "Mon YYYY" text with a non-zero year yields day 1 of that month and year |
| Dates.FullDateExample | run.py:88-89 | "Feb 08, 2023" becomes "2023-02-08" |
| Dates.MonthOnlyExample | run.py:88-89 | "Feb 2023" becomes "2023-02-01" |
| Dates.MissingLeapDayExample | run.py:93-94 | "Feb 29, 2023" is an error, since 2023 is not a leap year |
| Text.Strip | run.py:40 | the stripped title has no whitespace at either end, and only whitespace was removed from each side |
| Text.PadDigits | run.py:96 | zero padding yields exactly w digits whose value is the number |
| Covers.MarkerAt | run.py:46 | the pattern matches nothing, or a stretch of at least 7 characters that fits in the rest of the URL; `Covers.MarkerAtIsMarker` and `Covers.MarkerAtMarker` show that it matches exactly the size markers |
| Covers.RewriteFrom | run.py:47 | the `re.sub` scan from a position gives no more characters than remain; `Covers.RewriteReplaces`, `Covers.RewriteCopies` and `Covers.RewriteFromShift` state its steps |
| Covers.MarkerAtIsMarker | run.py:46 | what the pattern matches is a size marker: "._S", then Y or X, one or more digits, then "_." |
| Covers.MarkerAtMarker | run.py:46 | wherever a size marker starts, the pattern matches exactly that marker |
| Covers.RewriteCover | run.py:43-47 | the rewritten URL is never longer than the original |
| Covers.RewriteReplaces | run.py:47 | at a marker the scan emits "." and resumes after the marker |
| Covers.RewriteCopies | run.py:47 | a stretch where no marker starts is copied unchanged |
| Covers.RewriteFromShift | run.py:47 | the pattern looks only forward, so what precedes a position does not change the scan from it |
| Covers.LeftmostMarkerReplaced | run.py:46-47 | the leftmost marker becomes "." and the rest of the URL is rewritten on its own, so every match is replaced from left to right |
| Covers.RewriteWithoutMarker | run.py:43-47 | a URL with no marker, the empty URL included, is returned unchanged |
| Covers.RewriteShortens | run.py:47 | a scan that meets a marker makes the URL strictly shorter |
| Covers.RewriteUnchangedIff | run.py:46-47 | the rewrite leaves a URL unchanged if and only if no marker occurs in it |
| Covers.ThumbnailExample | run.py:44-47 | "106136930._SY75_.jpg" becomes "106136930.jpg" |
| Seqs.Filter | run.py:136 | the selection is never longer than its input |
| Seqs.FilterSatisfies | run.py:136 | every item kept satisfies the predicate |
| Seqs.FilterCounts | run.py:136 | each item is kept as often as it occurs when it satisfies the predicate, and not at all otherwise |
| Seqs.FilterIsSubsequence | run.py:136 | the kept items keep their relative order |
| Seqs.FilterAppend | run.py:136 | selecting from a concatenation selects from each part |
| Shelf.Rating | run.py:48 | the rating is at most the number of spans in the rating cell |
| Shelf.RatingCountsStars | run.py:48 | the rating is the number of rating-cell spans whose classes include `p10` |
| Shelf.ConvertDate | run.py:50-56 | an absent date span stays absent, a present one converts to an ISO date of a real day or fails with exactly the error `date_str_to_iso` gives for its text |
| Shelf.RowRecordFails | run.py:50-56 | a row fails exactly when one of its date texts does not convert, and its error is the one `date_str_to_iso` gives for the started date if that one fails, otherwise for the read date |
| Shelf.RowRecordKept | run.py:40-71 | a row whose dates convert yields a record exactly when it has a date span, and the record has the stripped title, the author, the rewritten cover, the star count and the converted dates |
| Shelf.RowRecord | run.py:40-71 | what one row gives: nothing exactly when the row has neither date span; `Shelf.RowRecordFails` and `Shelf.RowRecordKept` state its error and its record |
| Shelf.ProcessRow | run.py:40-71 | the loop body's reassignments of `cover_url`, `date_started` and `date_read` produce the row's outcome |
| Shelf.ErrorStops | run.py:52-56 | once a row's date fails, no later row changes the page's result |
| Shelf.SkipStep | run.py:58-60 | a row without dates leaves the list as it was |
| Shelf.KeepStep | run.py:62-71 | a row with a date appends its record at the end |
| Shelf.FailStep | run.py:50-56 | a row whose date fails ends the loop with that date's error |
| Shelf.ExtractRows | run.py:39-73 | the loop over the body rows yields at most one record per row; `Shelf.ExtractRowsOk`, `Shelf.ExtractRowsFirstError` and `Shelf.ExtractRowsKept` state when it fails and which records it keeps |
| Shelf.PageRecords | run.py:35-73 | a page yields fewer records than it has rows, the header being one of them |
| Shelf.ProcessBookshelfPage | run.py:35-73 | the loop over the rows after the header returns the page's records or its first date error |
| Shelf.ExtractRowsOk | run.py:50-56 | the page succeeds exactly when every date on every row converts |
| Shelf.ExtractRowsFirstError | run.py:39-56 | a page error is the error of the first row whose dates do not convert, and every earlier row converts |
| Shelf.ExtractRowsKept | run.py:58-73 | the records are those of the rows with a date span, one each and in row order |
| Shelf.ExtractRowsWellFormed | run.py:40-71 | every record has a stripped title, at least one date, and ISO dates of real days |
| Shelf.PageRecordsCount | run.py:39-73 | a page yields exactly as many records as it has rows after the header that show a started or read date |
| Shelf.HeaderIgnored | run.py:39 | the header row never contributes: replacing it leaves the page's result unchanged |
| Pages.GetNextPage | run.py:76-81 | a next URL exists exactly when the link does, and it is the base URL followed by the link's `href` |
| Pages.Crawl | run.py:99-118 | the recursion of `parse_books`: it succeeds only if the first page is present and its dates convert, and it reports a page as unavailable only for a URL the site map lacks; `Pages.CrawlConcatenates` states its result |
| Pages.ParseBooks | run.py:99-118 | the loop that extends the list page by page returns what the source's recursion returns |
| Pages.PrependTwice | run.py:109-116 | extending with one page's records, then with the rest, is extending with both at once |
| Pages.ChainUrls | run.py:114-116 | the chain of visited URLs starts at the given URL |
| Pages.ChainLinks | run.py:76-81 | each URL of the chain after the first is the base URL joined with the previous page's link, and the last page cannot be read, has a date that does not convert, or has no link |
| Pages.CrawlConcatenates | run.py:109-118 | the crawl succeeds exactly when every page of the chain can be read, and then returns the pages' records concatenated in chain order |
| Pages.CrawlFuel | run.py:99-118 | the result does not depend on the bound on how many links may be followed |
| Pages.TopRated | run.py:136 | the top-rated list is no longer than the full list |
| Pages.TopRatedExact | run.py:136 | the top-rated list holds exactly the books rated 4 or 5, each as often as in the full list, in the full list's order |
| Pages.TopRatedByPage | run.py:136 | the top-rated list of the crawl is the pages' top-rated lists in chain order |
| Pages.Process | run.py:121-139 | `process` fails exactly when the crawl does, and otherwise outputs every book read and the top-rated selection of them |

## Left out

- HTTP (`requests.get`, run.py:107) is replaced by a map from URL to page. A URL the map lacks stands for a page that cannot be fetched, or for a response without the books table. The source then crashes; here it is `PageUnavailable`.
- BeautifulSoup parsing and the `find`/`find_all` lookups (run.py:36-54, 77, 111) are not modelled. A row arrives as the values those lookups find.
- A missing title link, author link, image, `src` attribute or table cell makes the source raise. `Shelf.Row` has no way to express that, so the model does not cover that crash.
- JSON serialisation, `EnhancedJSONEncoder` (not part of this model) and the file writes (run.py:130-139) are left out. `Pages.Process` returns the two lists it would write.
- Logging and path configuration (run.py:14-22, 106, 127-128, 141) are left out.
- In a `str` pattern, `\d` also matches non-ASCII decimal digits. Dates and cover URLs here accept ASCII digits only.
- `re.IGNORECASE` also folds some non-ASCII letters onto ASCII ones. Python's later `.lower()` lookup then rejects such a token anyway. The model compares after ASCII lower-casing only and gives a format error for it.
- The model covers only the English locale's month abbreviations.
- `date_str_to_iso` raises two kinds of `ValueError`: a format mismatch and an out-of-range date. The model keeps the two apart; it does not model the message text.
- Pages.Crawl: nothing in the source bounds the chain of "next" links. The model requires the chain to end within a ghost bound `n` (`EndsWithin(site, url, n)`): at a page that cannot be read, at one whose date does not convert, or at one without a link. A cycle of readable pages whose dates all convert is outside the model; on it the source recurses until `RecursionError`. `Pages.CrawlFuel` shows that the bound does not affect the result.
- Python's recursion limit on very long chains is left out. `Pages.ParseBooks` is a loop.
