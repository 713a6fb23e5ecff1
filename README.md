# KVMA job-listing collector: a verified model of its core

`test_copy.py` logs into the Korean Veterinary Medical Association site, searches the
veterinarian job board and collects, page by page, the postings whose title names an
internship ("인턴") or a first-year position ("1년차") and whose date falls inside the
last 30 days. This project models the part of that script that decides what is
collected:

- `parse_date`: the four `strptime` formats tried in order, on stripped text (module `Dates`);
- `within_lookback`: the 30-day window, with the current time passed in as `now` (module `Dates`);
- `resolve_link`: how a row's `href` becomes a full link (module `Links`);
- `collect_list_rows`: which table rows are read, and how the date, title and link are read from each (module `Listing`);
- the search `click_first_matching_post` performs over the table, without the click itself (module `Listing`);
- the collector loop: filter each page, compute the oldest date, decide whether to page on, try the next-page triggers, stop after at most 50 pages (module `Collector`).

Python's `str.strip`, `startswith`, `in` on strings and `split(...)[0]` are modelled in
`Text`. A generic "filter and project" over a sequence, the shape of both row loops,
is in `Seqs`. `Wrappers` holds `Option`.

The model's conventions:
- A moment is an integer count of microseconds since 0001-01-01T00:00, the resolution of Python's `datetime`.
- A parsed date stands for the midnight of its day, because `strptime` without a time gives 00:00.
- A page's table is the list of rows the row selector found. Each row records its number of header (`th`) cells and its data (`td`) cells. A cell holds its text and its anchors, each anchor with an optional `href`.
- The listing a search produces is the sequence of pages the browser shows one after another. A working next-page trigger on page `k` leads to page `k + 1`. Past the last page the session shows an empty table.

## Model

| member | source | states |
|---|---|---|
| Text.TrimStartKeepsSuffix | test_copy.py:22 | `lstrip()` drops only whitespace from the front and leaves a suffix that does not start with whitespace |
| Text.TrimEndKeepsPrefix | test_copy.py:22 | `rstrip()` drops only whitespace from the back and leaves a prefix that does not end with whitespace |
| Text.StripIsInnerSlice | test_copy.py:22 | `strip()` removes only whitespace and leaves a slice whose first and last characters are not whitespace |
| Text.StripUnchanged | test_copy.py:38 | text with no whitespace at either end is left unchanged by `strip()` |
| Text.StripIdempotent | test_copy.py:100 | stripping twice is stripping once: the date text stripped here is stripped again by `parse_date` (line 22) with no further effect |
| Text.FindFromFirst | test_copy.py:41 | the search for a separator finds its first occurrence, and reports none exactly when there is no occurrence |
| Text.ContainsIff | test_copy.py:76 | `k in title` holds exactly when `k` occurs in `title` at some position |
| Text.SplitHeadParts | test_copy.py:41 | `split('/kvma/')[0]` is a prefix of the URL with no earlier occurrence of the separator; the separator follows it if present, otherwise it is the whole URL |
| Dates.DaysBeforeYearStep | test_copy.py:33 | the day count of the proleptic Gregorian calendar grows by the length of each year, 366 in a leap year and 365 otherwise |
| Dates.DaysBeforeYearGrows | test_copy.py:33 | a later year starts after the whole of any earlier year |
| Dates.OrdinalOrder | test_copy.py:179 | calendar order of dates agrees with the order of their day numbers, both for "before" and for equality |
| Dates.WithinLookbackMonotone | test_copy.py:30-33 | any date on or after a date inside the window is inside the window too |
| Dates.LookbackBoundary | test_copy.py:30-33 | the date exactly `days` days before today is inside the window only when `now` is midnight; older dates never are; newer ones always are |
| Dates.OldestIsMinimum | test_copy.py:179 | `min(dates)` is one of the dates and none of them is earlier |
| Dates.FirstParseFirst | test_copy.py:23-28 | a date comes back exactly when some format parses the text, and then it is the result of the first format that does |
| Dates.TwoDigits | test_copy.py:103 | `%m` and `%d` of `strftime` give two digits spelling the number |
| Dates.FourDigits | test_copy.py:103 | `%Y` of `strftime` gives four digits spelling the year |
| Dates.FormatThenParse | test_copy.py:101-103 | a date written as `%Y-%m-%d` parses back to the same date |
| Dates.SeparatorsAgree | test_copy.py:23-25 | a date written with `-`, `.` or `/` between four-digit year, month and day parses back to that date |
| Dates.ShortYearParses | test_copy.py:23-25 | `YY-MM-DD` parses through `%y-%m-%d`, mapping the years 1969 to 2068 back to themselves |
| Dates.NoLongYear | test_copy.py:23 | text whose third character is not a digit matches none of the four-digit-year formats |
| Dates.ParseDateAt | test_copy.py:21-28 | on stripped text, the result is that of the first format that parses |
| Links.ResolveLinkEnds | test_copy.py:35-44 | the link is empty exactly when the `href` is missing or empty; otherwise it ends with the stripped `href` |
| Links.AbsoluteLinkKept | test_copy.py:38-40 | an `href` starting with `http` is returned stripped and unchanged |
| Links.RelativeLinkJoined | test_copy.py:41-44 | a rooted `href` is appended to the site base; any other relative `href` is appended after `/kvma/`; the site base is the URL up to its first `/kvma/` |
| Links.RelativeUnderSite | test_copy.py:41-44 | a relative path resolves like the same path under `/kvma/` |
| Links.SiteRootFound | test_copy.py:41 | the site base of `root + "/kvma/" + rest` is `root` when no `/kvma/` starts inside `root` (so `root` holds no `/kvma/` and does not end in `/kvma`) |
| Links.BlankHrefNotEmpty | test_copy.py:36-44 | every non-empty `href` made only of whitespace passes the emptiness test and resolves to the site's `/kvma/` root |
| Seqs.KeepMapInOrder | test_copy.py:88-107 | filtering and reading yields one item per element that passes the test, the k-th item read from the k-th such element |
| Seqs.KeepMapMembers | test_copy.py:170-174 | an item is produced exactly when some element passes the test and reads as it |
| Seqs.KeepMapNone | test_copy.py:170-174 | when no element passes the test, nothing is produced |
| Seqs.KeepMapAppend | test_copy.py:161-174 | filtering a concatenation gives the concatenation of the two filtered parts, so filtering page by page into one `kept` list is filtering all the pages' records at once |
| Listing.CollectListRows | test_copy.py:82-108 | the loop returns the records read from the data rows, in table order |
| Listing.ExtractedRowsInOrder | test_copy.py:88-107 | the k-th record is read from the k-th row that has no header cell and at least four data cells, and every such row gives one |
| Listing.ShownDateAgrees | test_copy.py:100-106 | the shown date is `%Y-%m-%d` of the parsed date when there is one, the stripped date text otherwise, and parsing the shown date gives back the record's date |
| Listing.ExtractedDatesAgree | test_copy.py:101-106 | every record's shown date parses to its parsed date |
| Listing.FindFirstMatchingPost | test_copy.py:58-80 | the clicked row is the first row with no header cell, two or more data cells and a keyword in its title; no row matches when none is clicked |
| Collector.SelectedExactly | test_copy.py:170-174 | an entry is kept from a page exactly when a record on it has a keyword and a date inside the window and shows as that entry |
| Collector.FilterPage | test_copy.py:170-174 | the filter loop appends what `Selected` describes, in order |
| Collector.ParsedDatesComplete | test_copy.py:176 | every parsed date of a record on the page is among the page's dates |
| Collector.ParsedDatesSound | test_copy.py:176 | every date of the page is the parsed date of one of its records |
| Collector.ParsedDatesNone | test_copy.py:176 | a page none of whose records has a parsed date has no dates |
| Collector.OldestStillRecent | test_copy.py:176-181 | `need_next` holds exactly when some record on the page has a parsed date and every parsed date on the page is inside the window |
| Collector.NeedNextIffAllRecent | test_copy.py:176-181 | the loop pages on exactly when the page has a parsed date and all its parsed dates are inside the window |
| Collector.ClickNext | test_copy.py:184-194 | the page moves exactly when one of the three next-page triggers works |
| Collector.ReadListRows | test_copy.py:165 | reading the current page yields the records of the page the session shows |
| Collector.ViewsAt | test_copy.py:165 | the view of page `k` is read from the `k`-th page the session shows, or is empty past the last one |
| Collector.StepsAt | test_copy.py:165-194 | the loop body's outcome on page `k` is that of the page's view: its selected entries, and going on only when the page is non-empty, `need_next` holds and a trigger works |
| Collector.VisitPage | test_copy.py:165-194 | one pass of the loop body keeps what the page selects and goes on exactly as `StepsAt` describes |
| Collector.CollectListing | test_copy.py:161-194 | the kept entries and the number of pages read are those of the bounded page loop `Crawl` |
| Collector.CrawlVisits | test_copy.py:162-194 | a bounded run reads between one and `budget` pages, goes on from every page but the last, and stops at the last because it may not go on or the budget is spent |
| Collector.CrawlKept | test_copy.py:161-174 | what a run keeps is what each page it reads selects, in page order |
| Collector.KeptOverMembers | test_copy.py:174 | an entry is in the pages' selections exactly when one of those pages selects it |
| Collector.PagesVisited | test_copy.py:162-194 | the loop reads 1 to 50 pages; every page but the last leads on; the last one is empty, has no parsed date or an oldest date outside the window, has no working trigger, or is the 50th |
| Collector.KeptExactly | test_copy.py:161-174 | an entry is kept exactly when a record on a page that was read passes the keyword and date filter and shows as that entry |
| Collector.KeptOverIsSelected | test_copy.py:161-174 | what the filter keeps from pages `k` to `k + n - 1`, page by page, is the filter applied once to all their records in order |
| Collector.KeptInReadingOrder | test_copy.py:161-174 | the final `kept` list is the filter applied to the records of the pages read, in page order and table order |
| Collector.ViewsShowDates | test_copy.py:101-103 | on every page, each record's shown date parses to its parsed date |
| Collector.KeptEntriesQualify | test_copy.py:170-174 | every kept entry has a keyword in its title and a shown date that parses to a date inside the window |
| Collector.ReadPagesFullyKept | test_copy.py:170-174 | every qualifying record on a page that was read is kept |
| Collector.StopByDateIsSafe | test_copy.py:175-182 | on a listing sorted newest first, after a page whose oldest date is outside the window no later record could qualify |
| Collector.UndatedPageEndsCrawl | test_copy.py:176-182 | a page none of whose records has a parseable date ends the loop and keeps nothing |

## Left out

- Logging in, navigating to the job board and typing the search (test_copy.py:110-156, 208-215): browser I/O with no decision in it.
- The choice between the two row selectors (test_copy.py:60-62, 84-86): the model starts from the rows the selector found.
- Waits, `time.sleep`, debug printing, `safe_text` (test_copy.py:47-54, which is never called), and the CSV and Excel export (test_copy.py:196-206, 255-270): I/O only.
- `datetime.now()` is the parameter `now`, and one `now` stands for every clock read of a run. The script reads the clock afresh in each `within_lookback` call (test_copy.py:33): in the filter once per record that has a keyword and a parsed date (`any(...) and within_lookback(dt)` stops early at test_copy.py:173, and `within_lookback` returns at test_copy.py:31-32 for a missing date before reading the clock), and once per page for the oldest date, across up to 50 pages with waits in between. The model does not capture the clock moving between those reads, such as a date that leaves the window during a run, so that a record kept on one page has a same-dated twin rejected on a later one, or the filter and `need_next` judging the same oldest date differently. `Collector.KeptEntriesQualify`, `Collector.NeedNextIffAllRecent` and `Dates.LookbackBoundary` hold for a single instant. Python's `OverflowError`, raised when `now - 30 days` would fall before year 1, is not modelled.
- The second collection loop (test_copy.py:220-253) is the same code as the first, so `Collector.CollectListing` models both.
- A cell read that times out in `collect_list_rows` raises, which aborts the script. The model reads every cell successfully and does not model the abort.
- `Dates.ParseDate`: `\d` in Python's `strptime` also matches non-ASCII decimal digits. The model accepts ASCII digits only.
- `Dates.FormatDate`: pads years below 1000 to four digits. Whether `%Y` pads such years depends on the platform's C library, which is not part of this model. Only dates written with a year below 1000 are affected.
- `Listing.FindFirstMatchingPost`: returns the index of the row to click. The click and the wait for the next page are left out.
- `Collector.ClickNext`: whether a trigger works is given per page as a set of trigger names. The timing that decides it in the browser is left out.

Three behaviours of the code that are easy to misread; the model follows the code:

- **Header rows.** A row is skipped as soon as it has one header (`th`) cell, even when it also has data cells.
- **Failed cell reads.** A failed cell read in `collect_list_rows` is not turned into an empty value; it aborts the script. Only the title read in `click_first_matching_post` catches its failure; with two or more anchors in the title cell it reads as `""`.
- **The lookback boundary.** The oldest date being exactly 30 days back keeps the loop going only when `now` is exactly midnight. At any later time that day the date is already outside the window (`Dates.LookbackBoundary`).
