# newsru.com scraper: a Dafny model of its decision logic

The scraper `news_ru_scraper.py` walks a range of calendar days. For each day it:

1. fetches the day's index page from `classic.newsru.com` and keeps every article locator that contains none of three markers: `https://www.inopressa.ru`, `//www.meddaily.ru` and `/.html`;
2. fetches and parses each article on a pool of four threads;
3. sorts the day's records by their `time_stamp` string;
4. inserts them into a SQLite table whose `url` column is `UNIQUE ON CONFLICT IGNORE`.

Every fetch goes through `get_url`. It retries forever with a 5 s backoff until the origin answers with status 200, with status 404 and a "page not found" body, or with a "server error" body under any status. A "page not found" body under a status other than 404 and 200 is retried. After every response it resets a process-wide throttle `DELAY` to 0.4 s or 0.

This project models the logic under that plumbing, one module per concern:

| module | models |
|---|---|
| `Fetch` (fetch.dfy) | the response classifier; the retry loop of `get_url` over a finite response sequence; the throttle `DELAY` as the class `Throttle`, with every sleep recorded in milliseconds |
| `Articles` (articles.dfy) | the `Article` record; the sentinel for a missing page; the `lstrip` of the date label; the month-name loop; the field formatting; `parse_article` |
| `Locators` (locators.dfy) | the href filter and `parse_day` |
| `Ordering` (ordering.dfy) | Python's string order on `time_stamp` and the stable `sorted` |
| `Day` (day.dfy) | `work_day`: the dispatch loop, the `as_completed` loop over an arbitrary completion order, and the sort |
| `Store` (store.dfy) | the url-keyed insert-or-ignore table of `save_sqlite` |
| `Calendar` (calendar.dfy) | the `daterange` generator |
| `Text` (text.dfy) | the Python string operations used above: `in`, `replace`, `strip`, `lstrip(chars)` and `join` |

Units and abstractions:

- Times are whole milliseconds: `DELAY` is 0 or 400, and the backoff is 5000.
- A response is its status code, two flags and its latency. The flags say whether the body holds "Извините, запрашиваемая страница не найдена" (page not found) and "Ошибка сервера." (server error).
- The origin's behaviour for one URL is the finite sequence of responses it gives. `get_url` is modelled for sequences that contain a terminal response; on any other sequence the source never returns.
- Behaviour of the code that is easy to misread, and that the model follows:
  - `requests.get` exceptions (network errors, timeouts) are not caught by `get_url`, so they are not retried.
  - `DELAY` is reset after every response, not only after successful ones. It is slept inside `get_url` (line 67) and again after each dispatch (line 132).
  - `parse_day` has no branch for a missing index page. There `get_url` returns the int `404` and `.text` raises; the model returns `Err(IndexNotFound)`.
  - Paragraphs are joined with the literal four characters `/n/n`, not with newlines.
  - `lstrip('время публикации:')` removes any leading run of the label's characters, not the label as a prefix (`StripLabelIsNotPrefixRemoval`).

## Model

| member | source | states |
|---|---|---|
| `Fetch.Classify` | news_ru_scraper.py:68-75 | status 200 is Success whatever the body; 404 with the not-found marker is NotFound; the server-error marker under any non-200 status is NotFound; everything else, including a 404 without the marker, is Retry (both directions) |
| `Fetch.DelayFor` | news_ru_scraper.py:66 | `DELAY` becomes 400 ms exactly when the latency is strictly above 400 ms, and 0 otherwise (400 ms itself gives 0) |
| `Fetch.TerminalIndex` | news_ru_scraper.py:63-75 | the loop stops at the first terminal response: it is terminal and every earlier one is retryable |
| `Fetch.FetchVerdict` | news_ru_scraper.py:63-75 | `get_url` never returns a retryable verdict |
| `Fetch.BackoffPerRetry` | news_ru_scraper.py:63-75 | exactly one 5 s backoff per retryable response before the terminal one; 2k+1 sleeps in all; the last sleep is the `DELAY` left behind |
| `Fetch.LastSleep` | news_ru_scraper.py:66-69 | the last sleep of `get_url` is the delay set by the response it returns on |
| `Fetch.IgnoresLaterResponses` | news_ru_scraper.py:63-75 | responses after the first terminal one change neither the verdict, nor the number of attempts, nor the sleeps |
| `Fetch.RetriesThenSuccess` | news_ru_scraper.py:63-75 | N retryable responses followed by a 200 give Success after exactly N backoffs |
| `Fetch.Throttle.constructor` | news_ru_scraper.py:16 | the throttle starts at 0 with no sleeps taken, so `DELAY` is one of its two values |
| `Fetch.Throttle.SleepDelay` | news_ru_scraper.py:132 | a caller's `sleep(DELAY)` records the current delay and leaves it unchanged, still 0 or 400 ms |
| `Fetch.Throttle.GetUrl` | news_ru_scraper.py:61-75 | `DELAY` stays 0 or 400 ms; returns the verdict of the first terminal response after that many attempts; leaves `DELAY` at the value set by that last response; its sleeps are each response's delay plus a backoff after every retry |
| `Articles.StoreUrlKeysLocator` | news_ru_scraper.py:78-82 | the stored url determines the locator and differs from the fetched `classic.` url |
| `Articles.MonthTable` | news_ru_scraper.py:87-98 | twelve non-empty Cyrillic month names with distinct two-digit codes |
| `Articles.MonthRow` | news_ru_scraper.py:87-98 | each row is a non-empty Cyrillic name and a two-digit code |
| `Articles.CodesAvoidNames` | news_ru_scraper.py:87-98 | no code shares a character with any month name |
| `Articles.MonthsReplaced` | news_ru_scraper.py:99-102 | after the first n iterations of the month loop none of the first n month names occurs in the stamp |
| `Articles.NoMonthsUnchanged` | news_ru_scraper.py:100-102 | a stamp holding no month name leaves the loop unchanged |
| `Articles.NormaliseMonths` | news_ru_scraper.py:99-102 | the in-place loop computes the month replacement, and afterwards none of the twelve names is left (what it puts in their place: `Articles.MonthBecomesCode`) |
| `Articles.MonthLoopOneName` | news_ru_scraper.py:99-102 | with one month name in the stamp, the first n iterations leave it untouched until the iteration for that name, which turns it into its code and changes nothing else |
| `Articles.MonthBecomesCode` | news_ru_scraper.py:99-102 | a stamp holding one month name after text free of Cyrillic letters comes out with that name replaced by its two-digit code and every other character kept (`15 мая 2020 г., 10:30` becomes `15 05 2020 г., 10:30`) |
| `Articles.StripLabelPrefix` | news_ru_scraper.py:86 | when the date directly follows the label, `lstrip` removes exactly the label |
| `Articles.StripLabelIsNotPrefixRemoval` | news_ru_scraper.py:86 | `lstrip` also removes leading text that is not the label (`"вкладка"` becomes `"дка"`) |
| `Articles.NormaliseStamp` | news_ru_scraper.py:86-102 | the stamp handed to the date parser contains no month name |
| `Articles.ContentHoldsParagraphs` | news_ru_scraper.py:109-110 | every stripped paragraph occurs in the content |
| `Articles.ImageFieldHoldsSources` | news_ru_scraper.py:111-112 | no images give `-`; otherwise every image source occurs in the field |
| `Articles.RubricFieldEmpty` | news_ru_scraper.py:113-114 | the rubric is empty exactly when there is no rubric node or the first one is all whitespace |
| `Articles.ArticleFromPage` | news_ru_scraper.py:84-115 | the record exists exactly when there is a date node, the date parses and there is a title node; it carries the `www.` url and the parsed stamp of the normalised date; no date node is `MissingDate`, a date neither format parses is `UnparsableDate`, and a parsed date without a title is `MissingTitle` |
| `Articles.NotFoundGivesSentinel` | news_ru_scraper.py:79-83 | on NotFound the record has url `https://www.newsru.com` + locator and all five other fields empty; every record built carries that url |
| `Articles.ParseArticle` | news_ru_scraper.py:77-115 | fetches through the throttle, then returns the sentinel or the record (or the parse error) of the page; throttle state as after `get_url`, `DELAY` still 0 or 400 ms |
| `Locators.FilterHrefs` | news_ru_scraper.py:122 | every kept href is free of the three markers; never longer than the input |
| `Locators.FilterIsSubsequence` | news_ru_scraper.py:122 | the kept hrefs are a subsequence of the input, in their original order |
| `Locators.FilterMultiplicity` | news_ru_scraper.py:122 | each marker-free href keeps its multiplicity and every other href is dropped |
| `Locators.FilterMembership` | news_ru_scraper.py:122 | an href is kept exactly when it is in the input and contains none of the markers |
| `Locators.FilterIdempotent` | news_ru_scraper.py:122 | filtering twice equals filtering once |
| `Locators.ParseDay` | news_ru_scraper.py:117-123 | a missing index page is an error (the source crashes); otherwise the filtered hrefs; `DELAY` still 0 or 400 ms |
| `Ordering.StampLeTotal` | news_ru_scraper.py:135 | any two stamps are comparable |
| `Ordering.StampLeTransitive` | news_ru_scraper.py:135 | the string order is transitive |
| `Ordering.StampLeEmpty` | news_ru_scraper.py:135 | only the empty stamp sorts at or before the empty stamp |
| `Ordering.Insert` | news_ru_scraper.py:135 | inserting adds exactly the one record to the multiset of records |
| `Ordering.InsertSorted` | news_ru_scraper.py:135 | inserting into a sorted list keeps it sorted |
| `Ordering.SortByStamp` | news_ru_scraper.py:135 | the result is a permutation of the input, ordered non-decreasingly by `time_stamp` |
| `Ordering.SortStable` | news_ru_scraper.py:135 | records with equal stamps keep their completion order, as Python's `sorted` is stable |
| `Ordering.SentinelsFirst` | news_ru_scraper.py:135 | in a sorted list, empty-stamp records precede every record with a stamp |
| `Day.PickAt` | news_ru_scraper.py:133-134 | the j-th completed result is the result of task `order[j]` |
| `Day.PermutedResults` | news_ru_scraper.py:133-134 | any completion order hands back the same multiset of results |
| `Day.GatherOk` | news_ru_scraper.py:133-134 | gathering succeeds exactly when every task succeeded, and keeps completion order |
| `Day.GatherPicked` | news_ru_scraper.py:133-134 | when every task succeeded, gathering in any completion order yields their records in that order |
| `Day.AllOkMultiset` | news_ru_scraper.py:133-134 | whether every result succeeded does not depend on the completion order |
| `Day.OutcomeAt` | news_ru_scraper.py:129-131 | the i-th future is the outcome of `parse_article` on the i-th locator and its page |
| `Day.GatherFirstError` | news_ru_scraper.py:133-134 | the first failed result in completion order decides the error raised |
| `Day.SleepsPrefix` | news_ru_scraper.py:129-132 | the sleeps of the first m dispatched tasks are a prefix of those of the first n, for m <= n |
| `Day.DispatchSleepFollowsLatency` | news_ru_scraper.py:129-132 | under the sequential schedule modelled here (see "## Left out"), for every task i the sleeps up to and including its dispatch sleep are a prefix of the whole log, and that dispatch sleep is the delay set by task i's last response: 400 ms exactly when that response took more than 400 ms |
| `Day.Dispatch` | news_ru_scraper.py:129-132 | one future per locator, in submission order, and each task's sleeps followed by a dispatch `sleep(DELAY)`; `DELAY` stays 0 or 400 ms |
| `Day.Collect` | news_ru_scraper.py:133-134 | the `as_completed` loop returns the results in completion order, or the first error |
| `Day.WorkDay` | news_ru_scraper.py:125-137 | returns the day outcome: missing index, first parse error, or the sorted records; states `DELAY` (0 or 400 ms, as the last fetch set it, the index fetch's when the index is missing) and every sleep taken |
| `Day.TaskUrls` | news_ru_scraper.py:82-107 | each task's record is stored under its own locator's url |
| `Day.DayOkIffAllParse` | news_ru_scraper.py:119-134 | a day completes exactly when its index exists and every article parses, whatever the completion order |
| `Day.DayRecords` | news_ru_scraper.py:126-137 | a completed day has one record per kept locator: a sorted permutation of the tasks' records |
| `Day.NotFoundLocatorKept` | news_ru_scraper.py:80-83 | a locator whose page is missing still gives its sentinel record in the day |
| `Store.NewRowsUnique` | news_ru_scraper.py:51-53 | after an insert, urls stay unique and no added row reuses an existing url |
| `Store.NewRowsCover` | news_ru_scraper.py:51-53 | afterwards the table's urls are exactly its old urls plus the batch's urls |
| `Store.NothingNewWhenPresent` | news_ru_scraper.py:51-53 | a batch whose urls are all present adds nothing |
| `Store.CommitTwiceAddsNothing` | news_ru_scraper.py:51-53 | committing the same batch again adds no row |
| `Store.NewRowsInOrder` | news_ru_scraper.py:51-53 | the added rows keep the batch order |
| `Store.FirstFreshAdded` | news_ru_scraper.py:51-53 | the first batch record of each url not already present is added |
| `Store.AddedAreFirstFresh` | news_ru_scraper.py:51-53 | every added row is the first batch record of its url, a url not already present |
| `Store.FirstFreshTail` | news_ru_scraper.py:51-53 | a record is the first fresh one of its url exactly when it is so in the rest of the batch against the table grown by the head, and differs from the head's url |
| `Store.Table.constructor` | news_ru_scraper.py:51-52 | a new table is empty and satisfies the unique constraint |
| `Store.Table.InsertMany` | news_ru_scraper.py:53 | existing rows are untouched and the new rows are appended as insert-or-ignore dictates; the unique constraint is kept |
| `Calendar.DateRangeDays` | news_ru_scraper.py:57-59 | `end - start` days (none when `end <= start`), the i-th being `start + i` |
| `Calendar.DateRangeMembers` | news_ru_scraper.py:57-59 | a day is yielded exactly when it lies in `[start, end)` |
| `Calendar.DateRangeSplit` | news_ru_scraper.py:57-59 | a range split at any day is the two sub-ranges run back to back |
| `Text.ReplaceRemoves` | news_ru_scraper.py:100-102 | after `replace(p, r)`, where `r` shares no character with `p`, `p` no longer occurs |
| `Text.ReplaceKeepsAbsent` | news_ru_scraper.py:100-102 | `replace` creates no occurrence of a name that shares no character with the code |
| `Text.ReplaceSplit` | news_ru_scraper.py:101-102 | `replace` keeps a prefix that cannot start the pattern, turns the occurrence that follows it into the replacement, and carries on after it |
| `Text.ReplaceAbsent` | news_ru_scraper.py:101-102 | `replace` of an absent pattern is the identity, so the `if month in` guard changes nothing |
| `Text.LStripWhere` | news_ru_scraper.py:86 | the result is the input minus its longest prefix of removable characters |
| `Text.RStripWhere` | news_ru_scraper.py:86 | the result is the input minus its longest suffix of removable characters |
| `Text.JoinContainsEach` | news_ru_scraper.py:110-112 | every joined piece occurs in the joined string |
| `Text.JoinLength` | news_ru_scraper.py:110-112 | the joined length is the pieces' lengths plus one separator between each pair |

## Left out

- HTTP: the session and its headers (lines 18-27) are left out, and so is `requests.get` itself. Responses are inputs. Exceptions raised by `requests.get` propagate out of `get_url` in the source and are not modelled.
- Fetch.Throttle.GetUrl: modelled only for response sequences that contain a terminal response. The source's endless retry on an origin that never answers terminally is not described.
- HTML parsing and the XPath queries (lines 84-86, 108-113, 120-121) are replaced by the lists of strings they yield (`Page`, `DaySource.hrefs`).
- `strptime` with its two formats, `astimezone` and `isoformat` (lines 103-106) are the opaque parameter `toIso`. It receives the month-replaced stamp, as both parses in the source do. `None` stands for the `ValueError` of the second format.
- The `strftime("%d%b%Y")` day token and the day and article URLs used for fetching: each URL's responses are given directly.
- `zlib` and `json` (lines 38, 53, 136) are taken as an exact round trip. The store receives the `Article` values themselves, whose field order is the table's column order.
- The thread pool (lines 128-134): tasks run one after another in submission order. Each task finishes before the dispatch sleep that follows it, which is one schedule the pool allows. Races on `DELAY` between concurrent tasks are not modelled: under the pool, a dispatch sleep reads whatever `DELAY` the most recently finished fetch set, not necessarily that of the task just submitted. The `as_completed` order is an arbitrary permutation given as input.
- Actual sleeping: sleeps are recorded in the ghost sequence `Throttle.slept`. Float seconds are replaced by integer milliseconds.
- SQLite PRAGMAs, `optimize` and the connection (lines 48-50, 54), the commit message, CSV export (lines 40-45), `print` logging and the `__main__` driver (lines 139-149) beyond `daterange`, including its `sleep(DELAY)` after each day.
