# TiebaAutoSign, modelled in Dafny

TiebaAutoSign signs in, once a day, to every forum ("tieba") that each of
its stored Baidu accounts follows. This project models its core in Dafny:

- **the cookie codec** of `src/request_adapter.py` (`Cookies`). It turns the
  flat `name=value;name=value` string stored with an account into a cookie
  jar (`load`), and turns the jar back into a string (`save`).
- **the forum operator** of `src/tieba_operator.py` (`Operator`, with the
  regular expressions in `Patterns` and `urllib.parse.quote` in
  `UrlQuote`). It reads the paginated favourites list, caches the sign-URL
  prefix, builds a forum's sign URL and signs it.
- **the orchestration** of `src/auto_task.py` (`AutoTask`). This covers:
  - the operator pool;
  - the reconciliation of an account's stored forum rows with the list
    just fetched;
  - the daily selection of accounts to refresh and of forums to sign;
  - the update after each sign;
  - the retry loop around both tasks.

The stored tables of `src/model.py` are Dafny values (`Model`): rows are
datatypes, and the `Tieba` table is a map keyed by the composite key
`(account, name)`. Days are integers. `Common` holds the Python string
operations the code relies on: `find`, `split`, `split(sep, 1)`, `s[:-k]`,
`strip(' ')` and `str(int)`.

Objects the source updates in place are classes:

- `Cookies.RequestAdapter` holds the jar. Its iteration order is ascending
  by name, as CPython's `CookieJar` iterates.
- `Operator.TiebaOperator` holds `sign_url_prefix` and a record of every
  request it issued.
- `AutoTask.TaskContext` holds the pool and the two tables.

The network is a function from request to page:

- an operator's `web`;
- for the task context, `session(cookie)`: the site as seen with that
  account's cookies.

`html.unescape` is a function parameter. The regular expressions and
`quote` are written out as the matchers and the encoder Python runs.

The code decides as follows:

- `sign_tieba` decides on a single search;
- `HTTP_REQUEST_INTERVAL` is never read;
- `last_request_time` is never updated.

## Model

| member | source | states |
|---|---|---|
| Common.Split | src/request_adapter.py:42 | `s.split(c)` is never empty, no piece holds `c`, and joining the pieces with `c` gives back `s` |
| Common.SplitJoin | src/request_adapter.py:42 | splitting a join of pieces that do not hold the separator gives back exactly those pieces |
| Common.SplitFirst | src/request_adapter.py:43 | `split('=', 1)` unpacks to two parts only when '=' occurs; the left part is free of '=' and left + '=' + right is the segment |
| Common.SplitFirstUnique | src/request_adapter.py:43 | only the first '=' separates: for a name free of '=', the value keeps every later '=' |
| Common.StripSpaces | src/request_adapter.py:44-45 | `strip(' ')` is the slice of `s` left once a run of leading spaces and a run of trailing spaces are cut off; it has no space at either end, and is `s` itself when `s` has none at either end |
| Common.Find | src/tieba_operator.py:38 | `find` is -1 exactly when the text occurs nowhere, and otherwise an index where it occurs |
| Common.DropLast | src/tieba_operator.py:49 | `s[:-k]` is the prefix of `s` that is `k` characters shorter, or empty |
| Common.NatToString | src/tieba_operator.py:32 | `str(n)` is a non-empty string of digits with no leading zero whose decimal value is `n` |
| Cookies.SetCookieMembers | src/request_adapter.py:46 | `set_cookie` adds the cookie and drops only a cookie of the same name |
| Cookies.SetCookieContents | src/request_adapter.py:46 | `set_cookie` overwrites exactly the jar's entry for the cookie's name |
| Cookies.SetCookieSorted | src/request_adapter.py:46 | `set_cookie` keeps the jar in ascending name order |
| Cookies.FirstUnparsable | src/request_adapter.py:43 | the first segment without '=' (where unpacking raises); all earlier ones hold '=' |
| Cookies.ApplySegmentsContents | src/request_adapter.py:42-46 | loading lays the cookies the segments define over the jar's previous contents |
| Cookies.ApplySegmentsSorted | src/request_adapter.py:42-46 | loading keeps the jar ordered |
| Cookies.LoadedCookiesAreSession | src/request_adapter.py:11-30 | every loaded cookie is `make_cookie`'s: domain `baidu.com`, path `/`, no expiry, and the name and value of its segment |
| Cookies.LoadedCookiesNames | src/request_adapter.py:43 | the loaded names are exactly the texts before the first '=' of the segments |
| Cookies.LoadedCookiesLastWins | src/request_adapter.py:46 | a name takes the value of the last segment that names it |
| Cookies.LoadedNeverExpire | src/request_adapter.py:24 | cookies created by `load` have no expiry and are never expired |
| Cookies.LoadStopsAt | src/request_adapter.py:42-46 | loading stops at the first segment without '=', with the segments before it applied |
| Cookies.RequestAdapter.constructor | src/request_adapter.py:34-36 | the adapter starts with an empty jar and no last request time |
| Cookies.RequestAdapter.Load | src/request_adapter.py:40-46 | the jar is the old jar with every segment before the first one without '=' set in order; `load` raises `ValueError` exactly when such a segment exists; names and values are stored untrimmed; the jar stays ordered by name, storable, and of `baidu.com` and path `/` (`Valid`) |
| Cookies.MakeCookie | src/request_adapter.py:11-30 | a cookie of the given name and value for domain `baidu.com` and path `/`, with no expiry; `RequestAdapter.Load` keeps every stored cookie in that form |
| Cookies.Live | src/request_adapter.py:50-52 | the cookies `save` writes are exactly the unexpired ones, in jar order, so a jar ordered by name gives an output ordered by name |
| Cookies.CookieStringJoin | src/request_adapter.py:49-54 | the saved string is the `name=value` texts of the unexpired cookies, each closed by ';' |
| Cookies.SavedSegments | src/request_adapter.py:49-54 | splitting the saved string on ';' gives one `name=value` segment per unexpired cookie, in order, then an empty segment |
| Cookies.SaveAfterLoadKeepsAll | src/request_adapter.py:51 | a jar loaded from nothing keeps every cookie when saved |
| Cookies.RequestAdapter.Save | src/request_adapter.py:48-56 | the account's cookie becomes the saved string of the jar; nothing else of the account changes, and the jar is not modified |
| Cookies.SaveOutputFailsToLoad | src/request_adapter.py:54 | every string `save` writes has a last segment that `load` cannot unpack |
| Cookies.SaveThenLoad | src/request_adapter.py:40-56 | loading the saved string sets every unexpired cookie again, in order, and then raises on the empty last segment |
| Cookies.ApplySegmentsStorable | src/request_adapter.py:40-46 | segments free of ';' load into a jar whose names hold neither ';' nor '=' and whose values hold no ';', each cookie as `make_cookie` builds it |
| Cookies.LoadSaveLoad | src/request_adapter.py:40-56 | as written, for any stored string: the jar `load` builds saves to a string whose `load` rebuilds exactly that jar and then raises `ValueError` on the empty last segment |
| Cookies.IntendedLoadRoundTrip | src/request_adapter.py:40-56 | with empty segments skipped and names and values trimmed, loading what `save` wrote rebuilds the unexpired cookies |
| Cookies.IntendedApplyStorable | src/request_adapter.py:40-46 | the corrected `load` of segments free of ';' gives a storable jar, ordered by name, of `make_cookie` cookies |
| Cookies.IntendedLoadSaveLoad | src/request_adapter.py:40-56 | with the corrections, for any stored string that loads: saving the jar and loading the result gives back the same jar |
| Cookies.LoadKeepsSpaces | src/request_adapter.py:44-45 | as written, `n1=v1; n2=v2` loads a cookie whose name starts with a space |
| Cookies.IntendedLoadTrims | src/request_adapter.py:44-45 | the corrected `load` stores only trimmed names and values |
| Cookies.IntendedLoadTrimsPair | src/request_adapter.py:44-45 | with the correction, `n1=v1; n2=v2` loads the names `n1` and `n2` with their values |
| Patterns.TitleLength | src/tieba_operator.py:34 | the lazy `.+?` takes the shortest group at least as long as asked for with which the row matches |
| Patterns.TitleMatch | src/tieba_operator.py:34 | the match at a position is the shortest one, and there is none only when no group length matches |
| Patterns.TitleAtRow | src/tieba_operator.py:34 | a match is the full row `title="n">n</a></td>` of its group, with the backreference repeating the name |
| Patterns.FindTitles | src/tieba_operator.py:34-35 | every name `findall` returns is non-empty and free of newlines |
| Patterns.FindTitlesOccur | src/tieba_operator.py:34-35 | every returned name has its whole row somewhere in the page |
| Patterns.FindTitlesEmpty | src/tieba_operator.py:35 | `findall` returns nothing exactly when the pattern matches nowhere |
| Patterns.FindTitlesRowsThen | src/tieba_operator.py:34-35 | a page made of the rows of some plain names, followed by anything, yields those names first, in order |
| Patterns.FavoriteAtMeansPattern | src/tieba_operator.py:47 | the match test agrees with `"([^"]+tab=favorite)"` read literally |
| Patterns.FavoriteSplitUnique | src/tieba_operator.py:47 | a literal match of the pattern is unique and ends at the closing quote |
| Patterns.FavoriteGroup | src/tieba_operator.py:48 | `.group(1)` is the quoted text, which is free of quotes and ends in `tab=favorite` |
| Patterns.SearchFavorite | src/tieba_operator.py:48 | `re.search` finds the leftmost match, or none exists |
| Patterns.SearchFavoritePlaced | src/tieba_operator.py:47-48 | a quoted favourites link after quote-free text is the match found, and its group is the link |
| Patterns.SignLength | src/tieba_operator.py:63 | the lazy `.+?` of `mo/.+?">签到` takes the shortest stretch that completes a match |
| Patterns.SignMatch | src/tieba_operator.py:63 | the match at a position is the shortest one, or none exists |
| Patterns.SearchSign | src/tieba_operator.py:64 | `regex.search` finds the leftmost match with its length, or none exists |
| Patterns.LeftmostSignUnique | src/tieba_operator.py:64 | there is only one leftmost match |
| Patterns.SignMatchText | src/tieba_operator.py:68 | `.group()` is `mo/` + the matched path + `">签到` |
| Patterns.SearchSignPlaced | src/tieba_operator.py:63-64 | a sign link after text holding no `mo/` is found, and its text runs exactly to the first `">签到` |
| UrlQuote.Utf8RoundTrip | src/tieba_operator.py:61 | UTF-8 decoding undoes the UTF-8 encoding of any string |
| UrlQuote.Quote | src/tieba_operator.py:61 | `quote(name, encoding='UTF-8')` yields only unreserved characters, '/' and '%' |
| UrlQuote.QuoteSafe | src/tieba_operator.py:61 | quoting leaves a name of unreserved characters unchanged |
| UrlQuote.UnquoteQuote | src/tieba_operator.py:61 | percent-decoding undoes `quote` for every name |
| UrlQuote.QuoteInjective | src/tieba_operator.py:61 | different names quote to different texts |
| Operator.SignResultValue | src/tieba_operator.py:15-18 | each `SignResult` has its own four-character log text |
| Operator.SignResultValueInjective | src/tieba_operator.py:15-18 | two results with the same log text are the same result |
| Operator.PageRequestsConsecutive | src/tieba_operator.py:28-41 | the pages are requested in order 1, 2, …, page `i + 1` being the `i`-th request |
| Operator.NamesUpToOccur | src/tieba_operator.py:34-36 | every listed name has its row on one of the fetched pages |
| Operator.NamesUpToPlain | src/tieba_operator.py:34-36 | every listed name is non-empty and free of newlines |
| Operator.ListingReadBack | src/tieba_operator.py:27-43 | a listing served as pages, each with the marker except the last, is read back in full and ends at its last page |
| Operator.ListedPage | src/tieba_operator.py:38 | a page of rows followed by `下一页` yields its names and has the marker |
| Operator.LastListedPage | src/tieba_operator.py:38-39 | a page of rows alone, none of whose names holds '下', yields its names and ends the listing |
| Operator.TiebaOperator.FetchFavoriteTiebaList | src/tieba_operator.py:27-43 | the result is the names of pages `1..last` in page order, `last` being the first page without `下一页`; exactly those pages are requested, in order; the prefix is untouched |
| Operator.SignUrlPrefixOf | src/tieba_operator.py:45-51 | the prefix fails with `AttributeError` exactly when no favourites link is on the page |
| Operator.SignUrlPrefixPlaced | src/tieba_operator.py:47-49 | the prefix is `http://tieba.baidu.com` + `unescape(link)` without its last 21 characters |
| Operator.TiebaOperator.FetchSignUrlPrefix | src/tieba_operator.py:45-51 | one request for the mobile home page; the result is the prefix that page yields |
| Operator.TiebaOperator.constructor | src/tieba_operator.py:22-25 | a new operator has no prefix and has issued no request |
| Operator.TiebaOperator.PrepareSign | src/tieba_operator.py:53-55 | the home page is requested only when no prefix is cached; afterwards the prefix is cached unless fetching it raised |
| Operator.EntryUrlNames | src/tieba_operator.py:61 | `prefix + 'kw=' + quote(name)` differs for different names, and the name can be decoded back from it |
| Operator.SignUrlOf | src/tieba_operator.py:62-68 | the sign URL fails with `TiebaAlreadySigned` exactly when no sign link is found, and otherwise starts with `http://tieba.baidu.com/` |
| Operator.SignUrlPlaced | src/tieba_operator.py:63-68 | a found link whose match unescapes to any `kept + x`, with `x` four characters long, gives `http://tieba.baidu.com/` + `kept`: the unescaped match minus its last four characters |
| Operator.TiebaOperator.SignUrlFor | src/tieba_operator.py:57-68 | `get_tieba_sign_url` fails only with the prefix's `AttributeError` or with `TiebaAlreadySigned` |
| Operator.TiebaOperator.GetTiebaSignUrl | src/tieba_operator.py:57-68 | the result is the sign URL of the forum's entry page; the requests are the prefix step, then the entry page |
| Operator.TiebaOperator.SignTieba | src/tieba_operator.py:70-80 | the result is the forum's sign outcome; the requests are the prefix step, the entry page and, when a link was found, the link itself |
| Operator.TiebaOperator.PrefixFailed | src/tieba_operator.py:70-72 | without a prefix, `sign_tieba` raises the prefix's error and requests no forum page |
| Operator.TiebaOperator.SignOutcomeCases | src/tieba_operator.py:74-80 | `sign_tieba` never reports `failed`; it reports `already_signed` exactly when no sign link is found and `success` exactly when one is, fetching the link once |
| Model.RowsOf | src/auto_task.py:38 | `Tieba.select().where(Tieba.account == account)` holds exactly the account's rows, unchanged; `AutoTask.ReconcileOtherAccounts` states its result for every other account |
| AutoTask.Lookup | src/auto_task.py:49-51 | `Tieba.get` finds a row exactly when the key is in the table |
| AutoTask.CancelAll | src/auto_task.py:38-43 | the first loop keeps the table's keys |
| AutoTask.RestoreAllAt | src/auto_task.py:38-62 | at every key, the two loops agree with the reference definition of one row |
| AutoTask.ReconciledRows | src/auto_task.py:38-62 | after both loops, the account's rows are the reference rows and other accounts' rows are untouched |
| AutoTask.ReconcileKeepsPaused | src/auto_task.py:38-62 | paused rows are never modified |
| AutoTask.ReconcileCancelled | src/auto_task.py:38-62 | an existing row of the account that is not paused ends cancelled exactly when its name was not fetched, with nothing else changed |
| AutoTask.ReconcileInserts | src/auto_task.py:47-62 | each fetched name without a row gets a row that is not paused, not cancelled and never signed |
| AutoTask.ReconcileOtherAccounts | src/auto_task.py:38-62 | rows of other accounts are untouched: the query for any other account selects the same rows before and after |
| AutoTask.ReconcileKeys | src/auto_task.py:47-62 | no row is deleted; the rows added are those of the fetched names |
| AutoTask.ReconcileIdempotent | src/auto_task.py:38-62 | refreshing twice with the same list is refreshing once |
| AutoTask.ReconcileOrderFree | src/auto_task.py:47-62 | only the set of fetched names matters, not their order or repetitions |
| AutoTask.NeedsListRefresh | src/auto_task.py:76-84 | an account is refreshed when it is not paused and was never refreshed or last refreshed before today; `RefreshOncePerDay` states its consequences |
| AutoTask.RefreshOncePerDay | src/auto_task.py:64-84 | a refreshed account is not refreshed again that day, and is refreshed on every later day |
| AutoTask.NeedsSign | src/auto_task.py:98-101 | a forum row is signed when it is not paused, not cancelled, and never signed or last signed before today; `SignSelection` and `SignOncePerDay` state its consequences |
| AutoTask.RowAfterSign | src/auto_task.py:106-109 | the row after a sign attempt: its `last_sign_date` becomes today exactly on `success` or `already_signed`; `SignOncePerDay` states what this changes |
| AutoTask.SignSelection | src/auto_task.py:92-101 | the forums to sign are exactly the account's rows that are not paused, not cancelled, and never signed or last signed before today |
| AutoTask.SignOncePerDay | src/auto_task.py:104-107 | a sign attempt changes only the date; the row leaves today's selection exactly on `success` or `already_signed`; on a later day it is selected again |
| AutoTask.AccountsAfter | src/auto_task.py:73-84 | the account table while the list task runs keeps every row's id and cookie |
| AutoTask.TaskContext.constructor | src/auto_task.py:11 | the pool starts empty |
| AutoTask.TaskContext.GetOperator | src/auto_task.py:14-21 | requires an account that is not paused; returns the pooled operator if the id is pooled, otherwise a fresh operator for the account's session, pooled under its id; other pool entries and the tables are unchanged |
| AutoTask.TaskContext.CancelRows | src/auto_task.py:38-43 | every row of the account that is not paused is marked cancelled |
| AutoTask.TaskContext.RestoreRows | src/auto_task.py:47-62 | for each fetched name in order, the row is un-cancelled or a fresh one inserted; rows that are paused are kept |
| AutoTask.TaskContext.ReconcileWith | src/auto_task.py:38-62 | the table becomes the reconciliation of the old table with the list the operator fetched |
| AutoTask.TaskContext.DoFetchListTask | src/auto_task.py:34-65 | the account is pooled, its rows are reconciled with its fetched favourites, its `last_fetch_list_date` becomes today, and nothing else of the tables changes |
| AutoTask.TaskContext.RefreshIfDue | src/auto_task.py:76-84 | one account is refreshed exactly when it is due |
| AutoTask.TaskContext.FetchListTask | src/auto_task.py:73-84 | exactly the due accounts are refreshed, each with its own fetched list, and every other row is kept |
| AutoTask.TaskContext.SignOne | src/auto_task.py:104-109 | one forum is signed by the operator; its date becomes today exactly on `success` or `already_signed`; only that row changes |
| AutoTask.TaskContext.SignRows | src/auto_task.py:103-109 | every selected forum is signed in some order; the first exception ends the loop, keeping the rows already signed |
| AutoTask.TaskContext.SignAccount | src/auto_task.py:87-109 | an account that is not paused has exactly its selected forums signed, and no other account's rows change |
| AutoTask.TaskContext.SignTask | src/auto_task.py:87-109 | every account that is not paused, in table order, is pooled and has its selected forums signed; a raised error ends the task |
| AutoTask.LimitRetry | src/auto_task.py:118-132 | as written: the task is called at most once, and its first failure makes `limit_retry` raise `TypeError` |
| AutoTask.RetryCallsFacts | src/auto_task.py:118-132 | the intended loop makes at most `retry_limit` calls, and none only at the limit; every call but the last failed, and the last completed unless the limit was reached |
| AutoTask.LimitRetryIntended | src/auto_task.py:118-132 | with `str(counter)`, `limit_retry` returns normally after the calls the intended loop makes |
| AutoTask.RetryDiffers | src/auto_task.py:118-132 | when the first call fails and `retry_limit >= 2`, the intended loop makes at least two calls |

## Left out

- The HTTP transport is not modelled. This covers `build_opener`, `opener.open`, `make_request`, GBK and UTF-8 decoding of responses, and network errors. A request returns whatever page the site function gives for it.
- The operator calls `load_cookie_str`, `make_request_as_phone` and a one-argument `make_request` (src/tieba_operator.py:24,33,46,62,79). `RequestAdapter` does not define them as called. They are taken as fetches through the account's session, `session(account.cookie)`.
- `html.unescape` is a function parameter, not Python's entity decoder.
- `datetime.date.today()` and `datetime.datetime.now()` are the parameters `today` and `now`.
- peewee persistence is not modelled: `save()`, `Tieba.get`/`DoesNotExist`, the `database.atomic` transactions and their rollback, and `prepare_database`. The tables are in-memory values updated by the methods.
- `Log` rows and their message texts are not modelled. Neither is the `print` in `fetch_sign_url_prefix`.
- `everyday_task`, the `do_auto_task` scheduler loop with `time.sleep`, and `launch.py` are not modelled. They are wall-clock and process bootstrap code.
- Operator.TiebaOperator.FetchFavoriteTiebaList: requires that some page of the listing lacks `下一页`. On a site where every page has the marker, the source loops forever, and this case is not modelled.
- AutoTask.TaskContext.FetchListTask: requires that the listing of every account due for a refresh ends (`DueListsEnd`), for the reason given for `FetchFavoriteTiebaList`. Paused and not-due accounts, which are never fetched, are not constrained.
- AutoTask.TaskContext.SignRows: the order in which the query yields the selected rows is left open: any order satisfies the contract.
- AutoTask.TaskContext.SignTask: an error from `sign_task` ends it and propagates into `limit_retry`, whose handler then raises `TypeError` (`LimitRetry`). `everyday_task`, which calls both tasks, is not modelled.
- Cookies.RequestAdapter.Save: returns the updated account row instead of assigning `account.cookie` on the caller's object.
- Cookies.RequestAdapter.Valid: cookies that responses set are never merged into the jar. In the program the opener's cookie processor stores them, for other domains such as `.baidu.com` too. The invariant's single domain and path, and a jar keyed by name alone, hold only because of this.
- Cookies.IsExpired: `is_expired` compares `expires` with the time `now` passed in. The jar's own expiry of cookies the site sets is not modelled.

## Findings

| source | as written | input that shows it | evidently intended | confidence | as-written member | corrected member |
|---|---|---|---|---|---|---|
| src/request_adapter.py:54 | `save` closes every entry with ';', so the saved string ends in ';' and its last `split(';')` segment is empty; `load` at line 43 raises `ValueError` unpacking it | any jar, e.g. one cookie `a=1`: `save` writes `a=1;`, and `load` of that raises on the segment `''` | `load` reads back what `save` wrote | high (not executed) | Cookies.SaveOutputFailsToLoad | Cookies.IntendedLoadRoundTrip |
| src/request_adapter.py:44-45 | `name.strip(' ')` and `value.strip(' ')` are computed and discarded | the browser-style string `a=1; b=2` loads a cookie named ` b` | names and values are trimmed | high (not executed) | Cookies.LoadKeepsSpaces | Cookies.IntendedLoadTrimsPair |
| src/auto_task.py:129 | the handler concatenates `str + int` (`counter`), which raises `TypeError` out of the `except` branch, so no call is ever retried | a task whose first call raises, with `retry_limit = 10`: one call, then `TypeError` | up to `retry_limit` calls, logging `str(counter)` | high (not executed) | AutoTask.LimitRetry | AutoTask.LimitRetryIntended |
