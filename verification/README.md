# oliepriser scraper, modelled in Dafny

The oliepriser scraper collects heating-oil prices. Each run does the following:

- It logs in to the price API with client credentials.
- It opens a session whose `Authorization` header is built from the token it received.
- It fetches the list of providers. Then it scrapes every provider concurrently:
  - fetch the provider record;
  - fetch the provider's web page;
  - pick the price element;
  - sanitise its text and parse it as a number;
  - post the price;
  - on an accepted post, update the provider's `last_accessed`.
- Finally it reports the run.

`scraper.py` and `src/scraper.py` are byte-identical, so one model covers both with the same line numbers.

This project models that core as pure functions:

- `PyStr` models Python's `str.replace`: left to right, non-overlapping, replace-all. It also models character counting.
- `PyFloat` models `float()` over plain decimal literals. A result is a `Decimal(mantissa, scale)`, meaning `mantissa / 10^scale`, or `None` where Python raises `ValueError`.
- `Price` models `_sanitize_price_string`. This is the fixed chain of five replacements (remove `kr.`, remove `,-`, remove `.`, turn `,` into `.`, remove spaces), followed by `float()`.
- `Records` holds the token, credentials and provider records, and the `Authorization` header.
- `Scraper` models one run as a function from what the network does to the ordered list of effects. An HTTP call is an abstract `Response`: `Answered(status, body)` or `Raised`. The effects are:
  - the requests sent (`Login`, `OpenSession(header)`, `ListProviders`, `GetProvider`, `GetPage`);
  - `PostPrice`, `PutLastAccessed` and `PostRun`;
  - `Log` lines, tagged by the branch that prints them;
  - `Abort`, for an exception escaping the run.
- `Examples` works the sanitiser through concrete price texts.

Three consequences of the code are worth stating plainly, because the error handling might suggest otherwise:

- A failed provider-record fetch (`_get_provider` raises) is not caught inside `_scrape_provider`. The same holds for an exception from the page fetch. Either one escapes the gather and skips the run report, so such a per-provider failure does stop the run (scraper.py:67-71, 133-136, 233-235).
- The parse error's message quotes the sanitised text, not the original text. Python's `float()` message names its argument, which is the sanitised string (scraper.py:104-107).
- `main.py` calls `run()` with no `try`, so an escaping exception ends the process rather than waiting for the next run (main.py:29-33).

## Model

| member | source | states |
|---|---|---|
| PyStr.Replace | scraper.py:98-102 | `str.replace` replaces every occurrence: after replacing a one-character pattern by text that does not contain it, the pattern character is gone. |
| PyStr.ReplaceLength | scraper.py:97-103 | Each replaced occurrence changes the length by the difference between the replacement and the pattern. `Matches` counts the occurrences. |
| PyStr.ShrinkingReplace | src/scraper.py:97-103 | A replacement shorter than its pattern never lengthens the text. It shortens the text exactly when the pattern occurs. |
| PyStr.ReplaceAbsent | scraper.py:98-102 | Replacing a pattern that does not occur leaves the text unchanged. |
| PyStr.ReplaceSkip | scraper.py:98-102 | A prefix without the pattern's first character is copied through, and replacement continues after it. |
| PyStr.ReplaceCharAppend | scraper.py:100-102 | Replacing a single character distributes over concatenation. |
| PyStr.ReplaceCharCount | scraper.py:100-102 | After every `c` becomes `rep`, a character occurs once per copy outside the removed `c`s, plus once per copy in `rep` for each `c`. |
| PyStr.ReplaceCharDelete | scraper.py:100 | Deleting a character removes every copy of it and leaves the count of every other character unchanged. |
| PyStr.ReplaceCharSwap | scraper.py:101 | Turning `c` into `d` leaves no `c`. The count of `d` becomes the old `d` count plus the `c` count. |
| PyFloat.ParseFloat | scraper.py:104-105 | `float()` never parses blank text, and it gives a negative number only when the stripped text starts with `-`. |
| PyFloat.ParseFloatShape | scraper.py:104-105 | `float()` succeeds exactly when the stripped text is an optional sign followed by digits and at most one dot, with at least one digit. |
| PyFloat.ParseUnsignedShape | scraper.py:105 | The unsigned parser accepts exactly the texts made of digits and at most one dot, with at least one digit. |
| PyFloat.ParseFloatRender | scraper.py:105 | Any decimal written out with a `.` separator parses back to that same decimal, sign and scale included. |
| PyFloat.PositiveIsValuePositive | scraper.py:153 | The integer test `mantissa > 0` used for `price > 0` agrees with the real value being positive. |
| PyFloat.DigitsValueAppend | scraper.py:105 | The value of concatenated digit strings is the left value shifted by the right length, plus the right value. |
| Price.SanitizePrice | scraper.py:90-107 | `_sanitize_price_string` returns a number exactly when the sanitised text, stripped, has the literal shape. Otherwise it returns the parse error, which quotes the sanitised text. |
| Price.Sanitize | scraper.py:97-103 | The replacement chain leaves no `,` and no ` ` in the text. |
| Price.SanitizeCounts | scraper.py:98-102 | After currency removal: `,` and ` ` end at zero, `.` ends at the comma count, and every other character keeps its count. |
| Price.SanitizeDotsFromCommas | scraper.py:98-101 | The sanitised text has exactly as many dots as there are commas left after the `kr.` and `,-` removals. Input dots are all gone before commas become dots. |
| Price.SanitizeNeverLonger | src/scraper.py:97-103 | The sanitised text is never longer than the input. |
| Price.SanitizeKeepsPlain | src/scraper.py:97-103 | Text with no `,`, `.` or ` ` passes through the chain unchanged. |
| Price.SanitizeFixedIsPlain | src/scraper.py:97-103 | Text the chain leaves unchanged has no `,`, `.` or ` `. |
| Price.SanitizeUnchangedIff | src/scraper.py:97-103 | The chain leaves a text unchanged if and only if it has no `,`, `.` or ` `. |
| Price.CommaToDot | scraper.py:101 | A single comma between comma-free parts becomes a dot. |
| Price.SanitizeDanish | scraper.py:97-103 | A Danish literal (sign, digits, optional decimal comma) sanitises to the same literal with a decimal point. |
| Price.SanitizeRender | scraper.py:97-103 | A decimal written the Danish way sanitises to the same decimal written with a point. |
| Price.SanitizePriceRender | scraper.py:104-105 | Every decimal written the Danish way, including zero and negatives, comes back as exactly that decimal. The sanitiser has no sign check. |
| Records.SetToken | scraper.py:170-180 | Setting the token attaches exactly that token and keeps the client id and secret. The session configured afterwards carries that token's header. |
| Records.AuthHeader | src/scraper.py:212 | The header is the token type, one space, then the access token, character for character. |
| Records.ConfigureClient | scraper.py:204-214 | The authenticated session gets a header exactly when a token is attached, and the header is built from that token. |
| Records.AuthHeaderRoundTrip | scraper.py:212 | For a token type with no space, splitting the header at its first space gives back the token. |
| Scraper.ReportPrice | scraper.py:153-166 | Only a positive price is posted. The last-accessed PUT follows only a 200/201 post, at most once. The update comes after the post. Post and PUT exceptions are logged, not raised. Exactly one log line ends the branch. |
| Scraper.AddPriceAccepted | scraper.py:73-87 | A positive price is posted, and only a positive one. The last-accessed update is sent exactly when that post answered 200 or 201, the statuses `_add_price_for_provider` treats as success. |
| Scraper.HandleElement | src/scraper.py:149-168 | No element gives only "No price found". A parse error gives only the error log. Otherwise a post happens exactly for a positive parsed price. Nothing escapes. |
| Scraper.PageOutcome | src/scraper.py:136-141 | A non-200 page gives one log line and no post or PUT. A raising page fetch escapes, and that exception is the last effect. |
| Scraper.PageReports | scraper.py:136-159 | After the page fetch, a post happens exactly when page and element yield a positive price. An update happens exactly when that post was accepted. |
| Scraper.ScrapeProvider | scraper.py:133-168 | A task starts by fetching its record. It raises exactly when the record fetch fails or the page fetch raises. Its effects are all provider-scoped. |
| Scraper.ProviderReports | scraper.py:133-168 | A task's posts and updates are exactly what its responses call for. A task that does not raise ends in one log line. |
| Scraper.Gather | scraper.py:117-120 | The gather, folded sequentially, yields a prefix of what every task yields in list order. |
| Scraper.GatherAbort | scraper.py:117-120 | The gather raises exactly when some task raises. |
| Scraper.GatherFrom | scraper.py:117-120 | Every effect of the gather is an effect of some task. |
| Scraper.GatherAbortLast | scraper.py:117-120 | If each task ends at its exception, so does the gather. |
| Scraper.GatherIsolated | scraper.py:117-120 | When no task raises, every task runs, in list order. |
| Scraper.GatherStops | scraper.py:117-120 | In the sequential fold, the first raising task is the last one taken. |
| Scraper.ScrapeAll | scraper.py:109-120 | Scraping all providers raises exactly when some provider's task raises. The exception is the last effect. Only provider effects happen. |
| Scraper.ScrapeAllReports | scraper.py:117-120 | When no task raises, the posts and updates are exactly the per-provider reference lists, in list order. |
| Scraper.ScrapeAllStopsAtFirstRaise | scraper.py:67-71 | In the sequential fold, the first provider whose task raises (failed record fetch or raising page fetch) is the last one taken. The fold records nothing of the providers after it. |
| Scraper.Report | scraper.py:29-44 | The run is reported exactly when no task raised. An exception from the report itself escapes. |
| Scraper.Session | src/scraper.py:232-235 | The session opens, then lists providers. The run is reported exactly when the listing returned 200 and no task raised. An exception escapes exactly otherwise, or when the report raises. The exception is the last effect. |
| Scraper.SessionScope | src/scraper.py:53-57 | A session sends only the header it was opened with. It fetches providers only after a 200 listing. |
| Scraper.SessionPhases | scraper.py:232-235 | A listing with no raising task is followed by every task, in order, then the run report. |
| Scraper.Run | scraper.py:182-235 | The run logs in first. A non-200 login raises immediately and leaves the credentials unchanged. The token is stored. The header is built from it. Providers are listed exactly when the login succeeded. The report is posted exactly when the run completes. |
| Scraper.RunPhases | src/scraper.py:228-235 | A completed run is exactly: login, open session, list, every task in order, report. |
| Examples.ThousandsWithSuffix | scraper.py:97-107 | `12.345,-kr.` sanitises and parses to 12345. |
| Examples.DecimalComma | scraper.py:97-107 | `9,99 kr.` sanitises and parses to 9.99. |
| Examples.NotANumber | scraper.py:104-107 | `ring os` yields the parse error quoting `ringos`. |
| Examples.NoSignCheck | scraper.py:104-105 | `0` and `-5,50` parse to 0 and -5.50. Neither is rejected by the sanitiser. |

## Left out

- HTTP through aiohttp (sessions, URLs, JSON bodies, response text) is network I/O. Each call is an abstract `Response`, and a `Raised` stands for any exception the call throws.
- A provider's `page` being `Raised` also stands for an exception from `response.text()` or from `select_one` (for example on a malformed selector, scraper.py:144-146). Such an exception escapes the task exactly like a failed page GET.
- The request bodies (the posted JSON, the login form) and the URLs are not modelled. An effect records only what is sent to whom: the credentials, the header, the provider id and the price.
- BeautifulSoup's `select_one` and `get_text` are a foreign library. The page body is the `Option<string>` text of the first matching element.
- Scraper.Gather: `asyncio.gather` starts every provider task before it waits on any of them, and runs them concurrently. The model folds the outcomes one after another in list order and stops at the first task that raises. The interleaving of the tasks is not modelled.
- Scraper.ScrapeAllStopsAtFirstRaise: in the program, the providers after the first raising one are still fetched, because their tasks are already running. Their record and page requests, and any price they post before the run ends, are not in the model's effects. The same holds for Scraper.GatherStops and Scraper.GatherAbortLast. In the other direction, providers earlier in the list that have not finished when another task raises are cancelled in the program: the run leaves the session (scraper.py:232-235) and the pending tasks are cancelled. The fold credits those providers with every request, post and update.
- Scraper.ScrapeAll: the ensures that the exception is the last effect holds only of the sequential fold. In the program, still-running sibling tasks can act after the first exception.
- Scraper.Session: the ensures that the exception is the last effect holds only of the sequential fold, for the same reason.
- Scraper.Run: the ensures that the exception is the last effect holds only of the sequential fold, for the same reason.
- The clock: `datetime.now()`, ISO timestamps and the run's start and end times are not modelled. The run report is a bare `PostRun`.
- The outer loop, `asyncio.sleep` and environment loading in main.py are process plumbing.
- tests/test_connection.py is a live network smoke test.
- PyFloat.ParseFloat accepts only plain decimal literals: an optional sign, ASCII digits and at most one dot, after stripping Python whitespace. Exponents, `inf`/`nan`, `_` separators, non-ASCII digits, IEEE rounding and overflow are not modelled. The result is an exact decimal, not a binary float, and `-0` parses as 0.
- The text of the `print` lines is not modelled. Each line is a `Log` tagged with the branch that prints it and the provider's name.
- The provider list's entries are reduced to the `id` that `_scrape_provider` reads from each entry.
- The `"Bearer"` default for `token_type` in src/credentials.py:14 is not modelled. The scraper always builds its token from both fields of the login response.
