# Task manager: browser store and server task routes

A model of the two places where the task manager keeps its logic:

- **The browser's `TaskManager`** (frontend/js/app.js). It holds the loaded task list and the filter selector. The model covers:
  - the operations that change that state: load, add after validating the form, delete after confirmation, optimistic toggle, and setting the filter;
  - the views derived from it: the filtered and sorted list, the statistics counters, and the text-and-date search.

  Module `ClientViews` holds the pure views and the form validation. Module `ClientStore` holds the class `TaskManager`, with the fields `tasks` and `currentFilter`.
- **The server's task routes** (backend/app/routers/tasks.py). The model covers:
  - the ordered checks of `create_task`;
  - the strict `strptime` parsing of the search date, and the search filter;
  - the handlers run over the `z_tasks` table.

  Module `ServerRules` holds the checks, the parsing and the search filter. Module `ServerTable` holds the class `TaskTable`: a sequence of rows with unique ids plus the auto-increment counter.
- **Where the two sides agree and differ** (module `ClientServer`):
  - A date the server prints or accepts is read by the browser as the same day.
  - The browser refuses a due date of today that the server accepts.
  - A two-digit year or a trailing `/-` is read by the browser and refused by the server.
  - A match in the description alone is found only by the browser.

Shared helpers:
- `Text`: trimming, lower-casing, substrings, `split`, decimal numerals.
- `Seqs`: filtering with its multiset and subsequence facts.
- `Calendar`: dates, ECMAScript day counting, and the `YYYY-MM-DD` and `D/M/YYYY` forms.
- `Results`: the `Option` and `Result` types.

Dates are calendar triples.
- The server compares them as Python does (year, month, day).
- The browser compares them by day count (`DayNumber`, days from 0001-01-01). This follows MakeDay, so out-of-range months and days roll over as `new Date(y, m - 1, d)` does.
- On valid dates the two orders agree (`Calendar.DayNumberOrder`).

The outcome of each `fetch` and the answer of `confirm` are parameters: `Transport.TransportFailed` or `Transport.Completed(body)`. `date.today()` and `new Date()` are the parameter `today`.

## Model

| member | source | states |
|---|---|---|
| ClientStore.TaskManager.constructor | frontend/js/app.js:4-6 | a new manager has no tasks and the filter `all` |
| ClientStore.TaskManager.LoadTasks | frontend/js/app.js:91-102 | a completed fetch replaces the list wholesale with the body; a failed one keeps the old list |
| ClientStore.TaskManager.AddTask | frontend/js/app.js:104-146 | a draft failing validation sends no request and leaves the list unchanged; otherwise the request body is the trimmed draft with `completed` false, and a completed request appends exactly the returned record after the unchanged earlier tasks |
| ClientStore.TaskManager.DeleteTask | frontend/js/app.js:148-160 | a declined confirmation sends nothing and changes nothing; a completed request leaves the tasks without that id in their order; a transport failure keeps the list |
| ClientStore.TaskManager.ToggleTask | frontend/js/app.js:162-174 | a request is sent exactly when some task has the id; the new list is `ToggleFirst` of the old one whatever the request's outcome, so a failure does not undo the flip; an absent id changes nothing |
| ClientStore.TaskManager.SetFilter | frontend/js/app.js:176-177 | only the selector changes, to the given value |
| ClientStore.TaskManager.FilteredTasks | frontend/js/app.js:190-207 | the view of the current state holds each task the selector keeps, as often as in the list, and no other; incomplete tasks come first |
| ClientStore.TaskManager.CurrentStats | frontend/js/app.js:259-267 | the counters of the current list: total is its length, completed counts its completed positions, and completed + pending = total |
| ClientStore.TaskManager.SearchTasks | frontend/js/app.js:269-302 | the search runs over the whole list, not the filtered view: a subsequence of it holding each matching task as often as the list does |
| ClientStore.ToggleTwiceSession | frontend/js/app.js:162-174 | loading and then toggling one id twice gives back the loaded list, its filtered view and its statistics, even when both requests fail |
| ClientViews.FilteredView | frontend/js/app.js:190-207 | each task occurs in the view as often as in the list if the filter selects it, else never; incomplete tasks come first; due days ascend within each completion group; tasks with equal sort keys keep their list order |
| ClientViews.SortTasks | frontend/js/app.js:204-207 | the sort returns a permutation of its input, ordered by the comparator, and tasks with equal keys keep their relative order (stable) |
| ClientViews.CompareByKeys | frontend/js/app.js:205-206 | the comparator is negative exactly when a sorts first (incomplete first, then earlier due day) and zero exactly when the sort keys are equal |
| ClientViews.CompareIsTotalOrder | frontend/js/app.js:205-206 | the comparator is total and transitive, so the sorted order is well defined |
| ClientViews.ViewMembership | frontend/js/app.js:190-203 | a task is in the view exactly when it is in the list and the selector keeps it |
| ClientViews.FilterSelectors | frontend/js/app.js:192-203 | the `switch` of `MatchesFilter`: a priority selector keeps exactly that priority; `completed` keeps exactly the completed tasks; every other selector shows every task |
| ClientViews.ViewOfAll | frontend/js/app.js:191-203 | a selector that names no priority and is not `completed` gives a view that is a permutation of the whole list |
| ClientViews.ViewDatesAscend | frontend/js/app.js:206 | within a completion group of the view, no valid due date comes after a later one in calendar order |
| ClientViews.StatsOf | frontend/js/app.js:259-267 | total is the number of tasks, completed the number of positions holding a completed task and pending the number holding a pending one; completed + pending = total, and completed = total exactly when every task is completed |
| ClientViews.CountsAreIndices | frontend/js/app.js:261-266 | the lengths of the two filtered lists count the positions of completed and of pending tasks |
| ClientViews.AllCompleted | frontend/js/app.js:261-263 | the completed count equals the list length if and only if every task is completed |
| ClientViews.Search | frontend/js/app.js:269-302 | the result is the subsequence of the whole list whose tasks pass the lower-cased title-or-description test and the same-day test, each passing task as often as in the list and no other; an empty field tests nothing, and two empty fields give the list itself |
| ClientViews.ValidateDraft | frontend/js/app.js:114-128 | the draft is accepted exactly when the trimmed title has a JavaScript length (UTF-16 code units) of at least 3, the trimmed description of at least 5, the priority is baja, media or alta, and a due day after today is given; the accepted body carries `completed` false; on valid dates "after" is calendar order |
| ClientViews.DraftChecksInOrder | frontend/js/app.js:114-126 | each form error is reported exactly when the earlier checks pass and that one fails |
| ClientViews.WithoutId | frontend/js/app.js:152 | the kept tasks are exactly those with another id, in their original order and with their multiplicities |
| ClientViews.FindId | frontend/js/app.js:163 | `find` lands on the first task with the id, or on none when no task has it |
| ClientViews.ToggleFirstTouchesOne | frontend/js/app.js:163-165 | `ToggleFirst` keeps the length, changes no field but `completed`, and changes exactly the position of the first task with the id; the completed count changes exactly when some task has the id |
| ClientViews.ToggleFirstChangesFirst | frontend/js/app.js:163-165 | `ToggleFirst` changes a position exactly when it holds the first task with the id |
| ClientViews.FlipChangesCount | frontend/js/app.js:165 | negating one task's `completed` moves the completed count by exactly one, in the right direction |
| ClientViews.ToggleTwice | frontend/js/app.js:162-165 | toggling the same id twice restores the list |
| ClientViews.FindIdIgnoresCompleted | frontend/js/app.js:163 | flipping a task's `completed` does not change which task `find` returns |
| Text.Trim | frontend/js/app.js:106 | the trimmed string is no longer than the input and neither starts nor ends with whitespace |
| Text.TrimBlank | frontend/js/app.js:106 | a blank field trims to the empty string, which `!title` refuses |
| Text.JsLength | frontend/js/app.js:114 | `length` counts UTF-16 code units: at least one and at most two per character |
| Text.JsLengthOfChar | frontend/js/app.js:114 | one character is two code units when it lies above U+FFFF and one otherwise |
| Text.JsLengthAppend | frontend/js/app.js:114 | the code-unit length of a concatenation is the sum of the lengths |
| Text.JsLengthCounts | frontend/js/app.js:114-116 | the code-unit length is the number of characters plus the number of characters above U+FFFF |
| Text.JsLengthOfBmp | frontend/js/app.js:114 | for characters below U+10000 the JavaScript length is the number of characters |
| Text.TrimRemovesOnlySpace | backend/app/routers/tasks.py:24 | trimming removes only whitespace, from both ends, and keeps the inner text unchanged |
| Text.Split | frontend/js/app.js:288 | `split` gives at least one part and no part holds the separator; a string without it is its own single part |
| Text.JoinSplit | frontend/js/app.js:292 | joining the parts of `split` with the separator gives back the string |
| Calendar.ValidDayOrder | frontend/js/app.js:206 | on valid dates, the comparator's difference of time values orders dates as the calendar does |
| Calendar.DayNumberOrder | frontend/js/app.js:123-126 | on valid dates, comparing time values (day counts) is comparing dates in calendar order, and equal counts mean equal dates |
| ServerRules.DescriptionExtendsTitle | backend/app/routers/tasks.py:17-18 | every valid title is a valid description; a valid description of at least 3 characters without `!?()` is a valid title exactly when it has at most 100; `¿` is in neither class and `!` only in the description's |
| ServerRules.ValidateCreate | backend/app/routers/tasks.py:22-42 | a request is accepted exactly when the stripped title matches the title expression, the cleaned description is empty or matches the description expression, the priority is valid, and the due date is not before today; the accepted task holds the cleaned fields; every rejection is a 400 |
| ServerRules.CreateChecksInOrder | backend/app/routers/tasks.py:28-42 | checks run as title, description, priority, date, and the first failing one decides the error |
| ServerRules.TodayIsAccepted | backend/app/routers/tasks.py:40 | a due date equal to today is accepted; on valid dates acceptance is "day count not below today's" |
| ServerRules.BlankDescriptionAccepted | backend/app/routers/tasks.py:25-33 | a missing or blank description skips its check and is stored as the empty string |
| ServerRules.ParseDueDate | backend/app/routers/tasks.py:77-83 | a parsed search date is a valid calendar date with a year from 1 to 9999, read from a string that splits into exactly three parts on its separator, each part read by its field in the order the separator selects |
| ServerRules.YearField | backend/app/routers/tasks.py:81 | `%Y` reads a field exactly when it is four digits, and its value is that numeral's, a year from 0 to 9999 |
| ServerRules.FiveDigitYearRefused | backend/app/routers/tasks.py:81-83 | a five-digit year makes both date forms fail to parse |
| ServerRules.MonthField | backend/app/routers/tasks.py:81 | `%m` reads one or two digits naming a month from 1 to 12, with that numeral's value |
| ServerRules.DayField | backend/app/routers/tasks.py:83 | `%d` reads one or two digits, or a space and a digit, naming a day from 1 to 31 |
| ServerRules.DayFieldSpacePadded | backend/app/routers/tasks.py:83 | `%d` accepts a day from 1 to 9 padded with a space |
| ServerRules.MakeDate | backend/app/routers/tasks.py:81-83 | the three fields make a date exactly when all are read, the year is at least 1 and the day exists in that month; the date holds the fields |
| ServerRules.YearFieldOfNumeral | backend/app/routers/tasks.py:81 | `%Y` reads a four-digit numeral as its value |
| ServerRules.MonthFieldOfNumeral | backend/app/routers/tasks.py:81 | `%m` reads every month, padded to two digits or not |
| ServerRules.DayFieldOfNumeral | backend/app/routers/tasks.py:83 | `%d` reads every day of a month, padded to two digits or not |
| ServerRules.IsoParts | backend/app/routers/tasks.py:80-81 | a string holding `-` is read field by field as `%Y-%m-%d` |
| ServerRules.DmyParts | backend/app/routers/tasks.py:82-83 | a `/`-separated string without `-` is read field by field as `%d/%m/%Y` |
| ServerRules.ParseIsoRoundTrip | backend/app/routers/tasks.py:80-81 | every date from year 1 to 9999, printed as `YYYY-MM-DD`, parses back to itself |
| ServerRules.ParseDmyRoundTrip | backend/app/routers/tasks.py:82-83 | every date from year 1 to 9999, printed as unpadded `D/M/YYYY`, parses back to itself |
| ServerRules.SearchRecords | backend/app/routers/tasks.py:63-89 | a non-empty date that does not parse is a 400, and only then is there an error; otherwise the result is the subsequence of rows whose title contains the stripped title query ignoring case and whose due date is the parsed date, each selected row as often as in the table and no other; absent or empty parameters filter nothing |
| ServerTable.FindRow | backend/app/routers/tasks.py:95 | the lookup finds a row with that id, or none exactly when no row has it |
| ServerTable.FlipId | backend/app/routers/tasks.py:98 | after a toggle, the rows with that id have `completed` negated and every other row is unchanged |
| ServerTable.ToggleTwiceRestores | backend/app/routers/tasks.py:98 | negating the same record twice restores the table |
| ServerTable.FlipAtIndex | backend/app/routers/tasks.py:95-98 | with unique ids, negating the row found by the lookup is negating every row with that id |
| ServerTable.RemoveId | backend/app/routers/tasks.py:110 | the table after a delete holds exactly the rows with another id, in their order and with their multiplicities |
| ServerTable.KeepsRowsWithoutId | backend/app/routers/tasks.py:110 | deleting an id no row has leaves the table as it is |
| ServerTable.DeleteFound | backend/app/routers/tasks.py:107-110 | deleting the row the lookup found removes exactly one row, leaves no row with that id, and keeps the table invariant |
| ServerTable.AppendKeepsInvariant | backend/app/routers/tasks.py:44-53 | appending a well-formed row under the counter's id keeps ids unique and below the advanced counter; no stored row had that id |
| ServerTable.DropRow | backend/app/routers/tasks.py:110 | removing one row shifts the later rows down by one and keeps ids unique |
| ServerTable.DropKeepsInvariant | backend/app/routers/tasks.py:110 | removing a row keeps ids unique and below the counter, and every row well formed |
| ServerTable.StoredRowsFitColumns | backend/app/models.py:15-17 | every stored row has a positive id below the counter, a title of 3 to 100 characters and a description of at most 255, so it fits its columns |
| ServerTable.RemoveAtIndex | backend/app/routers/tasks.py:107-110 | with unique ids, deleting the row the lookup found removes exactly one row and no other |
| ServerTable.TaskTable.constructor | backend/app/models.py:15 | a new table is empty and the counter starts at 1 |
| ServerTable.TaskTable.CreateTask | backend/app/routers/tasks.py:22-53 | for a due date that is a real date, as `TaskCreate` guarantees: on a failed check the error is returned and the table is unchanged; otherwise one row with a fresh id, the cleaned fields and `completed` false is appended, and the counter advances; ids stay unique and every row stays well formed |
| ServerTable.TaskTable.ListTasks | backend/app/routers/tasks.py:57-59 | the listing is the table: the same rows with the same multiplicities; ids are unique and below the counter, and each row passed the create checks |
| ServerTable.TaskTable.SearchTasks | backend/app/routers/tasks.py:63-89 | over the stored rows: a 400 exactly for a non-empty date that does not parse; otherwise the rows the filters select, in table order, each as often as stored |
| ServerTable.TaskTable.ToggleTask | backend/app/routers/tasks.py:93-101 | an unknown id gives 404 and the table is unchanged; otherwise only that row's `completed` is negated and the toggled row is returned |
| ServerTable.TaskTable.DeleteTask | backend/app/routers/tasks.py:105-112 | an unknown id gives 404 and the table is unchanged; otherwise exactly that row is removed, the others keep their order, and the detail message is returned |
| ClientServer.ToTasks | backend/app/schemas.py:22-29 | the JSON list holds one task per row, in table order |
| ClientServer.ToTasksMembership | backend/app/schemas.py:22-29 | a stored row reaches the browser exactly when it is in the table |
| ClientServer.DueDateChecks | frontend/js/app.js:126 | on valid dates the browser's "after today" implies the server's "not before today", and they differ on exactly one day, today |
| ClientServer.DueTodayDiverges | frontend/js/app.js:126 | a draft due today that passes the other checks is refused by the form, while the server stores the same request |
| ClientServer.DraftDateAccepted | backend/app/routers/tasks.py:40 | every due date the form lets through is one the server accepts |
| ClientServer.JsNumberOfNumeral | frontend/js/app.js:288 | `Number` of a decimal numeral is its value |
| ClientViews.JsNumberOfBlank | frontend/js/app.js:288 | `Number` of an empty or blank part is 0 |
| ClientViews.JsNumberOfNegative | frontend/js/app.js:292 | `Number` of a minus sign and a decimal numeral is the negated value |
| ClientViews.NegativeShape | frontend/js/app.js:292 | a minus sign followed by a numeral has no whitespace at either end, so `Number` reads it untrimmed |
| ClientViews.MissingPartMatchesNothing | frontend/js/app.js:286-293 | a date query that splits into fewer than three parts builds an invalid `Date`, so no task matches |
| ClientServer.ReadParts | frontend/js/app.js:286-293 | when the first three parts are numerals, the query denotes those numbers, in `D/M/Y` order when it holds `/` and `Y-M-D` order otherwise; further parts are ignored |
| ClientServer.IsoFields | frontend/js/app.js:292 | three dash-separated numerals are read as year, month and day |
| ClientServer.DmyFields | frontend/js/app.js:288 | three slash-separated numerals, with any further `/` parts, are read as day, month and year |
| ClientServer.ClientIsoReads | frontend/js/app.js:290-292 | the browser reads `YYYY-MM-DD` of a date as its year, month and day |
| ClientServer.ClientDmyReads | frontend/js/app.js:286-288 | the browser reads unpadded `D/M/YYYY` of a date as its day, month and year |
| ClientServer.FourDigitYearInRange | frontend/js/app.js:289 | every date with a year from 1 to 9999 lies within the range of JavaScript time values |
| ClientServer.LocalDayOf | frontend/js/app.js:289 | `new Date(y, m - 1, d)` of a valid date from year 100 to 9999 is that date's day |
| ClientServer.LocalDayOfShortYear | frontend/js/app.js:289 | `new Date(y, m - 1, d)` with y from 0 to 99 is the day of that date in 1900 + y |
| Calendar.DayRollsOver | frontend/js/app.js:289 | in `new Date(y, m - 1, d)` the day after a month's last is the first of the next month, or of January of the next year after December |
| Calendar.MonthCarries | frontend/js/app.js:289 | a month index twelve past another denotes the same month of the next year |
| Calendar.UnixEpoch | frontend/js/app.js:283 | the day count of 1970-01-01, the origin of time values, is 719162 |
| ClientServer.ClientIsoRoundTrip | frontend/js/app.js:290-293 | the browser reads `YYYY-MM-DD` of a date from year 100 to 9999 as that date's day |
| ClientServer.ClientDmyRoundTrip | frontend/js/app.js:286-289 | the browser reads unpadded `D/M/YYYY` of a date from year 100 to 9999 as that date's day |
| ClientServer.DateSearchAgrees | frontend/js/app.js:281-301 | for a query in either printed form, the server answers without error, and a task with a valid due date is in the browser's result exactly when the server returns its row |
| ClientServer.UnparsedIsRejected | backend/app/routers/tasks.py:85-87 | a non-empty date the server cannot parse is answered with a 400, whatever the table and the title query |
| ClientServer.ShortYearReads | frontend/js/app.js:288 | the browser reads `D/M/YY` as the numbers YY, M and D |
| ClientServer.ShortYearUnparsed | backend/app/routers/tasks.py:83 | `%d/%m/%Y` refuses `D/M/YY`, since `%Y` needs four digits |
| ClientServer.ShortYearDay | frontend/js/app.js:288-289 | the browser reads `D/M/YY` as the day of that date in 19YY |
| ClientServer.QueryFindsDay | frontend/js/app.js:281-301 | a date query read as the day of a date finds every task due on that date |
| ClientServer.TwoDigitYearDiverges | frontend/js/app.js:288-289 | for `D/M/YY`, the browser searches the day of 19YY and finds every task due then, while the server answers 400 for any table |
| ClientServer.TrailingReads | frontend/js/app.js:288 | the browser reads `D/M/YYYY/-` from its first three `/` parts |
| ClientServer.TrailingDashParts | backend/app/routers/tasks.py:80-81 | the server splits `D/M/YYYY/-` on its one `-` and finds two parts, which `%Y-%m-%d` refuses |
| ClientServer.TrailingDay | frontend/js/app.js:288-289 | the browser reads `D/M/YYYY/-` as the day of that date |
| ClientServer.TrailingPartsDiverge | backend/app/routers/tasks.py:80 | for `D/M/YYYY/-`, the browser reads the date from the first three `/` parts and finds every task due then, while the server sees a `-` and answers 400 for any table |
| ClientServer.TitleSearchIncluded | frontend/js/app.js:274-279 | every row the server's title search returns is also found by the browser's search |
| ClientServer.DescriptionOnlyDiverges | backend/app/routers/tasks.py:73-75 | a row matching the query in its description only is listed by the browser and not by the server |

## Left out

- Page and view code is not modelled: element caching, listeners, navigation, the mobile menu, `renderTasks`, `createTaskCard`, `showToast` and the button classes set by `setFilter`. None of it changes the task list or the selector.
- `fetch`, `alert`, `confirm`, `console.error` and the timers are left out. The outcome of a request and the answer of `confirm` are parameters. Only a transport failure takes the error path, because `fetch` resolves on any HTTP status.
- ClientStore.TaskManager.AddTask: it appends the returned body typed as a task. The source appends whatever JSON the server sends, including an error object after a 400 or 422.
- ClientStore.TaskManager.LoadTasks: a body that is not a list of tasks is not modelled; the response body is typed as a task sequence.
- `DOMPurify.sanitize` and `bleach.clean` are taken as the identity. Their code is not part of this model.
- Whitespace is space and tab to carriage return. Python's `strip` and `\s` also take U+001C to U+001F, and `trim`, `strip` and `\s` all take further Unicode spaces.
- Lower-casing covers ASCII and the Latin-1 capitals, as `toLowerCase` does. Full Unicode case mapping is left out, and so is the database behind `ilike` (with SQLite, only ASCII letters are folded).
- SQL `%` and `_` inside the title query are matched literally here; the database would read them as wildcards.
- Python's `\d` in `strptime` also accepts non-ASCII digits; only ASCII digits are modelled.
- The browser's due-date comparison uses local calendar days. `new Date("YYYY-MM-DD")` is parsed as UTC and read in local time, which shifts the day west of UTC; that time-zone effect is not modelled.
- `Number()` is modelled for optionally signed decimal numerals, with surrounding whitespace and the empty string (0). Hexadecimal, exponent and fractional forms and `Infinity` are left out; they do not occur in the two date forms.
- JavaScript numbers are unbounded integers here. Precision loss above 2^53 is not modelled; time values beyond 10^8 days from 1970 are modelled as invalid dates.
- The due date of a draft is a date or absent (an empty input). A date input holding an unparseable string is not modelled.
- FastAPI's 422 for a request body that does not fit `TaskCreate` is not modelled. An unknown priority therefore reaches the handler's own 400 check.
- ServerTable.TaskTable.CreateTask: requires a due date that exists in the calendar. `TaskCreate` refuses any other with a 422 before the handler runs, so stored rows always carry real dates.
- The `created_at` timestamp and the order in which the database returns rows are left out. Rows are listed in insertion order.
- Sessions, commits and concurrent requests are not modelled; each handler and each client operation is atomic.
- backend/app/main.py (application set-up and CORS) is not part of this model.
- ClientServer.TitleSearchIncluded: stated only for a query without surrounding whitespace. The server strips the query and the browser does not, so the two differ otherwise.
- ClientServer.DateSearchAgrees: stated for years 100 to 9999. The browser reads a year field of 0 to 99 as 1900 to 1999, which `TwoDigitYearDiverges` covers for `D/M/YY`.
- ClientServer.ClientIsoRoundTrip: stated for years 100 to 9999, for the same reason.
- ClientServer.ClientDmyRoundTrip: stated for years 100 to 9999, for the same reason.
