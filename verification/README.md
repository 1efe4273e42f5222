# Random member picker — a verified model

This project models, in Dafny, the engine behind the "Gigg Community Random
User Picker" Streamlit page (`streamlit_app.py`). The engine has three parts:

- **The member download** (`pull_all_users_from_APIs`). It requests pages
  1, 2, 3, … of the Circle members endpoint and projects each record to
  `name`, `email`, `created_at` and `last_seen_at`. It appends the pages in
  order and stops at the first page whose `records` list is empty.
- **The filter pipeline** (`get_random_members`, `filter_last_seen`,
  `filter_account_creation`). It applies, in order:
  - an optional last-seen window ("Today", "This Week", "This Month");
  - an optional account-creation window ("This Month", "Last Two Months",
    "On Launch");
  - the exclusion of staff accounts: "gigg" in the email or "admin" in the
    name, in any letter case.
- **The pick.** The odds line divides by the size of the remaining pool. Then
  `DataFrame.sample(n)` draws `n` rows without replacement.

The model is organised in modules:

| file | module | contents |
|---|---|---|
| `wrappers.dfy` | `Wrappers` | `Option` and `Result` |
| `calendar.dfy` | `Calendar` | See "Calendar" below |
| `frames.dfy` | `Frames` | Members, rows labelled by the frame index, and `Select` (the model of `df.loc[mask]`) |
| `text.dfy` | `Text` | Case-insensitive substring search |
| `fetch.dfy` | `Fetch` | The page oracle, the page loop and the download it computes |
| `filters.dfy` | `Filters` | The two window filters and the staff exclusion |
| `picker.dfy` | `Picker` | The pipeline, the error order of the odds line and the sample, the sample itself, and the form handler around them |

**Calendar.** An instant is an integer count of nanoseconds since
1970-01-01T00:00:00Z, the resolution of a pandas timestamp, so a bound
written to the second (23:59:59) is exact. The module provides:

- UTC days and the proleptic Gregorian calendar;
- month starts;
- a month index `12 * year + month - 1`.

The month index gives each window a meaning in calendar terms that is
independent of how its bound is computed.

**Parameters in place of outside calls.**

- The clock. `filter_last_seen` and `filter_account_creation` each read it, so
  the pipeline takes two instants, `seenNow` and `createdNow`.
- The HTTP endpoint. It is a page oracle from page number to response.
- The random choice of `sample`. It is a nondeterministic choice of distinct
  positions, so every contract about a draw holds for every possible draw.

## Model

| member | source | states |
|---|---|---|
| Fetch.PageStep | streamlit_app.py:23-28 | What one turn of the loop does. It stops exactly when the page's `records` list is empty. Otherwise it appends the page's projected rows, exactly when the page is readable and every kept column occurs on it. It raises exactly when the body is unreadable (a request error for that page) or the page is non-empty and a kept column is absent from all of its records (a missing-column error). |
| Fetch.ProjectAll | streamlit_app.py:27-28 | Each record becomes one row, in record order. In each of the four kept columns the cell is null exactly when the record's key is missing or null, and otherwise holds the record's value. |
| Fetch.FirstEnd | streamlit_app.py:20-26 | The page that ends the scan is the first page at or after the start that stops or raises. Every page before it appends. |
| Fetch.PullAllUsers | streamlit_app.py:19-32 | The loop requests exactly pages 1..k, where k is the first empty (or failing) page, and nothing after k. It succeeds exactly when page k is empty. Its result is the in-order concatenation of pages 1..k-1, with no deduplication, indexed 0..N-1 in increasing order. |
| Fetch.DownloadIgnoresLaterPages | streamlit_app.py:20-26 | Two servers that agree on pages 1 up to the first empty page give the same download, so no later page influences it. |
| Fetch.ThreePagesThenEmpty | streamlit_app.py:19-32 | Three full pages and an empty fourth: pages 1–4 are requested and the download is the three pages' rows in order. |
| Frames.Label | streamlit_app.py:29 | `concat(..., ignore_index=True)` numbers the accumulated rows 0..N-1 in order. |
| Frames.Select | streamlit_app.py:77-78 | A masked selection keeps exactly the rows that pass, unchanged and in their original order, as a subsequence of its input. Each passing row occurs as often as in the input, and no failing row occurs at all. |
| Frames.SelectSelect | streamlit_app.py:63-64 | Two masks applied one after the other equal one mask by their conjunction. |
| Frames.SelectKeepsIndexOrder | streamlit_app.py:78 | A selection keeps the index labels increasing. |
| Text.ContainsIgnoringCase | streamlit_app.py:63-64 | The case-insensitive search answers true exactly when some slice of the text equals the pattern up to letter case. |
| Text.NoFirstLetterNoMatch | streamlit_app.py:63-64 | A text none of whose letters folds to the pattern's first letter does not contain the pattern. |
| Calendar.StartOfDay | streamlit_app.py:76 | `normalize()` gives a UTC midnight at or before the instant, less than a day before it, on the same UTC day. |
| Calendar.CivilRoundTrip | streamlit_app.py:87 | The instant a date string names maps back to that date: the civil-date conversion is a bijection on valid dates. |
| Calendar.MonthStart | streamlit_app.py:87 | `"{year}-{month}-01"` is midnight of the first day of the month holding `now`. It is not after `now` and has the same month index. |
| Calendar.PreviousMonthStart | streamlit_app.py:113 | The first of the previous month, with January going back to December 1 of the year before. It lies in the month whose index is one less than that of `now`. |
| Calendar.AtOrAfterMonthStart | streamlit_app.py:87-88 | An instant is at or after the first of month k exactly when its own month index is k or later. |
| Filters.ParseSeenWindow | streamlit_app.py:73-85 | The `match` recognises exactly the labels of the three windows, and no other string. |
| Filters.SeenLabelRoundTrip | streamlit_app.py:73-85 | Each window's label selects that window. |
| Filters.SeenKeepsMeaning | streamlit_app.py:74-88 | "Today" keeps an instant exactly when it is on the UTC day of `now` or later. "This Week" keeps it exactly when it is at most seven days before `now`. "This Month" keeps it exactly when it is in the UTC month of `now` or later. |
| Filters.TodayBoundary | streamlit_app.py:76-78 | 23:59:59 of the day before is excluded; 00:00:01 of the current day is included. |
| Filters.FilterLastSeen | streamlit_app.py:71-91 | A recognised window keeps exactly the rows whose last-seen time is present and inside it (null is never kept), as a subsequence. Any other label, "None" included, returns the frame unchanged. |
| Filters.ParseCreatedWindow | streamlit_app.py:106-116 | The `match` recognises exactly "This Month", "Last Two Months" and "On Launch". |
| Filters.CreatedLabelRoundTrip | streamlit_app.py:106-116 | Each creation window's label selects that window. |
| Filters.LaunchBounds | streamlit_app.py:119-120 | The launch bounds are 1_714_521_600 s and 1_717_199_999 s after the epoch. The lower bound is the start of May 2024, and the upper bound is one second before June 1. |
| Filters.ThisMonthMeaning | streamlit_app.py:109 | Created at or after the first of this month exactly when the month index is that of `now` or later. |
| Filters.LastTwoMonthsMeaning | streamlit_app.py:113-114 | Created at or after the first of the previous month exactly when the month index is at least that of `now` minus one. |
| Filters.OnLaunchMeaning | streamlit_app.py:119-121 | The inclusive launch window holds exactly the instants of May 2024 up to 23:59:59 on May 31. |
| Filters.CreatedKeepsMeaning | streamlit_app.py:107-122 | Each creation window's comparison against its bound agrees with its calendar meaning for every instant. |
| Filters.FilterAccountCreation | streamlit_app.py:104-125 | A recognised window keeps exactly the rows whose creation time is present and inside it, as a subsequence. Any other label returns the frame unchanged. |
| Filters.LaunchExamples | streamlit_app.py:119-122 | The following are outside the launch window: 2024-04-30, 2024-06-01, and 23:59:59.5 on May 31. The following are inside it: May 1 at midnight, 2024-05-15, and 23:59:59 on May 31. The answer does not depend on `now`. |
| Filters.LastTwoMonthsInJanuary | streamlit_app.py:113 | In January, "Last Two Months" keeps exactly members created in the current year or in December of the previous year. |
| Filters.ExcludeStaff | streamlit_app.py:61-64 | Removes exactly the rows whose email contains "gigg" or whose name contains "admin", in any case (a null cell never matches). It equals one selection by "not staff". |
| Filters.StaffExamples | streamlit_app.py:63-64 | The following are staff: `bob@gigg.com`, `Bob@GIGG.com`, `admin_bob`, and `bobadminson` (a substring, not a whole word). |
| Filters.NonStaffExamples | streamlit_app.py:63-64 | A member with neither pattern is kept, and so is a member whose name and email are both null. |
| Picker.Pool | streamlit_app.py:44-64 | The pipeline keeps exactly the rows that pass all of: the last-seen window, then the creation window, then (when enabled) the staff test. The rows are unchanged and keep their order. |
| Picker.NoFiltersKeepEveryone | streamlit_app.py:44-64 | With both options "None" and the staff step off, the pool is the whole frame. |
| Picker.PoolKeepsIndexOrder | streamlit_app.py:44-64 | The pool keeps the frame's increasing index labels. |
| Picker.PickCheck | streamlit_app.py:66-68 | A call fails exactly when the pool is empty or the count is outside 0..size. An empty pool fails on the odds division before the sample is reached. Otherwise a negative count and a count above the pool size each fail with their own error, which carries the count (and the size). |
| Picker.FreePositionExists | streamlit_app.py:68 | Fewer distinct draws than rows leave a position undrawn. |
| Picker.Sample | streamlit_app.py:68 | `sample(n)` with n ≤ size returns exactly n rows of the frame, taken at n distinct positions. |
| Picker.GetRandomMembers | streamlit_app.py:39-68 | The call fails with the error of the pool size and count. Otherwise it returns exactly `number_picks` rows from distinct positions of the pool, each of which is in the input and passes every chosen filter. |
| Picker.ShowAsWritten | streamlit_app.py:221-226 | As written, the handler catches only `ValueError`. An empty pool, and only an empty pool, ends in a traceback of the division-by-zero error. Every other pick error shows the message. |
| Picker.ShowCorrected | streamlit_app.py:221-226 | The intended handler never shows a traceback. It shows the message exactly when the call failed. |
| Picker.SubmitPicks | streamlit_app.py:214-226 | For a slider count, the intended page shows the message exactly when the pool holds fewer members than requested. Otherwise it shows that many members, drawn from the pool without replacement: the shown rows sit at distinct pool positions. |
| Picker.CorrectedMessageIffShortPool | streamlit_app.py:221-226 | For a slider count, the intended handler shows the message exactly when the pool size is below the count. |
| Picker.EmptyPoolShowsTraceback | streamlit_app.py:221-226 | As written, an empty pool with a slider count gives an uncaught division by zero. The intended handler shows the message instead. |
| Picker.Last2MonthsIsIgnored | streamlit_app.py:203-206 | The form's "Last 2 Months" passes the `!= "None"` guard, matches no case of the creation filter, and leaves the frame unfiltered. |
| Picker.FormOptionsAreRecognised | streamlit_app.py:197-206 | With the corrected creation label, every non-"None" option of both select boxes names a window, and "None" names none. |
| Picker.FormCreationChoiceTakesEffect | streamlit_app.py:48-49 | With the corrected form, a chosen creation window really restricts the pool: every member in it was created inside the window. |

## Left out

- HTTP, JSON and `check_community` are not modelled. The endpoint is a page oracle; a request error, a non-JSON body and a missing `records` key all collapse into one `Unreadable` response. A null `records` value is taken to read as an empty list.
- The `st.cache_data(ttl='1d')` cache is not modelled. Its behaviour lives in Streamlit.
- `pd.to_datetime` (lines 34–35) is not modelled. Records carry instants that are already parsed, or null. The code parses with the default `errors='raise'`, so an unparsable timestamp aborts the download rather than becoming null. The model does not have that error path.
- pandas dtype effects are not modelled:
  - an all-null timestamp column, or an empty frame, ends up timezone-naive, and comparing it with a UTC bound raises;
  - a column that is all null has no `.str` accessor.
  The model treats every cell uniformly.
- The case-insensitive match folds ASCII letters only. Python's `re.IGNORECASE` also equates some non-ASCII letters; those equivalences are left out.
- Fetch.PullAllUsers: the loop takes a ghost page known to end the scan. Against a server none of whose pages is empty or raises, the code loops forever; the model excludes that server instead of modelling divergence.
- The distribution of `sample` (uniform) is not modelled, nor is the order of the sampled rows. `reset_index` and the display of `name` and `email` are also left out.
- The odds message and its float formatting are not modelled. Only the division's failure on an empty pool is.
- Streamlit UI code (lines 147–213) is left out, including the token check at lines 186–187. That check compares a string with `0` and so never fires. The handler at lines 214–226 is modelled only as far as its exception handling.
- `filter_posts`, `filter_comments` and `filter_activity_score` (lines 94–101, 128–130) are left out. They are never called, and they read columns that line 28 drops.

## Findings

| source | as written | input that shows it | evidently intended | confidence | as-written member | corrected member |
|---|---|---|---|---|---|---|
| streamlit_app.py:205 | The creation select box offers "Last 2 Months", but `filter_account_creation` matches "Last Two Months" (line 111). The option passes the `!= "None"` guard and falls through to `return df`. | `created_option = "Last 2 Months"` | The option filters to members created this month or last month. | high; not executed | Picker.Last2MonthsIsIgnored | Picker.FormCreationChoiceTakesEffect |
| streamlit_app.py:66 | The odds line divides `number_picks` by `len(df)` before sampling. With an empty pool this raises `ZeroDivisionError`, which `except ValueError` (line 225) does not catch. | Any filters that leave no member, e.g. "Today" when nobody was seen today, with picks = 5 | The "There are not 5 members…" message, as for any pool smaller than the count. | high; not executed | Picker.EmptyPoolShowsTraceback | Picker.SubmitPicks |
