# A verified model of the A-share daily-bar loader

`data/data_loader.py` keeps a local SQLite file, `AShare.db`, with one table,
`stock`. The table holds one row of daily trading data per (trade date,
instrument code): open, close, high, low, volume, turnover amount, amplitude,
percent change, absolute change and turnover rate. The row also repeats the
instrument's name. The script's main block does three things:

1. It creates the table if it is missing. The primary key is (日期, 股票代码).
2. It computes how current the stored data is: each code's latest date, the
   latest date overall, the codes that lag behind it, the share of codes that
   are up to date, and the day after the latest date. It prints the first
   lagging rows and that next day.
3. It calls `load_stock_data`. For every listed (code, name) pair, in order,
   the loader fetches daily bars from the market-data provider, stamps each
   row with the name and appends the batch to the table. A failure for one
   instrument is caught and the loop goes on with the next.

This project models those three parts in Dafny and proves what they promise.

- `text.dfy` (module `Text`): SQLite's text order, and zero-padded decimal
  fields.
- `calendar.dfy` (module `Calendar`): Gregorian dates, a day-number reference
  count, one day later or earlier, and the two text forms `YYYY-MM-DD` and
  `YYYYMMDD`.
- `store.dfy` (module `Store`): the table as a map from (date, code) to row,
  the declared schema, `CREATE TABLE IF NOT EXISTS`, and the batch append.
- `sync.dfy` (module `Sync`): the loop of `load_stock_data`. It is an
  imperative method, proved against the specification function `Run`.
- `watermark.dfy` (module `Watermark`): the latest-date report computed from
  the grouped query's rows.
- `script.dfy` (module `Script`): the main block, in the order it runs.

Inputs that come from outside the file are parameters:

- the data provider, a function from (symbol, start, end) to either a table of
  rows or an exception;
- the instrument listing, as two lists, codes and names;
- "today";
- the rows of the grouped SQL query. These are tied to the table by the
  predicate `Watermark.IsGroupMax`, because SQLite returns grouped rows in no
  promised order.

Modelling assumption: a batch append is all-or-nothing. pandas' `to_sql`
inserts the rows inside one transaction that it commits on success and rolls
back on an exception. The file itself does not show this. A batch whose
(日期, 股票代码) keys clash with stored rows, or with each other, is rejected
whole, and the table stays exactly as it was.

Behaviour of the file worth knowing, which the model keeps:

- The report's next start date (line 71) is computed and then never used. The
  refresh always asks for yesterday..today (lines 81-82). `Script.RunScript`
  states its window as a function of "today" alone.
- The share of up-to-date codes (line 68) is computed and never read. The
  check that would have used it (lines 73-74) is commented out.
- The window yesterday..today overlaps the window of the previous day's run.
  A fetched batch that repeats a stored bar, such as yesterday's bar stored
  by that run, is rejected whole, so its new bars are not stored either.
  `Sync.StoredBarRejectsBatch` states this.
- On an empty table the grouped query returns no rows, so line 68 divides by
  zero. The script stops after creating the table and loads nothing.
  `Script.RunScript` states this case.
- Defining `load_stock_data` evaluates its default `start_date` (line 10)
  before the main block starts. On 29 February, or in a year below 6, that
  default names a day that does not exist, and the script stops before it
  opens the database. `Script.RunScript` states this case. It also means that
  the main block never meets a "today" without a yesterday.
- The window expression `MAX(日期) OVER ()` in the grouped query sees, for each
  group, the value from the row that holds the group's maximum. So it yields
  the latest date over the whole table. `GlobalMax` models that value.

## Model

| member | source | states |
|---|---|---|
| `Sync.LoadStockData` | data/data_loader.py:8-27 | The loop leaves the table that `Run` specifies for `zip(codes, names)` and returns a tally of written and skipped pairs that adds up to min(len(codes), len(names)) |
| `Sync.Zip` | data/data_loader.py:13 | `zip` yields min(len(codes), len(names)) pairs, the i-th code with the i-th name |
| `Sync.Stamp` | data/data_loader.py:18 | Every stamped row carries the instrument's name; its key and every other column are unchanged |
| `Sync.Step` | data/data_loader.py:14-27 | A fetch exception gives `FetchFailed`; a batch is `Written` exactly when the table accepts it; on any failure the table is unchanged |
| `Sync.StoredBarRejectsBatch` | data/data_loader.py:17-27 | A fetched batch that repeats the key of a stored bar ends in a write failure, and the table keeps none of its rows |
| `Sync.Run` | data/data_loader.py:13-27 | The loop as a function: the table left after every pair has been tried in listing order, and one outcome per pair |
| `Sync.RunSplit` | data/data_loader.py:13-27 | Running over a listing a + b is running over a, then over b from the table a left; the outcome logs concatenate |
| `Sync.RunLogAt` | data/data_loader.py:13-27 | The i-th outcome is the loop body applied to the i-th pair and the table the earlier pairs left, so every pair is attempted |
| `Sync.FetchFailureIsLocal` | data/data_loader.py:17 | A pair is reported as a fetch failure exactly when the provider raised for that pair, whatever the other pairs did |
| `Sync.RunAppendOnly` | data/data_loader.py:21 | Every row stored before the run is still stored, unchanged, after it |
| `Sync.RunKeepsWellKeyed` | data/data_loader.py:21 | Starting from a well-keyed table, after any run every stored row sits under its own (日期, 股票代码), so no two stored rows share the key |
| `Sync.RunNewRowsNamed` | data/data_loader.py:17-21 | Every row the run added is one of the stamped rows fetched for a pair whose batch was written, so it carries that pair's name in 股票名称; the run stores nothing outside the written batches |
| `Sync.StepStoresBatch` | data/data_loader.py:17-21 | A loop body that reports its batch as written has stored every stamped row under its own key |
| `Sync.WrittenBatchStoredAtOnce` | data/data_loader.py:13-21 | A pair reported as written has its whole stamped batch in the table right after that pair |
| `Sync.WrittenBatchStored` | data/data_loader.py:17-21 | A pair reported as written has its whole stamped batch in the final table |
| `Sync.SkipFailedPair` | data/data_loader.py:24-27 | A pair whose fetch fails changes nothing: the run with it stores exactly what the run without it stores, and the other outcomes are the same |
| `Sync.MiddleFailureScenario` | data/data_loader.py:13-27 | With three instruments and the second failing, the run's outcomes are first, FetchFailed, third. When both batches go in, the run counts two written and exactly one failure, the second pair |
| `Sync.TallyComplete` | data/data_loader.py:24-27 | Written pairs plus pairs that are not written equals the number of pairs |
| `Store.CreateTable` | data/data_loader.py:37-57 | After creation the table exists; an existing table is left as it is, and a missing one starts empty |
| `Store.CreateTableIdempotent` | data/data_loader.py:38 | Running the creation statement a second time changes nothing |
| `Store.SchemaWellFormed` | data/data_loader.py:38-54 | No column is declared twice; both primary-key columns are declared TEXT NOT NULL, and they are the first two columns, the ones `KeyOf` reads |
| `Store.Insert` | data/data_loader.py:21 | An append succeeds exactly when the batch's keys are distinct and none is stored. It then adds exactly the batch's keys, keeps every stored row and stores each batch row under its key. Otherwise the error names the key of a batch row that is already stored or repeats an earlier row of the batch |
| `Store.InsertKeepsWellKeyed` | data/data_loader.py:52-53 | An accepted append keeps every row under its own primary key |
| `Watermark.GlobalMax` | data/data_loader.py:63 | The window column is one of the rows' dates, and no row's date exceeds it in text order |
| `Watermark.Behind` | data/data_loader.py:69-70 | The lagging rows are exactly the rows whose date differs from the latest date |
| `Watermark.AtMark` | data/data_loader.py:68 | The up-to-date rows are exactly the rows dated at the latest date |
| `Watermark.SplitCounts` | data/data_loader.py:68-69 | Every row is lagging or up to date, so the two counts add up to the number of rows |
| `Watermark.UpToDateRatio` | data/data_loader.py:68 | With no rows, the ratio divides by zero. Otherwise it lies in (0, 1], and it is 1 exactly when no code lags |
| `Watermark.NoGroupsIffEmpty` | data/data_loader.py:62-68 | The grouped query has no rows exactly when the table is empty |
| `Watermark.IsGroupMax` | data/data_loader.py:62-66 | The grouped query's rows: one per stored code, with a stored date of that code that no other stored date of that code exceeds |
| `Watermark.GlobalMaxIsTableMax` | data/data_loader.py:62-66 | The latest date is a stored date, and no stored date exceeds it |
| `Watermark.LaggingSound` | data/data_loader.py:69-70 | A code reported as lagging is stored, and all of its rows are dated before the latest date |
| `Watermark.LaggingComplete` | data/data_loader.py:69-70 | A stored code whose rows are all dated before the latest date is reported as lagging |
| `Watermark.LaggingExact` | data/data_loader.py:69-70 | A code lags exactly when it is stored and none of its rows is dated at the latest date |
| `Watermark.UpToDateSound` | data/data_loader.py:68 | A code counted as up to date has a row dated at the latest date |
| `Watermark.UpToDateComplete` | data/data_loader.py:68 | A code with a row dated at the latest date is counted as up to date |
| `Watermark.UpToDateExact` | data/data_loader.py:68 | A code counts as up to date exactly when it has a row dated at the latest date |
| `Watermark.LatestIsChronologicalMax` | data/data_loader.py:63 | When every stored date is `YYYY-MM-DD` text, the text maximum is the chronologically latest stored day |
| `Watermark.NextStart` | data/data_loader.py:71 | The next start date reads back as the calendar successor of the latest date. It fails exactly when the latest date does not parse or lies outside the pandas Timestamp range, or when its successor does |
| `Watermark.NextStartAfterAllStored` | data/data_loader.py:71 | The next start date comes after every stored day |
| `Script.LatestReport` | data/data_loader.py:60-72 | The report fails with a division by zero when there are no rows. Otherwise it has a ratio in (0, 1], the lagging rows and the successor of the latest date |
| `Script.RefreshWindow` | data/data_loader.py:81-82 | The window reads back as (yesterday, today); yesterday's successor is today, and start sorts before end as text |
| `Script.DefaultStart` | data/data_loader.py:10 | The default start date is the same day five years earlier. It fails exactly on 29 February, or when the year would fall below 1 |
| `Script.RunScript` | data/data_loader.py:8-85 | When line 10's default start date does not exist, the script stops before touching the database. Otherwise, on an empty table it stops with a division by zero after creating the table. When the report succeeds, the table is what `Run` leaves for the listing over yesterday..today, whatever the report said; the written count is `Run`'s count of written pairs, and the tally covers every listed pair |
| `Calendar.Succ` | data/data_loader.py:71 | The successor is a valid date whose day number is one more, rolling over months, years and 29 February |
| `Calendar.Pred` | data/data_loader.py:81 | The predecessor is a valid date whose day number is one less |
| `Calendar.SuccPredInverse` | data/data_loader.py:71 | One day later and one day earlier undo each other |
| `Calendar.SuccIsNext` | data/data_loader.py:71 | No valid date lies strictly between a day and its successor |
| `Calendar.OrdinalOrder` | data/data_loader.py:71 | Chronological order of valid dates is the order of their day numbers, and equal day numbers mean equal dates |
| `Calendar.ParseIsoOfIsoText` | data/data_loader.py:71 | Parsing a date written as `YYYY-MM-DD` gives the date back |
| `Calendar.IsoTextOfParseIso` | data/data_loader.py:71 | Any text that parses as `YYYY-MM-DD` is that date's canonical rendering |
| `Calendar.ParseCompactOfCompactText` | data/data_loader.py:81-82 | Parsing a date written as `YYYYMMDD` gives the date back |
| `Calendar.ParseIso` | data/data_loader.py:71 | `pd.to_datetime` on `YYYY-MM-DD` text: a text that parses gives a valid date of years 1 to 9999 |
| `Calendar.CompactText` | data/data_loader.py:81-82 | `strftime('%Y%m%d')`, also used on line 71: eight decimal digits |
| `Calendar.IsoTextOrder` | data/data_loader.py:39 | `YYYY-MM-DD` texts sort exactly as their dates do in time, so `MAX` over them is the latest day |
| `Calendar.CompactTextOrder` | data/data_loader.py:81-82 | `YYYYMMDD` texts sort exactly as their dates do in time |
| `Text.DigitsOrder` | data/data_loader.py:63 | Zero-padded decimal fields of one width sort as text exactly as their numbers |
| `Text.ParseDigitsOfDigits` | data/data_loader.py:71 | Reading back a zero-padded decimal field gives the number |
| `Text.LexConcat` | data/data_loader.py:63 | Comparing texts with same-length prefixes compares the prefixes first, and the rest only on a tie |
| `Text.LexTotal` | data/data_loader.py:63 | Any two different texts are ordered one way or the other |
| `Text.LexLessTransitive` | data/data_loader.py:63 | SQLite's text order is transitive |

## Left out

- The akshare calls (`stock_info_a_code_name` and `stock_zh_a_hist`, lines 8-9, 17 and 78) are network clients. The listing and the provider's answers are parameters. The provider is a function of (symbol, start, end), so a symbol listed twice gets the same answer both times.
- The model trusts the provider's 股票代码 column as given. It does not assume that the rows fetched for a symbol carry that symbol.
- sqlite3 `connect`, `commit` and `close` (lines 12, 33-34, 56-57, 84) are not modelled. SQL is not evaluated either: the grouped query's rows are an input, constrained by `Watermark.IsGroupMax`.
- Console output is not modelled, including the `.head()` listing of lagging codes on line 70.
- `datetime.today()` is not modelled; "today" is a parameter.
- The other default arguments evaluated when the function is defined are not modelled: the two listing calls on lines 8-9 and the connection on line 12. This includes the second connection the main block relies on by not passing one. Line 10's default is modelled by `Script.DefaultStart`, and `Script.RunScript` stops when it fails.
- When the table is missing, `to_sql` would create one without a primary key. The model leaves this out: the main block always runs the creation statement first, and the loop is given the keyed table.
- `Store.Insert`: only primary-key clashes reject a write. Other errors that reach the same `except` branch are not represented separately; the loop treats them all alike. These include a locked or full database file and provider columns the table lacks.
- Key columns are never NULL in the model, so NOT NULL violations cannot occur.
- The numeric columns are exact `real` values. Float conversion and rounding in pandas and SQLite are not modelled.
- `Watermark.UpToDateRatio` is an exact rational. Python's float division is not modelled.
- `Calendar.ParseIso` reads only `YYYY-MM-DD`. `pd.to_datetime` also accepts many other spellings; stored dates come from the provider in this one form.
- Text order is compared on code points. For the digit-and-hyphen date texts, this equals SQLite's byte order.
- `Script.RunScript` takes the listing as two lists of equal length, because both come from one provider table (line 78). The loop, `Sync.LoadStockData`, handles unequal lengths as `zip` does.
