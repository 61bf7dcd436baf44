# Google Fit metrics service: catalog, consolidation and query, in Dafny

This project models the data path of a small Flask service. The service serves
per-entity health and activity metrics from a directory of columnar files,
one file per metric. All the modelled code is in `src/app.py`:

- **Catalog** (`Config.create_metric_file_mapping`). Each file path is mapped
  to a metric name: the text the regular expression `^(\w+)_` captures from the
  file's base name. A later file with the same name replaces an earlier one.
  A base name the pattern does not match raises.
- **Consolidation** (`MetricDataFrame._get_metric_data` and
  `MetricDataFrame.get_all_metrics_df`). Each metric's file is loaded and
  tagged with a `metric` column. Then:
  - `date`, `month` and `week` columns are renamed `date`;
  - the single remaining non-identifier column is copied into `value`;
  - the frame is cut down to `entity, metric, date, value`.

  The `with` block waits for every load, so all files have been read (and
  every failed load has logged its error) before the first frame is
  appended. `as_completed` then yields the finished loads in the arbitrary
  order of the set it builds, and the frames are appended in that order to an
  empty frame with those four columns. The model's loop calls `Load` inside
  the loop instead; this is the same, because `Load` has no effects.
- **Query** (`get_json_from_data`):
  - Validation runs in a fixed order: entities, metric, unknown entity,
    unknown metric, start date, end date.
  - The rows are then filtered by entity, metric and an inclusive date range.
  - Row dates are re-rendered as `YYYY-MM-DD`.

Modules:

- `Wrappers`: `Option` and `Result`.
- `Dates`:
  - calendar dates with the range and validity rules of Python's
    `datetime.date`;
  - a strict `YYYY-MM-DD` parser and its renderer, following the extended
    calendar-date format of section 5.2.2.1 of ISO 8601-1:2019.
- `Catalog`: the file-name pattern and the mapping loop. The mapping loop is a
  `method` with loop invariants, because the source fills a dictionary in a
  `for` loop.
- `Frames`: data frames, as named columns over rectangular rows of cells.
- `Consolidation`: the loader, the normalisation steps, and the consolidation
  loop. The loop is a `method` proved equal to the function
  `ConsolidateAsWritten`, which fails for an empty catalog and otherwise is
  `Consolidate`. The properties of consolidation are proved about
  `Consolidate`.
- `Query`: the query as a pure function, because the source works on a copy
  and returns a value.

Inputs the source reads from the outside world become parameters:

- The list of file paths is the parameter `files`.
- The contents of the files are `store`, a map from path to frame. A path
  missing from `store` stands for a failed read.
- The order in which `as_completed` yields the finished loads is `order`,
  any arrangement of the metric names.

Three behaviours of the code are easy to misread; the model follows the code:

- The metric name runs to the *last* underscore that still has only word
  characters before it, not to the first one. The regex is greedy and
  backtracks, so `steps_daily_x.parquet` names `steps_daily`
  (`Catalog.CaptureRunsToLastUnderscore`).
- A failed load is not silently dropped. `_get_metric_data` returns `None`,
  and the next statement of the consolidation loop fails on it, so the whole
  consolidation fails (`Consolidation.FailedLoadFailsConsolidation`).
- A malformed date is reported only after the entities and metrics have
  passed validation. Before that, an unknown entity wins
  (`Query.SlashDateAfterUnknownEntity`).

## Model

| member | source | states |
|---|---|---|
| Catalog.Basename | src/app.py:30 | `file.split(os.sep)[-1]` is a suffix of the path with no separator in it, preceded by a separator unless it is the whole path |
| Catalog.MetricName | src/app.py:30 | when `^(\w+)_` matches, the name is a prefix `b[..j]` of word characters followed by `_` at `j >= 1`, with `j` the largest such position; there is no name exactly when no such position exists |
| Catalog.ScanRunFindsLongest | src/app.py:30 | the single left-to-right scan of the word run returns the last admissible underscore, or 0 when there is none |
| Catalog.CaptureRunsToLastUnderscore | src/app.py:30 | `steps_daily_x.parquet` names the metric `steps_daily`, so the capture runs to the last underscore |
| Catalog.NoUnderscoreNoName | src/app.py:30 | `steps.parquet` has no metric name |
| Catalog.CreateMetricFileMapping | src/app.py:24-31 | fails exactly when some path's base name has no metric name, and then names the first such path; on success every path's name is a key, each key maps to the last path carrying that name, and there are at most as many keys as paths |
| Dates.DaysInMonth | src/app.py:109 | month lengths lie between 28 and 31, and a month has 29 days exactly when it is February of a leap year |
| Dates.ParseIffRendered | src/app.py:107-117 | `date.fromisoformat` accepts a string as a given date exactly when the string is that date written `YYYY-MM-DD`, so every accepted string has the ISO shape and names a real calendar date |
| Dates.RenderIsoDate | src/app.py:132 | `strftime("%Y-%m-%d")` always gives the `YYYY-MM-DD` shape |
| Dates.ParseRendered | src/app.py:132 | parsing a rendered date gives back the date |
| Dates.RenderParsed | src/app.py:107-117 | rendering a parsed date gives back the accepted string, so each date has exactly one accepted spelling |
| Dates.SlashSeparatedRejected | src/app.py:107-111 | `2024/01/01` is not an ISO calendar date |
| Dates.NonexistentDayRejected | src/app.py:107-111 | `2023-02-29` is not a calendar date |
| Consolidation.WithMetric | src/app.py:45 | assigning the `metric` column keeps the rows and the existing columns, appends `metric` only when it is absent, and sets every `metric` cell to the name |
| Consolidation.Load | src/app.py:37-48 | a load succeeds exactly when the file can be read; it then has the file's rows and exactly the file's columns, followed by one `metric` column when the file has none, every cell of the file outside a `metric` column unchanged, and a `metric` column whose every cell is the metric's name |
| Consolidation.WithMetricShape | src/app.py:45-67 | after tagging, a frame has one `entity`, one `metric`, one date-like and one value column exactly when the file had one `entity`, at most one `metric`, one date-like and one value column |
| Consolidation.RenameColumns | src/app.py:57-65 | a column becomes `date` exactly when it is `date`, `month` or `week`; every other name is unchanged; no `month` or `week` remains |
| Consolidation.AssignValue | src/app.py:66 | succeeds exactly when one column is neither `entity`, `date` nor `metric`; then `value` occurs once and holds that column's cells, and the counts of all other names are unchanged |
| Consolidation.Project | src/app.py:67-68 | selecting the four columns (and appending the result) succeeds exactly when each occurs once; the result has those columns in that order and takes each cell from the named column |
| Consolidation.Normalise | src/app.py:65-67 | a normalised frame has exactly the columns `entity, metric, date, value`, in that order, and keeps the row count |
| Consolidation.NormaliseSucceedsIff | src/app.py:65-67 | normalisation succeeds exactly when the frame has one `entity`, one `metric`, one date-like and one value column |
| Consolidation.NormalisedRows | src/app.py:65-67 | every normalised row is the row's entity, metric, date-like and value cells, in that order |
| Consolidation.ContributionSucceedsIff | src/app.py:41-67 | a metric contributes exactly when its file can be read and has the loadable shape |
| Consolidation.Contribution | src/app.py:63-67 | one finished load: a `None` result is reported as that metric's load failure exactly when its file cannot be read; any other failure is that metric's schema error; a success has the four unified columns and one row per file row |
| Consolidation.ContributionTagged | src/app.py:45-67 | a contributing metric adds as many rows as its file has, each carrying the metric name |
| Consolidation.YieldOrderIsCovered | src/app.py:61-63 | every submitted metric is collected and only submitted metrics are collected |
| Consolidation.Append | src/app.py:68 | `pd.concat(..., ignore_index=True)` keeps the columns and puts the accumulated rows first and the new frame's rows after them, so the row multiset is the sum of both |
| Consolidation.Consolidate | src/app.py:51-69 | the consolidation, given a non-empty catalog: on success the frame has the four unified columns; a failure is the failed load or schema error of one of the catalog's metrics |
| Consolidation.ConsolidateAsWritten | src/app.py:59 | the code as written fails with the zero-workers error exactly when the catalog is empty, and otherwise agrees with `Consolidate` |
| Consolidation.GetAllMetrics | src/app.py:51-69 | the consolidation loop as written: it fails when the catalog is empty, because the pool cannot have zero workers; otherwise it computes `Consolidate` for the given order, and a successful result has the four unified columns |
| Consolidation.ConsolidateSucceedsIff | src/app.py:63-68 | consolidation succeeds exactly when every metric's load and normalisation succeeds |
| Consolidation.FailedLoadFailsConsolidation | src/app.py:47-65 | a metric whose file cannot be read makes the whole consolidation fail rather than being skipped |
| Consolidation.ConsolidatedFrame | src/app.py:55-68 | the consolidated frame has the four unified columns and holds the metrics' rows concatenated in the order `as_completed` yields them |
| Consolidation.ConsolidateOrderIndependent | src/app.py:59-68 | any two orders of the finished loads agree on success, and on success give the same columns and the same multiset of rows |
| Consolidation.ConsolidatedRowCount | src/app.py:63-68 | the consolidated row count is the sum of the row counts of the metrics' files |
| Consolidation.EmptyCatalogFailsAsWritten | src/app.py:59 | with no metrics, the code as written fails before anything is loaded, because a pool with zero workers cannot be created |
| Consolidation.EmptyCatalogGivesEmptyFrame | src/app.py:55 | with no metrics, the corrected consolidation yields the empty four-column frame |
| Query.Query | src/app.py:72-133 | a successful query returns at most one record per table row |
| Query.Select | src/app.py:119-132 | every selected record is a row that passes the filter, with its date rendered, and there are no more records than rows |
| Query.ConsolidatedIsUnified | src/app.py:121-132 | when every file's date-like cells hold calendar dates, the consolidated frame is a table the query accepts: four unified columns and a calendar date in every `date` cell |
| Query.MissingEntitiesFirst | src/app.py:86-87 | missing entities give the entity error, whatever the other arguments are |
| Query.MissingMetricSecond | src/app.py:88-89 | with entities given, a missing metric gives the metric error |
| Query.UnknownEntityThird | src/app.py:93-98 | any requested entity absent from the table gives the entity error, whatever the metric and dates are |
| Query.UnknownMetricFourth | src/app.py:100-105 | with every entity present, any requested metric absent from the table gives the metric error, whatever the dates are |
| Query.BadDateFifth | src/app.py:107-117 | with entities and metrics present, an unparseable start or end date gives the date error |
| Query.RecordsIff | src/app.py:86-117 | a query yields records exactly when both selections are given, all requested names are present, and every given date parses |
| Query.SlashDateAfterUnknownEntity | src/app.py:93-111 | an unknown entity wins over a malformed start date |
| Query.SingleNameIsOneElementList | src/app.py:93-101 | a single entity name gives the same result as the one-element list holding it, whatever the metric argument is, and likewise a single metric name whatever the entity argument is |
| Query.SelectIsKeptSubsequence | src/app.py:119-129 | the selected records come from strictly increasing row indices, one per record, and a row is selected exactly when it passes every filter condition |
| Query.QueryRecords | src/app.py:119-133 | on success the records are exactly the rows passing the entity, metric and inclusive date-range filter, in input order, each with its date rendered |
| Query.RecordsSatisfyFilter | src/app.py:119-132 | each returned record has a requested entity and metric, and its date text parses to a date inside the requested bounds |
| Query.JanuaryExample | src/app.py:72-133 | acme signups on 15 January and 15 February, queried for January, give exactly the 15 January record, dated `2024-01-15` |

## Left out

- `src/init.py` (object-store download) is not part of this model. It is network I/O and thread-pool plumbing.
- The Flask routes `metrics`, `get_metric_data`, `home` and `refresh` are left out. They are transport over the core plus filesystem side effects.
- `Config.gather_files` (`os.listdir`) and `pd.read_parquet` are filesystem reads. They are the given `files` and `store` parameters.
- The thread pool: the concurrent loads are modelled as finished before the loop, yielded in one arbitrary order.
- Log output of the failed load (`print`) is left out; only the `None` result is modelled.
- JSON serialisation (`to_json`, indentation, error payload dictionaries) is left out. The result is a datatype of three errors or a sequence of records.
- Dates.ParseIsoDate: accepts only `YYYY-MM-DD`. Python 3.11 and later also accept the basic form `YYYYMMDD` and ISO week dates (`YYYY-Www`, `YYYYWww`, `YYYY-Www-D`, `YYYYWwwD`); those forms are left out.
- Dates.RenderIsoDate: always pads the year to four digits. Some C libraries render years below 1000 without padding for `%Y`.
- Catalog.Basename: the path separator `os.sep` is fixed to `/`, as on POSIX systems; Windows paths with `\` are not modelled.
- Catalog.IsWordChar: `\w` is taken as ASCII `[A-Za-z0-9_]`, not the full Unicode class.
- Catalog.CreateMetricFileMapping: on a failing path the Python dictionary is left partly filled before the exception. The model returns only the error, because the dictionary is local and lost.
- Consolidation.Project: pandas' column selection at line 67 keeps duplicate columns (for example, both `date` and `month` after the rename); the `concat` at line 68 is what rejects them. The model rejects them at the selection, as a schema error of that metric.
- Consolidation.Normalise: duplicate columns fail here for the same reason, because it ends with `Project`.
- Consolidation.AssignValue: pandas raises unless exactly one non-identifier column exists. The model reports the count as an error instead of distinguishing pandas' exceptions.
- Cell values are text, calendar dates, real numbers or missing. pandas dtypes, timestamps with a time part, and NaN comparison semantics are left out.
- Query.Query: requires the unified table (the four columns, a calendar date in every `date` cell). Consolidation passes each file's date-like cells through unchanged, so it yields such a table only when those cells are calendar dates (`Query.ConsolidatedIsUnified`). In the source, a text date cell in any row raises when a start or end bound is given, because the comparisons at lines 126-127 run over every row before the mask at line 129. A missing date cell compares as false there, so it fails only in the `strftime` at line 132, and only when its row is kept. Neither failure is modelled. The fallback to a `month` or `week` column is not modelled either, because consolidation always produces `date`.
- Query.Query: the input table is not modified. This holds because the query is a function over a value, so there is no separate lemma for it.

## Findings

| source | as written | input that shows it | evidently intended | confidence | as-written member | corrected member |
|---|---|---|---|---|---|---|
| src/app.py:59 | `ThreadPoolExecutor(max_workers=len(mapping))` raises `ValueError` when the mapping is empty | an empty data directory, so the mapping is `{}` | the empty `entity, metric, date, value` frame the accumulator starts as | not executed | Consolidation.EmptyCatalogFailsAsWritten | Consolidation.EmptyCatalogGivesEmptyFrame |
