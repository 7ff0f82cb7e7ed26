# MindMate journal back end, modelled in Dafny

This project models the record logic of the MindMate journal back end. That back end is a FastAPI service. It stores journal entries in one SQLite table, `journal_entries`, and serves four operations on them:

- **Submit** (`POST /journal`) classifies the text, picks the highest-scoring emotion, obtains an affirmation and appends a row.
- **History** (`GET /journal-history`) returns the rows matching optional emotion, sentiment and date-range filters, largest id first.
- **Insights** (`GET /journal-insights`) returns a count of rows per emotion, a count per sentiment, and a per-day timeline sorted by date.
- **Delete** (`DELETE /journal/{entry_id}`) removes one row by id, or answers 404.

The table is a sequence of `Entry` values in storage order, and every endpoint is a pure function of it. An endpoint that changes the table returns an `Effect`, which holds the response and the table afterwards. Errors are values:

- `BadRequest` for a 400 error;
- `NotFound` for a 404 error;
- `ServerError` for a 500 error.

Each error carries the detail string the handler sends.

Modules:

- `Wrappers`: `Option` and `Result`.
- `Text`:
  - fixed-width zero-padded decimal text;
  - Python's ordering of `str`;
  - `str.strip()` with Python's `isspace` set.
- `Calendar`:
  - the proleptic Gregorian calendar of years 1 to 9999;
  - points in time as microsecond ticks;
  - `date.isoformat()`, `datetime.isoformat()`, and `datetime.fromisoformat()` on `YYYY-MM-DD` text;
  - the text SQLite stores a `DateTime` column as.
- `Models`:
  - the `journal_entries` row;
  - how the row's column defaults apply;
  - the id SQLite assigns;
  - row filtering.
- `History`, `Insights`, `Deletion` and `Submission`: the four handlers.
- `Journal`: lemmas that relate one endpoint's effect to what another endpoint then reports.

Three facts of the code shape the model:

- **SQLite compares the timestamp column as text.** SQLAlchemy stores a `DateTime` as `YYYY-MM-DD HH:MM:SS.ffffff`. The model filters on that text, so `History.Matches` is the WHERE clause as written. `Calendar.StorageTextOrder` proves that the text order equals the order of the points in time.
- **Date parameters are points in time.** `datetime.fromisoformat("YYYY-MM-DD")` is midnight at the start of that date. As a result:
  - a start date admits its whole day;
  - an end date admits only entries at exactly midnight on that date.

  The model follows the code here; see Findings.
- **Ids are SQLite rowids.** A new row gets one more than the largest live id, or 1 when the table is empty. An id freed by a delete can therefore be given out again.

## Model

| member | source | states |
|---|---|---|
| Models.NewEntry | backend/models.py:10-15 | a new row takes the given fields, and its timestamp defaults to the current time when none is given |
| Models.NextId | backend/models.py:10 | the id of an inserted row is not the id of any live row: it is above every live id, and it is 1 for an empty table |
| Models.KeepWhere | backend/main.py:123-124 | a WHERE clause keeps exactly the rows satisfying it, each as often as stored, and keeps ids unique |
| Calendar.ParseIsoDate | backend/main.py:108 | `fromisoformat` on a date string yields a real calendar date whose ISO text is the input |
| Calendar.ParseIsoDateRoundTrip | backend/main.py:108 | every ISO date string is accepted and read back as its own date |
| Calendar.StartOfDay | backend/main.py:115 | a parsed date is midnight at the start of that date: it falls on that date and is a whole number of days |
| Calendar.WithinDay | backend/main.py:115-116 | every point in time on a date lies in the day-long interval starting at that date's midnight, and after midnight itself it is later |
| Calendar.DayNumberOrder | backend/main.py:165 | the day count of a date follows calendar order and is one-to-one on valid dates |
| Calendar.DateOfDay | backend/main.py:165 | `timestamp.date()`: each day count names exactly one valid date |
| Calendar.IsoDate | backend/main.py:165 | `date.isoformat()` is ten characters `DDDD-DD-DD` whose digit groups read back as the year, the month and the day |
| Calendar.IsoDateOrder | backend/main.py:169 | sorting ISO date strings as Python strings sorts the dates chronologically, and equal strings mean equal dates |
| Calendar.StorageText | backend/main.py:108-116 | the `DateTime` column that `timestamp >= start` and `timestamp <= end` compare holds `YYYY-MM-DD HH:MM:SS.ffffff`: the ISO date, a space, then the zero-padded time of day with six-digit microseconds, 26 characters in all |
| Calendar.StorageTextOrder | backend/main.py:109 | SQLite's text comparison of stored timestamps is exactly the chronological order, and distinct times are stored as distinct text |
| Calendar.IsoDateTime | backend/main.py:137 | `isoformat()` of a timestamp is its ISO date, a `T`, the zero-padded hour, minute and second of its time of day joined by `:`, and `.` with the six-digit microseconds only when they are non-zero |
| Calendar.IsoDateTimeInjective | backend/main.py:137 | distinct timestamps get distinct `isoformat()` text |
| Text.Strip | backend/main.py:70 | `strip()` yields a slice of the text that neither starts nor ends with white space, and only white space is cut; the result is empty exactly when the text is all white space |
| Text.PadOrder | backend/main.py:169 | zero-padded numbers of one width sort as strings exactly as they sort as numbers |
| History.ParseBound | backend/main.py:106-118 | an empty or missing date parameter gives no bound, a bad one gives 400 with the fixed detail, and a good one gives midnight of its date |
| History.BuildFilter | backend/main.py:101-118 | the query fails exactly when a given date parameter is not a date; otherwise each given parameter becomes one condition |
| History.MatchesMeansAdmits | backend/main.py:109-116 | the SQL conditions hold exactly when the row satisfies every text equality and both inclusive time bounds, and a missing timestamp fails any bound |
| History.History | backend/main.py:121-127 | a bad date gives 400; otherwise the rows come back largest id first, and each matching row appears as often as it is stored |
| History.HistoryContents | backend/main.py:101-127 | a row is returned exactly when it is stored and satisfies every supplied condition |
| History.SortByIdDesc | backend/main.py:122 | `order_by(id.desc())` returns the same rows, as a multiset, with ids never increasing |
| History.HistoryStrictlyDescending | backend/main.py:122 | with ids as primary key, the returned ids strictly decrease |
| History.HistoryWithoutFilters | backend/main.py:122-124 | with no filters the whole table comes back, each row once |
| History.BadDateRejected | backend/main.py:106-118 | a start or end date that is not a date yields the 400 error and no rows |
| History.SameParametersSameHistory | backend/main.py:102-113 | queries whose parameters agree up to Python truthiness get the same answer |
| History.EmptyParameterIsOmitted | backend/main.py:102-113 | each parameter given as an empty string behaves exactly as if omitted |
| History.BoundOfDate | backend/main.py:106-116 | a date parameter naming a date becomes midnight at its start |
| History.HistoryDateBounds | backend/main.py:106-127 | a row is returned exactly when it is stored, its text conditions hold, its date is not before the start date, and its timestamp is at most midnight at the start of the end date |
| History.StartDateCoversWholeDay | backend/main.py:106-109 | a start date admits every stored entry made on that date |
| History.EndDateStopsAtMidnight | backend/main.py:113-116 | an entry made after midnight on the end date is not returned |
| History.EndDateDiscrepancy | backend/main.py:113-116 | an entry made after midnight on the end date is dated within the range, and the whole-day reading returns it, but the code does not |
| History.WholeDayHistoryContents | backend/main.py:113-116 | with whole-day bounds, a row is returned exactly when it is stored, its text conditions hold, and start date <= its date <= end date |
| History.ToRecord | backend/main.py:131-138 | a JSON row carries the stored fields unchanged; the timestamp is null exactly when the row has none, and otherwise is the `isoformat()` text of the stored time |
| History.ToRecordInjective | backend/main.py:131-138 | two rows give the same JSON record exactly when they are the same row, so serialising loses nothing |
| History.HistoryResponse | backend/main.py:130-140 | the response lists the history rows in the same order, one JSON row each, or carries the same error |
| Insights.Tally | backend/main.py:145-146 | the count map has a key exactly for each label present, valued at that label's number of rows |
| Insights.GetInsights | backend/main.py:142-175 | the emotion and sentiment counts have keys exactly for the labels in use, and each value is that label's number of rows; the timeline dates strictly ascend as strings, each count is positive and is that date's number of rows, every timestamped row's date is listed, and the counts add up to the number of timestamped rows |
| Insights.InsightsTotals | backend/main.py:145-169 | every count is at least 1; the emotion counts and the sentiment counts each add up to the number of rows; the timeline adds up to the number of timestamped rows |
| Insights.InsightsOfEmptyStore | backend/main.py:142-175 | an empty table gives empty counts and an empty timeline, not an error |
| Insights.DateKey | backend/main.py:165 | `timestamp.date().isoformat()` is the `DDDD-DD-DD` text of the calendar date the timestamp falls on |
| Insights.StampedDays | backend/main.py:161-166 | timestamped rows are grouped by calendar day, and rows without a timestamp are skipped |
| Insights.AddDay | backend/main.py:166 | `date_counts[date] += 1` raises that day's count by one and leaves every other day alone |
| Insights.Timeline | backend/main.py:152-169 | the timeline dates strictly ascend as strings; each count is positive and equals that date's number of rows; every timestamped row's date is listed; the total is the number of timestamped rows |
| Deletion.FindId | backend/main.py:179-180 | the lookup finds a row with the id exactly when one exists |
| Deletion.Delete | backend/main.py:177-186 | an id outside SQLite's signed 64-bit INTEGER range cannot be bound into the lookup and gives 500; otherwise a missing id gives 404 with the fixed detail; on either error the table is unchanged; otherwise exactly one row with that id is removed, and the others stay in order |
| Deletion.DeleteRemovesExactlyOne | backend/main.py:179-185 | with unique ids, a delete shrinks the table by one; the id is gone, ids stay unique, and every other row remains |
| Deletion.DeleteTwiceNotFound | backend/main.py:182-183 | deleting the same id again answers 404 |
| Submission.FirstMax | backend/main.py:59 | `max` by score picks a highest score, and the first such score on a tie |
| Submission.PickEmotion | backend/main.py:59 | the left-to-right scan picks a highest score, and the first such score on a tie |
| Submission.FirstMaxUnique | backend/main.py:59 | only one position is the first maximum |
| Submission.Affirmation | backend/main.py:63-73 | generated text is cut to a slice with only white space before and after it and none at its ends, and is empty exactly when the generated text is all white space; a failed generation gives the fixed fallback sentence |
| Submission.Submit | backend/main.py:50-89 | see the note below this table |
| Submission.SubmitKeepsUniqueIds | backend/main.py:76-83 | a submission keeps ids unique |
| Journal.SubmitThenDelete | backend/main.py:177-186 | deleting the row a submission just added restores the table |
| Journal.SubmitCountsEmotion | backend/main.py:145-146 | after a submission, the chosen emotion's count rises by one, and every other count is unchanged |
| Journal.DeleteCountsEmotion | backend/main.py:145-146 | after a delete, the removed row's emotion count falls by one, it disappears at zero, and every other count is unchanged |
| Journal.DeleteReflectedInHistory | backend/main.py:177-186 | after a delete, the removed row is in no history result, and every other row is in exactly the results it was in before |

`Submission.Submit` states the following:

- An empty emotion list is a 500 error, and nothing is stored.
- Otherwise exactly one row is appended, and it has:
  - a fresh id;
  - the text;
  - the sentiment label;
  - the first-maximum emotion;
  - the affirmation;
  - the current time.
- The response echoes the sentiment, the emotion and the affirmation.

## Left out

- The classifiers (`sentiment_model`, `emotion_model`) are parameters of `Submission.Submit`, since they are not part of this model. So is the text generator (`co.generate`). An exception raised inside a classifier is not modelled.
- Logging the generator's error with `print` is I/O and is left out.
- These parts of `backend/database.py` and `backend/main.py` are outside the record logic and are left out:
  - FastAPI routing and validation;
  - the CORS middleware;
  - the root endpoint `/`;
  - the async session from `get_db`;
  - the database engine.
- Commits and concurrent requests are not modelled. Each request is one atomic step on the table.
- The clock is the parameter `now` of `Submission.Submit`; `datetime.utcnow` is not called.
- The front end is not part of this model.
- Submission.FirstMax: scores are integers rather than floats, so NaN scores and float rounding are not modelled. `Submission.PickEmotion` carries the same limitation.
- Calendar.ParseIsoDate: accepts only the `YYYY-MM-DD` form that the endpoint's error message asks for. Python's `datetime.fromisoformat` also accepts a time part and a UTC offset after the date (`YYYY-MM-DD[*HH[:MM[:SS[.ffffff]]]][+HH:MM]`), and the handler would pass the resulting `datetime` on as the bound; Python 3.11 added week dates, the basic format and `Z`. The model answers all of these with the 400 error.
- Models.NextId: ids are unbounded integers. SQLite's fallback for a table that has used the largest 64-bit rowid, which picks an unused rowid at random, is not modelled. `Journal.SubmitThenDelete` therefore assumes the new id fits in 64 bits, and the lemmas about deleting a stored row assume the same of its id.
- Insights.GetInsights: the count maps are unordered maps. The order in which GROUP BY returns the groups is not modelled. The `is not None` guards on the two count maps (backend/main.py:146, 150) never fire, because `emotion` and `sentiment` are NOT NULL. The guard on the nullable `timestamp` (backend/main.py:163) does fire and is modelled by `Insights.Stamped` and `Insights.StampedDays`.
- Journal.SubmitCountsEmotion: the matching statements for the sentiment counts are not written out. The argument is the same.

## Findings

| source | as written | input that shows it | evidently intended | confidence | as-written member | corrected member |
|---|---|---|---|---|---|---|
| backend/main.py:113-116 | `end_date` becomes midnight at the start of the end date and is compared with `timestamp <= end` | `end_date=2024-01-01`, with an entry stamped 2024-01-01 10:00:00: the entry is not returned, though its date is the end date | the date range includes both dates: every entry made on the end date is returned | medium, not executed | History.EndDateDiscrepancy | History.WholeDayHistoryContents |

`History.History` models the handler as written, and the rest of the model uses it. `History.WholeDayHistory` is the corrected endpoint: its end bound is the last microsecond of the end date. `History.WholeDayHistoryContents` proves it returns exactly the stored rows dated within the range, both ends included.
