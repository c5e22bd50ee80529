# Diavgeia fetch and digest scripts, modelled in Dafny

The repository pulls decisions from Diavgeia, the Greek government's
transparency portal, in two ways.

- Two fetch scripts turn command-line filters into a Lucene-style query and
  download the matching decisions:
  - `fetch_diavgeia.py` uses the search endpoint: retrying GET, record
    flattening, CSV export.
  - `fetch_diavgeia_export.py` uses the paged export endpoint: response-shape
    dispatch, record normalisation, a `--limit` page loop, CSV export.
- Two digest scripts build a monthly report:
  - `digest_monthly.py`
  - `diavgeia_monthly_digest.py`

Each digest script does the following:

1. It resolves a target month and derives five date windows: the month, the
   month before, year to date, prior year to date, and the same month a year
   earlier.
2. It downloads every window page by page.
3. It renames the organisation column.
4. It computes KPIs and month-over-month changes.
5. It ranks the decision-type mix and the slowest decisions.
6. The second script also derives monthly trends, a region for each decision
   and a regional ranking.

This project models that core as pure Dafny values and functions, with the
page loops and small loops of the scripts as methods proved against those
functions. The modules follow the scripts' components:

| module | what it holds |
|---|---|
| `Common` | Python's `None`/truthiness/`or`, JSON values, `dict.get`, `str.strip`, `in` on strings, `str.join` |
| `Calendar` | `datetime.date` on years 1..9999: construction with `ValueError`, day arithmetic with `OverflowError`, ISO and `%B %Y` formatting |
| `Windows` | both `month_bounds` algorithms, the five windows of each digest script, the default target month, the per-day chunks |
| `Queries` | the issue-date query of the digest scripts and `build_query` of both fetch scripts |
| `Records` | `normalize`, `flatten`, the export response dispatch, the search hits, the CSV header and rows |
| `Paging` | every page loop (uncapped, capped at 5000, `--limit`) over an abstract page source, and the `_get` retry loop |
| `Frames` | a pandas frame as a sequence of records: emptiness, NA counts, the KPIs, the organisation rename, `pct_change` |
| `Regions` | `normalize_region`, `infer_region`, `load_region_mapping`, `enrich_regions` |
| `Sorting` | `sort_values(ascending=False)` with NA last, `drop_duplicates` keeping the first row, `head(n)` |
| `Aggregates` | the outliers and slowest decisions, the decision-type mix, recent months, trend counts, regional totals |

Modelling choices:

- **Page source.** The remote API is a function from (page index, page size)
  to a batch. A "sliced" server, whose page `p` of size `s` is
  `results[p*s .. p*s+s]`, is the reference against which every page loop is
  shown to return the intended prefix of the results.
- **Parameters for behaviour outside the scripts.** Today's date, the time
  zone's offset text, Unicode `str.upper`/`str.lower` and each row's parsed
  issue month are all passed in as parameters.
- **NaN.** NaN results are `None`.
- **Percentages.** Percentages are exact reals.

The trend statistics group only the months that occur in the data: a month
without decisions takes no slot among the last 6, 12 or 4 months.

## Model

| member | source | states |
|---|---|---|
| Common.Strip | diavgeia_monthly_digest.py:197 | `strip()` leaves no whitespace at either end, and is empty exactly when the input is all whitespace |
| Common.StripIsInnerSlice | diavgeia_monthly_digest.py:197 | `strip()` is the slice of the input left after cutting off a whitespace prefix and a whitespace suffix |
| Common.TrimLeft | diavgeia_monthly_digest.py:197 | the result is a suffix of the input, and exactly the leading whitespace was removed |
| Common.TrimRight | diavgeia_monthly_digest.py:197 | the result is a prefix of the input, and exactly the trailing whitespace was removed |
| Common.ContainsIff | diavgeia_monthly_digest.py:201 | the substring test `alias in upper` holds exactly when the needle occurs at some index of the haystack |
| Common.Join | digest_monthly.py:62 | `" AND ".join` of one clause is that clause |
| Common.JoinStartsWithFirst | digest_monthly.py:62 | a joined query begins with its first clause |
| Common.JoinEndsWithLast | digest_monthly.py:62 | a joined query ends with its last clause |
| Common.Decimal | digest_monthly.py:53 | the digits of a number, with a leading zero only for 0 |
| Common.DecimalRoundTrip | digest_monthly.py:53 | reading the digits back gives the number |
| Common.ZeroPad | digest_monthly.py:53 | a field of `%Y-%m-%d` is the number's digits, preceded by exactly enough zeros to reach the width |
| Calendar.DaysInMonth | diavgeia_monthly_digest.py:44-46 | a month has 28 to 31 days (Gregorian leap rule) |
| Calendar.MakeDate | diavgeia_monthly_digest.py:44 | `date(y, m, d)` succeeds exactly for a valid date and otherwise raises `ValueError` |
| Calendar.AddDays | diavgeia_monthly_digest.py:84 | `start + timedelta(days=i)` is the valid date whose day ordinal is `i` more |
| Calendar.AddDaysChecked | digest_monthly.py:47 | adding days succeeds exactly when the ordinal stays within 9999-12-31, else `OverflowError` |
| Calendar.SubOneDay | diavgeia_monthly_digest.py:46 | subtracting a day fails only on 0001-01-01, and otherwise yields the day whose successor is the input |
| Calendar.NextDayOrdinal | diavgeia_monthly_digest.py:84 | stepping one day forward adds one to the ordinal |
| Calendar.OrdinalInjective | diavgeia_monthly_digest.py:84-85 | distinct dates have distinct ordinals, so `(end - start).days` identifies the day |
| Windows.MonthBounds | diavgeia_monthly_digest.py:43-47 | the bounds exist exactly for years 1..9999 and months 1..12 other than December 9999, and run from day 1 to the month's last day |
| Windows.MonthBoundsEndBeforeNext | diavgeia_monthly_digest.py:45-46 | the day after the month's end is the first of the next month |
| Windows.Day28PlusFour | digest_monthly.py:47 | day 28 plus four days lands in the next month on day `32 - DaysInMonth` |
| Windows.Day28Step | digest_monthly.py:47 | that step overflows exactly in December 9999 and otherwise reaches the next month |
| Windows.MonthBoundsDay28 | digest_monthly.py:43-49 | the same validity and bounds as the other algorithm, the caption `%B %Y`, and `OverflowError` for December 9999 and `ValueError` for the other failing inputs |
| Windows.MonthBoundsAgree | digest_monthly.py:43-49 | both `month_bounds` fail on the same inputs and otherwise give the same range |
| Windows.SameDayLastYear | digest_monthly.py:289-291 | the current month's last day number exists a year earlier exactly unless the month is a leap February |
| Windows.WindowsExistSteps | diavgeia_monthly_digest.py:536-545 | the five windows exist exactly when every `date`/`month_bounds` call of the derivation succeeds |
| Windows.DeriveWindows | diavgeia_monthly_digest.py:536-545 | the five windows, in full, for exactly the target months where they exist |
| Windows.PrepareWindows | digest_monthly.py:275-295 | the same five ranges, failing on the same target months |
| Windows.PrepareWindowsCaptions | digest_monthly.py:276-294 | captions are `%B %Y` for whole months and `start → end` in ISO form for the year-to-date windows |
| Windows.PrepareAgreesWithDerive | digest_monthly.py:275-295 | the two scripts derive identical ranges and fail together |
| Windows.WindowsAdjacent | diavgeia_monthly_digest.py:538-545 | the previous window ends the day before the current one starts, the year to date starts on 1 January and ends with the month, and the prior year to date ends with last year's same month except after a leap February |
| Windows.LeapFebruaryFails | diavgeia_monthly_digest.py:544 | as written, the windows for February 2024 fail with `ValueError` although each month's bounds exist |
| Windows.PriorYtdEnd | diavgeia_monthly_digest.py:544 | the clamped prior-year-to-date end is always a valid day of that month a year earlier, and equals the written one wherever that exists |
| Windows.PriorYtdEndSpec | diavgeia_monthly_digest.py:544-545 | the clamped end agrees with the derivation wherever it succeeds, and ends with last year's month (or one day short of a leap February) |
| Windows.DefaultPeriod | digest_monthly.py:252-255 | the default is the month immediately before today's month |
| Windows.ResolvePeriod | digest_monthly.py:266-272 | each of year and month is taken when truthy and otherwise defaulted |
| Windows.DetermineTargetMonth | diavgeia_monthly_digest.py:510-520 | given values are kept, missing ones default to last month, and defaulting fails only in January of year 1 |
| Windows.ResolveAgreesWithDetermine | diavgeia_monthly_digest.py:514-519 | both scripts pick the same month unless a value was 0, which only `resolve_period` treats as missing |
| Windows.DayChunks | diavgeia_monthly_digest.py:82-86 | one single-day range per day from start to end, none when end precedes start |
| Windows.DayChunksCover | diavgeia_monthly_digest.py:83-86 | the chunks start at `start`, end at `end`, and each follows the previous day |
| Queries.OrElse | fetch_diavgeia_export.py:15-16 | `s or d` is `s` when given and non-empty, else `d` |
| Queries.IssueRangeQuery | digest_monthly.py:56-62 | the issue-date clause alone, or followed by " AND " and the organisation clause when one is given |
| Queries.RangeClauseIsField | fetch_diavgeia_export.py:22 | a range clause begins with its field name |
| Queries.QueryShape | fetch_diavgeia.py:33-34 | the query is "*:*" exactly when there are no clauses, otherwise it begins with the first clause and ends with the last |
| Queries.FilterClausesOrder | fetch_diavgeia.py:17-32 | the clause list is empty exactly when no filter is given; the organisation clause comes first and the date clause last |
| Queries.FilterQueryShape | fetch_diavgeia_export.py:10-23 | a filter query is "*:*" exactly when no filter is given; it begins with the organisation clause when there is one and ends with the date clause when there is one |
| Queries.BuildExportQuery | fetch_diavgeia_export.py:9-23 | the part-appending builder produces the export query |
| Queries.ExportQueryShape | fetch_diavgeia_export.py:9-23 | "*:*" exactly for no filters; it begins with the organisation clause when one is given and ends with the date range when a bound is given |
| Queries.ColonOffsetInverse | fetch_diavgeia.py:28 | the offset rewrite only inserts a colon: removing it gives back the offset |
| Queries.ColonOffsetHours | fetch_diavgeia.py:28 | "+HHMM" becomes "+HH:MM" |
| Queries.Stamp | fetch_diavgeia.py:23-29 | a stamp exists exactly when a date is given |
| Queries.StampShape | fetch_diavgeia.py:25-29 | a stamp is the ISO date, "T", 00:00:00 or 23:59:59, and the colon-separated offset |
| Queries.BuildSearchQuery | fetch_diavgeia.py:15-34 | the part-appending builder produces the search query |
| Queries.SearchQueryShape | fetch_diavgeia.py:15-34 | "*:*" exactly for no filters; it begins with the organisation clause when one is given and ends with the date range when a bound is given |
| Queries.SearchDateDefaults | fetch_diavgeia.py:30-32 | a missing end of the range reads 1970-01-01T00:00:00+02:00 or 2099-12-31T23:59:59+02:00 |
| Records.FirstTruthyPicks | fetch_diavgeia_export.py:52-53 | an `or` chain yields the first truthy value with all before it falsy, or the last value when none is truthy |
| Records.OrIsFirstTruthy | fetch_diavgeia_export.py:52-53 | nested `or` is the flat first-truthy chain |
| Records.Normalize | fetch_diavgeia_export.py:50-67 | exactly the twelve unified keys; the organisation name and type code fall back in order; every other key copies the hit's value |
| Records.PresentSnoc | fetch_diavgeia.py:82-83 | copying one more optional key extends the output by that key only when the hit has it |
| Records.Flatten | fetch_diavgeia.py:69-84 | the copying loop yields the flattened record |
| Records.FlattenedKeys | fetch_diavgeia.py:69-84 | the ten fixed keys plus exactly the optional keys the hit has, with the hit's values and the type falling back to `type` |
| Records.ExportBatch | fetch_diavgeia_export.py:31-43 | a non-object response yields no decisions (the rest of the dispatch is stated by the lemmas below) |
| Records.ExportBatchWrap | fetch_diavgeia_export.py:31-43 | every accepted response shape gives back exactly the decisions it carries, a single nested decision as a one-item list |
| Records.ExportBatchPriority | fetch_diavgeia_export.py:32-37 | `decisionResultList` wins when it is a list; otherwise `decisions`; otherwise `diavgeia_decisions`, over the nested shapes |
| Records.ExportBatchFallsThrough | fetch_diavgeia_export.py:38 | a falsy `decisionresults` (absent, null, `{}`) falls through to `decisionResults` |
| Records.ExportBatchFallback | fetch_diavgeia_export.py:38-43 | without a top-level list, a nested entry that is not an object, or whose `decision`/`decisions` value is neither object nor list, yields `[]` |
| Records.SearchHits | fetch_diavgeia.py:103-105 | the hits are the first truthy of the two keys or [], and a non-list value exits with status 2 |
| Records.Truncate | fetch_diavgeia.py:107 | a positive limit keeps the first `limit` hits, any other limit keeps all |
| Records.Merge | fetch_diavgeia.py:113-114 | metadata keys override the hit's, the hit's other keys stay, and a failed lookup keeps the hit |
| Records.CollectRows | fetch_diavgeia.py:111-117 | one flattened merged row per hit, in order |
| Records.StrLessIrreflexive | fetch_diavgeia.py:64 | Python's string `<` is irreflexive |
| Records.StrLessTotal | fetch_diavgeia.py:64 | two distinct strings are ordered one way or the other |
| Records.StrLessTransitive | fetch_diavgeia.py:64 | string `<` is transitive |
| Records.InsertSorted | fetch_diavgeia.py:64 | inserting a new key into a strictly sorted list keeps it strictly sorted and adds exactly that key |
| Records.SortedKeys | fetch_diavgeia_export.py:104 | the CSV header is strictly sorted and holds exactly the keys of the rows |
| Records.ToCsv | fetch_diavgeia.py:61-67 | no file for no rows; otherwise the header is the strictly sorted union of the rows' keys, and the lines are the table over that header |
| Records.CsvTableLossless | fetch_diavgeia.py:64-67 | over such a header, every value of every row appears in its line under its own key, and every other cell is "" |
| Paging.StopsAtUnique | diavgeia_monthly_digest.py:72-76 | at most one page is the first empty or short page |
| Paging.FetchRange | diavgeia_monthly_digest.py:58-78 | the loop stops at the first short page and returns all pages before it and that page, in order |
| Paging.FetchRangeSliced | diavgeia_monthly_digest.py:58-78 | against a sliced server it returns the whole result list |
| Paging.Ranges | diavgeia_monthly_digest.py:82-88 | one range for the whole span, or the per-day chunks |
| Paging.FetchDecisions | diavgeia_monthly_digest.py:81-96 | one `fetch_range` per range, and the rows of the non-empty frames concatenated in order |
| Paging.KeepNonEmptySnoc | diavgeia_monthly_digest.py:92-93 | appending a frame adds its rows exactly when it is not empty |
| Paging.KeepNonEmptyLosesOnlyBlank | diavgeia_monthly_digest.py:92-96 | skipping empty frames loses only column-less records |
| Paging.FetchExport | digest_monthly.py:68-98 | the capped loop returns what the capped page walk collects |
| Paging.CappedBound | digest_monthly.py:73-96 | against a server that never over-delivers, at most 5000 rows are collected |
| Paging.CappedSliced | digest_monthly.py:68-98 | against a sliced server it returns the first `min(n, 5000)` results |
| Paging.CappedAllowance | digest_monthly.py:19 | 5000 is exactly ten pages of 500, so a full page is always requested until the cap |
| Paging.LimitedStep | fetch_diavgeia_export.py:91-101 | one step requests `min(remaining, 500)` and keeps at most `remaining` hits of a non-empty batch |
| Paging.TakeHits | fetch_diavgeia_export.py:94-99 | the inner loop normalises the first `min(len, remaining)` hits and counts them off |
| Paging.FetchWithLimit | fetch_diavgeia_export.py:86-101 | the loop yields the normalised limited walk and issues exactly its request log |
| Paging.LimitedBound | fetch_diavgeia_export.py:91-99 | whatever the server returns, at most `limit` rows are collected |
| Paging.LimitedRequestsPages | fetch_diavgeia_export.py:91-101 | the requests go to pages 0, 1, 2, … each asking for 1 to 500 rows |
| Paging.LimitedShortEndsEmpty | fetch_diavgeia_export.py:93 | collecting fewer than `limit` rows means the last request returned an empty batch |
| Paging.LimitRefetchesRecords | fetch_diavgeia_export.py:92 | as written, `--limit 700` over 1000 records returns records 0..499 then 200..399 again |
| Paging.LimitedFixedSliced | fetch_diavgeia_export.py:91-101 | with full-size pages the loop returns exactly the first `limit` results |
| Paging.Get | fetch_diavgeia.py:36-45 | the retry loop yields the retry outcome, makes at most `retries` attempts, and sleeps 0.7·k seconds after failed attempt k |
| Paging.RetryOutcome | fetch_diavgeia.py:36-45 | no attempt exactly when `retries < 1`; a response is returned exactly when some attempt answers after only request failures; a request error is re-raised exactly when every attempt failed with one; any other error propagates at once |
| Frames.CountNA | digest_monthly.py:118-121 | the NA count is at most the row count |
| Frames.CountNABounds | digest_monthly.py:118-121 | the NA count is 0 exactly when no cell is NA and the row count exactly when all are |
| Frames.PctMissingOf | digest_monthly.py:118-121 | `_pct_missing` is NaN exactly for an empty series |
| Frames.ColumnCells | digest_monthly.py:139-140 | `df.get(column, empty)` has one cell per row for a present column, none otherwise |
| Frames.CountNullCellsOfColumn | digest_monthly.py:139-140 | counting a column's null cells counts its NA rows |
| Frames.MissingRateBounds | diavgeia_monthly_digest.py:120-121 | a missing rate lies in 0..100, and is 0 or 100 exactly when no cell or every cell is NA |
| Frames.ComputeKpisSpec | diavgeia_monthly_digest.py:107-122 | an empty frame has count 0 and no rates; otherwise the row count and each rate present exactly when its column is |
| Frames.KpisAgree | digest_monthly.py:124-141 | both scripts' `compute_kpis` agree |
| Frames.RenameRow | diavgeia_monthly_digest.py:553-556 | the label cell moves to `organizationName` and every other cell stays |
| Frames.RenameOrg | diavgeia_monthly_digest.py:553-556 | the rename keeps the row count and every cell outside the two organisation columns; when it does not apply the frame is unchanged |
| Frames.RenameOrgColumns | diavgeia_monthly_digest.py:555-556 | after an applicable rename the label column is gone and the name column carries its cells |
| Frames.RenameKeepsOtherKpis | digest_monthly.py:326-341 | the rename changes neither the count nor the publish-timestamp rate |
| Frames.RenameLosesOrgRate | diavgeia_monthly_digest.py:553-565 | as written, a renamed frame loses its organisation missing rate |
| Frames.RenameLosesOrgRateExample | digest_monthly.py:329-340 | as written, the one-row frame `[{"organizationLabel": "X"}]` has rate 0% before the rename and NaN after it |
| Frames.KpisFixedRenameInvariant | digest_monthly.py:326-341 | the corrected KPIs are the same with or without the rename and equal the original rate |
| Frames.PctChange | digest_monthly.py:144-147 | defined exactly when both values exist and the previous is non-zero |
| Frames.PctChangeInverse | digest_monthly.py:144-147 | applying the change to the previous value gives back the current value |
| Regions.FirstMatch | diavgeia_monthly_digest.py:200-202 | a match is the canonical name of some table entry |
| Regions.FirstMatchIsFirstHit | diavgeia_monthly_digest.py:200-202 | no match exactly when no needle occurs; otherwise the value of the first entry in table order whose needle occurs |
| Regions.CanonicalNamesNonEmpty | diavgeia_monthly_digest.py:131-180 | every canonical name and "Άγνωστη" is non-empty |
| Regions.NormalizedRegion | diavgeia_monthly_digest.py:196-203 | a normalised region is never empty |
| Regions.NormalizedRegionCases | diavgeia_monthly_digest.py:196-203 | "Άγνωστη" for blank text, else the first alias hit, else the trimmed value |
| Regions.BlankIsUnknown | diavgeia_monthly_digest.py:197-199 | all-whitespace text normalises to "Άγνωστη" |
| Regions.NormalizeRegion | diavgeia_monthly_digest.py:196-203 | the alias scan with its early return computes the normalised region |
| Regions.ScanNeedles | diavgeia_monthly_digest.py:199-201 | the scan over a table of (needle, value) pairs returns the value of the first needle the text contains, or nothing |
| Regions.ColumnRegionIsFirst | diavgeia_monthly_digest.py:211-215 | the column stage answers with the first region column holding non-blank text, and nothing without one |
| Regions.KeywordRegionIsFirst | diavgeia_monthly_digest.py:217-223 | the keyword stage answers with the first needle of the first field that has a hit |
| Regions.InferredRegionStages | diavgeia_monthly_digest.py:206-225 | mapping, then region column, then keyword, then "Άγνωστη", each stage taken only when the earlier ones give nothing |
| Regions.InferRegion | diavgeia_monthly_digest.py:206-225 | the loops with early returns compute the inferred region |
| Regions.ScanRegionColumns | diavgeia_monthly_digest.py:211-215 | the column loop returns the normalised value of the first region column, or nothing |
| Regions.ScanKeywordFields | diavgeia_monthly_digest.py:217-223 | the field loop returns the region of the first keyword hit, field by field, or nothing |
| Regions.MappingHasKeptRows | diavgeia_monthly_digest.py:188-192 | an organisation is mapped exactly when some row names it with a non-blank region |
| Regions.MappingLastRowWins | diavgeia_monthly_digest.py:188-192 | an organisation maps to the normalised region of its last kept row |
| Regions.LoadRegionMapping | diavgeia_monthly_digest.py:183-193 | the loop builds that mapping |
| Regions.EnrichRegions | diavgeia_monthly_digest.py:228-234 | every row gains exactly a `region` cell: NA for an empty frame, the inferred region otherwise |
| Sorting.KeyGeTotalPreorder | diavgeia_monthly_digest.py:331 | descending order with NA last is a total preorder |
| Sorting.InsertDesc | diavgeia_monthly_digest.py:331 | inserting keeps the order and adds exactly that row |
| Sorting.SortDesc | diavgeia_monthly_digest.py:331 | the sorted frame is non-increasing and a permutation of the rows |
| Sorting.DedupFrom | diavgeia_monthly_digest.py:331 | kept rows come from the frame |
| Sorting.DedupDistinct | diavgeia_monthly_digest.py:331 | no two kept rows share an `ada` |
| Sorting.DedupCovers | diavgeia_monthly_digest.py:331 | every `ada` of the frame is kept |
| Sorting.DedupKeepsFirst | diavgeia_monthly_digest.py:331 | each kept row is the first row of its `ada` |
| Sorting.DedupSorted | diavgeia_monthly_digest.py:331 | dropping duplicates keeps the order |
| Sorting.Head | diavgeia_monthly_digest.py:333 | `head(n)` is a prefix of length `min(n, len)` for non-negative `n` |
| Sorting.FirstOfIdIsMax | diavgeia_monthly_digest.py:331 | in a sorted frame the first row of an `ada` has its largest key |
| Sorting.DedupSortedProps | diavgeia_monthly_digest.py:331 | the deduplicated sorted frame holds each id once, at its largest key, in non-increasing order |
| Sorting.TopDistinctShape | diavgeia_monthly_digest.py:331-333 | the top rows are frame rows with distinct ids, each its id's best, non-increasing, at most `limit` |
| Sorting.TopDistinctComplete | diavgeia_monthly_digest.py:331-333 | an id is left out only when `limit` rows are listed, none worse than it |
| Aggregates.SlowestRowsSpec | diavgeia_monthly_digest.py:331-333 | the slowest-rows table: at most `limit` rows, each the slowest row of its `ada`, distinct, non-increasing, missing an `ada` only when full |
| Aggregates.ComputeOutliers | diavgeia_monthly_digest.py:317-333 | nothing for an empty frame; otherwise the ten slowest distinct decisions in that sense |
| Aggregates.SlowestDecisions | digest_monthly.py:167-190 | nothing for an empty frame or no delay column; otherwise the `limit` slowest distinct decisions |
| Aggregates.Codes | diavgeia_monthly_digest.py:298 | the counted codes are exactly the non-NA type codes of the rows |
| Aggregates.RankedShape | diavgeia_monthly_digest.py:297-303 | at most `limit` distinct codes, each with its label and share, shares non-increasing |
| Aggregates.RankedTopK | diavgeia_monthly_digest.py:297-299 | the ranking is a top-`limit` list: every code left out is no more frequent than each listed one, and it is left out only when the list is full |
| Aggregates.RankedComplete | diavgeia_monthly_digest.py:297-299 | a code is left out only when `limit` codes are listed, each at least as frequent |
| Aggregates.MixSpec | diavgeia_monthly_digest.py:294-314 | nothing without the column; otherwise the top codes by frequency with labels and percentage shares |
| Aggregates.BuildMixLabels | digest_monthly.py:160-164 | a label is empty exactly when the code is not a key of the built-in table |
| Aggregates.InsertMonth | diavgeia_monthly_digest.py:264-268 | the month keys stay strictly increasing and gain exactly the new month |
| Aggregates.MonthsOfMembers | diavgeia_monthly_digest.py:264-268 | the month groups are exactly the months present in the rows |
| Aggregates.MonthCount | diavgeia_monthly_digest.py:266 | a month's `count("ada")` is at most the row count |
| Aggregates.Tail | diavgeia_monthly_digest.py:247 | `tail(n)` is the last `min(n, len)` elements |
| Aggregates.MonthRank | diavgeia_monthly_digest.py:245-247 | the months later than a present month are exactly the ones after it in the list |
| Aggregates.RecentMonthsSpec | diavgeia_monthly_digest.py:237-255 | nothing for an empty frame; otherwise, when it has an `ada` column, the last six present months, oldest first, with their counts |
| Aggregates.MeanBounds | diavgeia_monthly_digest.py:270-271 | `int(mean)` lies between the least and greatest count and is the floor of sum over length |
| Aggregates.RelOfTail | diavgeia_monthly_digest.py:275-279 | looking back within the last four months reads the same as looking back in the whole list |
| Aggregates.TrendLookback | diavgeia_monthly_digest.py:275-285 | on a non-empty frame with an `ada` column, m1, m2, m3 are the counts of the 2nd, 3rd, 4th latest months, or 0 |
| Aggregates.TailMean | diavgeia_monthly_digest.py:269-271 | the floored mean of the last `n` counts is taken over `min(n, len)` counts and stays within the counts' bounds |
| Aggregates.TrendAverages | diavgeia_monthly_digest.py:269-271 | on a non-empty frame with an `ada` column, avg6 and avg12 are 0 with no months, and otherwise the floored means of the last 6 and 12 counts, within their bounds |
| Aggregates.Window | diavgeia_monthly_digest.py:346-347 | exactly the rows with a month at or after the cutoff |
| Aggregates.Regions | diavgeia_monthly_digest.py:349-350 | at most one region entry per row |
| Aggregates.RegionsMembers | diavgeia_monthly_digest.py:349-350 | the grouped regions are exactly the non-NA regions of the rows |
| Aggregates.RegionTotal | diavgeia_monthly_digest.py:349-359 | a region's total is at most the row count |
| Aggregates.CutoffIsTrailing | diavgeia_monthly_digest.py:341-346 | the window's last month is the latest month present |
| Aggregates.RegionRankingEntries | diavgeia_monthly_digest.py:357-362 | one entry per distinct region, paired with its total |
| Aggregates.RegionRankingMembers | diavgeia_monthly_digest.py:357-362 | every entry is a region of the window with its total |
| Aggregates.RegionRankingOrder | diavgeia_monthly_digest.py:357-362 | regions are distinct and totals non-increasing |
| Aggregates.RegionRankingComplete | diavgeia_monthly_digest.py:357-362 | every region of the window is listed |
| Aggregates.RegionalTotalsSpec | diavgeia_monthly_digest.py:336-378 | nothing for an empty or undated frame; otherwise, when it has an `ada` column, every region of the trailing window once, with its total, largest first |

## Left out

- HTTP, JSON decoding, `time.sleep`, argparse, tqdm, file and directory I/O, the JSONL output and PDF download: the page source, the retry outcomes and the decoded payloads are parameters; the sleeps are returned as a list of durations.
- Today's date (`date.today()`) is a parameter.
- `str.upper` and `str.lower`: Unicode case mapping is a parameter (`CaseMap`); `strip` uses Python's whitespace set.
- The Europe/Athens offset of `stamp`: the `%z` text is a parameter.
- `strptime` and `pd.to_datetime` of the timestamps, the delay in days and the issue month: the delay is an integer field of the row, and the issue month a parameter function of the row.
- Median, 90th percentile and the median parts of the trends and regional summary: floating-point quantiles are not modelled, only the counts and rates.
- `round(...)` of percentages: shares and rates are exact reals.
- NaN payload values: a missing value is a missing key or JSON null.
- `render_html`, `format_value` and the `print`ed messages: presentation only.
- The regional monthly table (`regional_monthly`) and its CSV: only the regional summary is modelled.
- `unmapped_codes.csv` in `compute_mix` and the `decision_labels.json` merge in `load_decision_labels`: file side effects; the label table is a parameter of the mix.
- The column order of a frame: the columns are a parameter of `infer_region` and `enrich_regions`; records are maps.
- Tie order of `sort_values`: pandas' default sort is not stable, so no order among equal delays or totals is stated.
- Paging.FetchRange: requires a page source that eventually returns a short page; against a server that never does, the script loops forever.
- Frames.RenameOrg: the in-place `rename` of the frame is modelled as a function on rows.
- Calendar years below 1000: `%Y` is modelled as zero-padded to four digits, as `isoformat` is; some C libraries print fewer digits.
- Non-object hits in the fetch scripts: every hit is a JSON object.
- Aggregates.ComputeOutliers and Aggregates.SlowestDecisions: require an `ada` column (and `delay_days` for ComputeOutliers) on a non-empty frame; the scripts raise `KeyError` there, and that error path is not modelled.
- Aggregates.RecentMonthsSpec: requires an `ada` column on a non-empty frame, as Aggregates.RecentMonths does, because `.agg(count=("ada", "count"))` raises `KeyError` without it; that error path is not modelled.
- Aggregates.TrendLookback: requires an `ada` column, as Aggregates.TrendStats does on a non-empty frame, for the same `KeyError`; that error path is not modelled.
- Aggregates.TrendAverages: requires an `ada` column, as Aggregates.TrendStats does on a non-empty frame, for the same `KeyError`; that error path is not modelled.
- Aggregates.RegionalTotalsSpec: requires an `ada` column when the frame has a dated row, as Aggregates.RegionalTotals does, because grouping the trailing window raises `KeyError` without it; that error path is not modelled.

## Findings

| source | as written | input that shows it | evidently intended | confidence | as-written member | corrected member |
|---|---|---|---|---|---|---|
| fetch_diavgeia_export.py:92 | each page is requested with size `min(remaining, 500)` while the page index keeps counting, so the last request reads a smaller page at a shifted offset | `--limit 700` against 1000 results: page 1 of size 200 returns results 200..399 a second time | request full pages and stop after `limit` rows, returning the first `limit` results | not executed | Paging.LimitRefetchesRecords | Paging.LimitedFixedSliced |
| digest_monthly.py:329-340 | the organisation column is renamed to `organizationName` before `compute_kpis` reads the missing rate of `organizationLabel` | the frame `[{"organizationLabel": "X"}]`: the missing rate becomes NaN instead of 0% | read the rate from whichever column holds the organisation | not executed | Frames.RenameLosesOrgRateExample | Frames.KpisFixedRenameInvariant |
| diavgeia_monthly_digest.py:544 | the prior-year-to-date end reuses the current month's last day number in the year before | target month February 2024: `date(2023, 2, 29)` raises `ValueError` | clamp the day to the length of that month a year earlier | not executed | Windows.LeapFebruaryFails | Windows.PriorYtdEnd |
