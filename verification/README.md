# News Chaos: headline enrichment and time bucketing, modelled in Dafny

The repository turns a table of dated news headlines into two JSON documents:

1. **Stage 1** (`process_news_data..py`) does the following to the table:
   - reads each `publish_date` token as a `YYYYMMDD` date and drops rows where it is not one;
   - gives every row a signed sentiment score and a topic category, computed from its `headline_text` by two pretrained transformer pipelines;
   - keeps the rows whose category is one of eight target categories;
   - sorts by date and groups the rows by year.

   Each year maps to its list of records, with `publish_date` rendered as `YYYY-MM-DD`.
2. **Stage 2** (`reorganise_json_data.py`) reads that document back. It reads each record's date with `strptime('%Y-%m-%d')` and files the record under the unpadded month number (`"1"` to `"12"`) within its year. Records whose date does not read back are skipped.

The model, one module per file:

- `wrappers.dfy`: `Option`.
- `calendar.dfy` (`Calendar`): Gregorian dates, Python's `str()` of a number, the `YYYYMMDD` conversion, the `strftime('%Y-%m-%d')` rendering, and a model of `strptime(s, '%Y-%m-%d')`.
- `sequences.dfy` (`Sequences`): a generic order-keeping `Filter` and its lemmas.
- `enrichment.dfy` (`Enrichment`): `get_sentiment_score` and `classify_headline_category`. The two pipelines are function-typed parameters. Each call returns the pipeline's answer or stands for the exception it raised. Nothing else about the models is assumed.
- `news_processing.dfy` (`NewsProcessing`): Stage 1. The pandas column operations have no loops in the source, so they are functions on sequences. The `groupby` loop and its inner date-formatting loop are methods with `while` loops, proved equal to the function `YearBuckets`.
- `month_regrouping.dfy` (`MonthRegrouping`): Stage 2. The nested loops are methods proved equal to the function `Regrouped`. This file also holds a lemma that joins the two stages.

Two points where the model states less than a reader of the code might expect:

- The code comment at `process_news_data..py:63` says the labels are mapped to a -1 to 1 range. The code returns the pipeline's raw confidence (negated for negative labels) without checking it. The bound is therefore proved for pipelines whose top confidence lies in [0, 1].
- Stage 2 files each record under the year key it is listed under and never compares that key with the year of the parsed date. That the two agree is proved only for documents produced by Stage 1 (`StageOneOutputRegroupsCompletely`).

## Model

| member | source | states |
|---|---|---|
| Calendar.DaysInMonth | process_news_data..py:40 | The month lengths a date conversion accepts: February has 29 days in leap years and 28 otherwise; April, June, September and November have 30; every other month has 31. |
| Calendar.ParseCompact | process_news_data..py:40 | A `YYYYMMDD` conversion that succeeds gives a real calendar date, from a token of exactly eight digits. |
| Calendar.ParseCompactExactly | process_news_data..py:40-42 | A token converts to date d if and only if d is a valid date and the token is d written as `YYYYMMDD`; within the modelled date range, every other token becomes NaT and its row is dropped. |
| Calendar.ParseCompactSound | process_news_data..py:40 | A token that converts to a date is exactly that date's eight digits, and the date is valid. |
| Calendar.ParseCompactComplete | process_news_data..py:40-42 | The eight digits of any valid date convert to that date, so within the modelled date range its row is never dropped. |
| Calendar.CompactExamples | process_news_data..py:40 | `20010115` converts to 15 January 2001. |
| Calendar.CompactExamplesRejected | process_news_data..py:40-42 | `20011399` (month 13) and `20010229` (not a leap year) do not convert, so their rows are dropped. |
| Calendar.PaddedDecimal | process_news_data..py:131 | strftime's zero-padded `%Y`, `%m` and `%d` fields: exactly `width` ASCII digits, the last `width` decimal digits of the value. |
| Calendar.PaddedDecimalRoundTrip | process_news_data..py:131 | A value below 10^width is read back exactly from its zero-padded digits. |
| Calendar.DecimalString | process_news_data..py:116 | `str()` of a non-negative int: at least one digit, no leading zero unless the number is 0, and a single digit exactly for numbers below 10. |
| Calendar.DecimalStringRoundTrip | process_news_data..py:116 | The digits of `str(n)` read back as n. |
| Calendar.DecimalStringInjective | process_news_data..py:116 | Different years give different `str()` keys, so no two years share a bucket. |
| Calendar.FormatIso | process_news_data..py:131 | `strftime('%Y-%m-%d')` gives ten characters with dashes at positions 4 and 7. |
| Calendar.FormatIsoInjective | process_news_data..py:131 | Different dates render to different strings. |
| Calendar.RenderedExamples | process_news_data..py:116-131 | The year 2001 is keyed `"2001"`, and 15 January 2001 is rendered `"2001-01-15"`. |
| Calendar.ParseIso | reorganise_json_data.py:44 | Whatever `strptime(s, '%Y-%m-%d')` accepts is a valid date (year 1 to 9999). Everything else is the ValueError branch. |
| Calendar.MonthField | reorganise_json_data.py:44 | strptime's `%m` field: the first of `1[0-2]`, `0[1-9]`, `[1-9]` that matches the front of the text gives a month from 1 to 12 and uses one or two characters of the text. |
| Calendar.DayField | reorganise_json_data.py:44 | strptime's `%d` field, which must use up the rest of the text: one of `3[01]`, `[12]\d`, `0[1-9]`, `[1-9]`, `' '[1-9]` matched in full, with `\d` read as an ASCII digit, gives a day from 1 to 31; anything else is rejected. |
| Calendar.MonthFieldPadded | reorganise_json_data.py:44 | strptime's `%m` reads a zero-padded month followed by `-` as that month, using both digits. |
| Calendar.DayFieldPadded | reorganise_json_data.py:44 | strptime's `%d` reads a zero-padded day as that day. |
| Calendar.IsoRoundTrip | reorganise_json_data.py:44 | Reading back a date rendered by Stage 1 gives the same date. |
| Calendar.IsoExampleCanonical | reorganise_json_data.py:44 | `2001-01-15` reads back as 15 January 2001. |
| Calendar.IsoExampleUnpadded | reorganise_json_data.py:44 | strptime also accepts unpadded fields and a space-padded day: `2001-1-5` and `2001-01- 5` read as 5 January 2001. |
| Calendar.IsoExampleRejected | reorganise_json_data.py:44-48 | `2001-02-30` (no such day), `2001-13-01` (no such month) and `2001-01-150` (unconverted data) all take the ValueError branch. |
| Enrichment.IsSpace | process_news_data..py:57 | The characters `str.strip()` removes: the characters Python's `str.isspace()` accepts. |
| Enrichment.IsBlank | process_news_data..py:57 | `pd.isna(text) or str(text).strip() == ""`: the cell is missing, or every character of it is whitespace. The same test guards `classify_headline_category` at line 90. |
| Enrichment.SentimentScore | process_news_data..py:56-70 | The score is exactly 0.0 for missing or whitespace-only text and for any failed call. Otherwise it is the top prediction's confidence for a positive label (`LABEL_2` or any casing of `positive`), its negation for a negative label (`LABEL_0` or `negative`), and 0.0 for any other label. The score lies in [-1, 1] whenever the pipeline's top confidence lies in [0, 1]. |
| Enrichment.LabelsDisjoint | process_news_data..py:64-65 | No label is both positive and negative, so the order of the two tests does not matter. |
| Enrichment.Category | process_news_data..py:89-98 | The category is `Socio-Cultural` for missing or whitespace-only text and for a failed call. Otherwise it is the classifier's highest-ranked label. It is one of the eight categories whenever the classifier ranks first one of the labels it was offered. |
| NewsProcessing.DropInvalidDates | process_news_data..py:40-42 | Every row that survives the conversion carries a valid date. |
| NewsProcessing.DropInvalidDatesCount | process_news_data..py:40-42 | Exactly as many rows survive as have a convertible `publish_date`. |
| NewsProcessing.DropInvalidDatesAppend | process_news_data..py:42 | Rows are dropped one at a time, so the survivors of a concatenation are the two parts' survivors in order. |
| NewsProcessing.DropInvalidDatesKeepsExactlyValid | process_news_data..py:40-42 | Each row with a convertible token survives, with the converted date and its own text. Each survivor comes from an input row whose token is exactly its date's eight digits. Both hold within the modelled date range. |
| NewsProcessing.DropInvalidDatesKeepsValid | process_news_data..py:40-42 | Each row with a convertible token survives, with the converted date and its own text. |
| NewsProcessing.DropInvalidDatesFromRaw | process_news_data..py:40-42 | Each survivor comes from an input row whose token is exactly its date's eight digits. |
| NewsProcessing.EnrichRows | process_news_data..py:75-101 | Each row keeps its date and text and gains the sentiment score and category computed from its own text. |
| NewsProcessing.FilterCategories | process_news_data..py:104 | A row is kept if and only if it is an input row whose category is one of the eight. |
| NewsProcessing.FilterCategoriesMultiplicity | process_news_data..py:104 | The mask keeps every row with a target category as often as it occurs and drops every other row. |
| NewsProcessing.FilterCategoriesKeepsOrder | process_news_data..py:104 | The mask keeps the relative order of rows: the mask of a concatenation is the concatenation of the masks. |
| NewsProcessing.FilterCategoriesRemovesNothing | process_news_data..py:89-104 | With a classifier that only ranks first a label it was offered, the mask removes no row. |
| NewsProcessing.InsertByDate | process_news_data..py:119 | Inserting into a date-sorted list keeps it sorted and adds exactly that row. |
| NewsProcessing.SortByDate | process_news_data..py:119 | The result is in non-decreasing date order and is a permutation of the input. |
| NewsProcessing.YearOf | process_news_data..py:116 | The `Year` column: `str()` of the date's year, with the properties `Calendar.DecimalString` proves. |
| NewsProcessing.ToHeadline | process_news_data..py:126-131 | One record of `to_dict(orient='records')` restricted to the four output columns, with `publish_date` rewritten by `strftime('%Y-%m-%d')`. |
| NewsProcessing.YearBuckets | process_news_data..py:121-133 | `processed_data_by_year` as a function of the sorted rows: each year present maps to the rendered records of its group in row order. The loop `GroupByYear` is proved to build exactly this map, and `YearBucketsPlacement`, `YearBucketsMember`, `YearBucketsDates` and `YearBucketsPermutation` state its properties. |
| NewsProcessing.FormatDates | process_news_data..py:129-131 | The inner loop yields, for each record of the group in order, the record with its date rendered as `YYYY-MM-DD`. |
| NewsProcessing.GroupByYear | process_news_data..py:121-133 | The loop over the year groups builds exactly `YearBuckets`: one key per year present, each mapped to that year's rendered records in row order. |
| NewsProcessing.YearBucketsPlacement | process_news_data..py:124-133 | Every row's record lands in the bucket of its own year. |
| NewsProcessing.NotInOtherBucket | process_news_data..py:124-133 | A row's record lands in no bucket other than its own year's. |
| NewsProcessing.YearBucketsMember | process_news_data..py:124-131 | Every record in a bucket is the rendering of some row of that year. |
| NewsProcessing.YearBucketsDates | process_news_data..py:116-131 | No bucket is empty. Every record's date reads back, and its year's `str()` is the bucket key. When the rows were sorted, each bucket is in date order. |
| NewsProcessing.YearBucketsPermutation | process_news_data..py:121-133 | The buckets, concatenated in any order of their keys, hold exactly the rendered rows, each as often as it occurs. Their total length is the number of rows. |
| NewsProcessing.ConcatGroupsPermutation | process_news_data..py:124 | When every row's year is among a list of distinct keys, the groups of those keys together are a permutation of the rows. |
| NewsProcessing.PreparedRows | process_news_data..py:40-119 | The rows that reach the grouping loop: the dated rows, enriched, masked to the eight categories and sorted by date. `PreparedRowsFacts` states their properties. |
| NewsProcessing.EnrichRowsFacts | process_news_data..py:56-75 | Enriched rows keep valid dates. Their sentiment lies in [-1, 1] when the pipeline's confidences lie in [0, 1]. |
| NewsProcessing.PreparedRowsFacts | process_news_data..py:40-119 | The rows that reach the grouping loop are sorted by date, carry valid dates and target categories, and have bounded sentiment under bounded confidences. |
| NewsProcessing.YearBucketsFields | process_news_data..py:104-133 | Every record in the buckets carries one of the eight categories, and a bounded sentiment when the rows had one. |
| NewsProcessing.ValidRowReachesBucket | process_news_data..py:37-133 | A raw row whose token is a valid date d, and whose text the classifier puts in one of the eight categories, appears under `str(d.year)` as the record dated `FormatIso(d)` with its own category, sentiment and text. |
| NewsProcessing.BucketRecordFromRawRow | process_news_data..py:37-133 | Every record in the output comes from a raw row whose token is the `YYYYMMDD` form of the record's date, with the same text. Its category and sentiment are the ones computed from that text, and the category is one of the eight. |
| NewsProcessing.ProcessNews | process_news_data..py:37-133 | Stage 1 computes `YearBuckets` of the dated, enriched, filtered, sorted rows. Every bucket is non-empty and chronological. Every record has a target category and a date that reads back with the bucket's year. With confidences in [0, 1], every sentiment lies in [-1, 1]. |
| MonthRegrouping.MonthKey | reorganise_json_data.py:45 | `str(publish_date_obj.month)`: the month number's decimal string without padding. `MonthKeysUnpadded` states the twelve keys. |
| MonthRegrouping.MonthsOf | reorganise_json_data.py:50-54 | One year's month dictionary: a key for each month that received at least one headline, mapped to that month's headlines in list order. `FillMonths` is proved to build exactly this map, and `MonthsOfPlacement` and `MonthTotalCounts` state its properties. |
| MonthRegrouping.Regrouped | reorganise_json_data.py:33-54 | `processed_data_by_year_month`: each input year mapped to the month dictionary of its list. `Reorganise` is proved to build exactly this map, and `RegroupedShape` and `RegroupedPlacement` state its properties. |
| MonthRegrouping.MonthListSnoc | reorganise_json_data.py:50-54 | Appending a record to a year's list extends the month list of its own month by that record and leaves the other month lists as they were. |
| MonthRegrouping.MonthsOfSnocSkipped | reorganise_json_data.py:43-48 | A record whose date fails to read back changes no month list: the `continue` branch. |
| MonthRegrouping.MonthsOfSnocFiled | reorganise_json_data.py:45-54 | A record whose date reads back is appended to its month's list, which is created if missing. All other months are unchanged. |
| MonthRegrouping.MonthsOfSnoc | reorganise_json_data.py:43-54 | One loop step: a record whose date fails to read back leaves the month dictionary unchanged. Otherwise its month key is created if absent and the record is appended to that month's list. |
| MonthRegrouping.FileHeadline | reorganise_json_data.py:43-54 | One pass of the inner loop body. A date that fails to read back leaves the month dictionary unchanged. Otherwise the headline is appended to the list under its unpadded month key, and that list is created first if missing. |
| MonthRegrouping.FillMonths | reorganise_json_data.py:40-54 | The inner loop builds exactly the month dictionary `MonthsOf` of the year's list. |
| MonthRegrouping.Reorganise | reorganise_json_data.py:33-54 | The outer loop builds exactly `Regrouped`: each input year is mapped to the month dictionary of its list. |
| MonthRegrouping.MonthKeysUnpadded | reorganise_json_data.py:45 | The month keys are the unpadded numerals `"1"` to `"12"`. |
| MonthRegrouping.RegroupedShape | reorganise_json_data.py:35-54 | The output has the same years as the input. A year none of whose dates reads back maps to an empty dictionary. Every month key is one of the twelve, and no month list is empty. |
| MonthRegrouping.MonthsOfPlacement | reorganise_json_data.py:40-54 | Within one year's list, every record whose date reads back is in the list of its own month, and every month-list entry is a record of the list whose date reads back with that month. |
| MonthRegrouping.RegroupedPlacement | reorganise_json_data.py:40-54 | Every record whose date reads back is in the list of its own month under the year it was listed under. Every month-list entry is an unchanged record of that year's list whose date reads back with that month. |
| MonthRegrouping.MonthListKeepsOrder | reorganise_json_data.py:40-54 | A month list keeps the order of the year's list: the month list of a concatenation is the concatenation of the month lists. |
| MonthRegrouping.MonthTotalAppend | reorganise_json_data.py:50-54 | Appending to one month's list adds one to the total count over the months up to and including it. |
| MonthRegrouping.MonthTotalCounts | reorganise_json_data.py:40-54 | A year's month lists together hold as many records as the year's list has dates that read back; only the skipped records are missing. |
| NewsProcessing.ExampleDatedRows | process_news_data..py:40-42 | The example row dated `20010115` survives with 15 January 2001, and the row dated `20011399` is dropped. |
| NewsProcessing.ExampleEnrichedRow | process_news_data..py:56-101 | With the example pipelines, a non-blank headline gets sentiment 0.9 and category `Economy`. |
| NewsProcessing.ExamplePreparedRows | process_news_data..py:40-119 | With a pipeline that calls the text positive with confidence 0.9 and a classifier that ranks `Economy` first, the row dated `20010115` reaches the grouping loop with sentiment 0.9 and category `Economy`. The row dated `20011399` is dropped. |
| NewsProcessing.ExampleYearBuckets | process_news_data..py:116-133 | A single row dated 15 January 2001 yields exactly one bucket, `"2001"`, holding its record dated `2001-01-15`. |
| MonthRegrouping.ExampleMonthsOf | reorganise_json_data.py:40-54 | One record dated `2001-01-15` yields the month dictionary `{"1": [record]}`. |
| MonthRegrouping.ExampleMonths | reorganise_json_data.py:33-54 | A year `"2001"` holding one record dated `2001-01-15` is regrouped as `"2001"` → `"1"` → that record. |
| MonthRegrouping.OneHeadlineThroughBothStages | process_news_data..py:37-133 | End to end: the dated example row appears under `"2001"` with date `2001-01-15` after Stage 1, and under `"2001"` → `"1"` after Stage 2. The undated row appears in neither. |
| MonthRegrouping.StageOneOutputRegroupsCompletely | reorganise_json_data.py:35-54 | On a document produced by Stage 1, the regrouping keeps every year and every record. Each record's re-read date has the year and month of the keys it is filed under. |

## Left out

- Reading the CSV and the JSON, writing the JSON, the file-existence checks, the `exit()` calls on missing files or columns, and all console output. The model starts from the rows and from the year-keyed document, and returns the documents instead of writing them.
- The transformer pipelines themselves, including model download. They are uninterpreted parameters, and a raised exception is one of their outcomes. The logged warning text is not modelled.
- Floating point: sentiment scores are `real`, and the sign change is exact.
- `Calendar.ParseCompact`: does not model the pandas Timestamp range. pandas turns dates outside about 1677 to 2262 into NaT (or an error); the model accepts years 1 to 9999. It also does not model the lenient forms pandas' `%Y%m%d` parser may accept besides eight plain digits. The column is taken as text; when pandas reads it as integers, the token is their decimal string.
- `Calendar.ParseIso`: takes every digit as an ASCII digit. Python's regular expression `\d` also matches other Unicode decimal digits. This affects the four digits of `%Y` and the second digit of the `[12]\d` alternative of `%d` (`Calendar.DayField`), so strptime also accepts dates such as `2001-01-1` followed by an Arabic-Indic five, which the model rejects. The `%m` field uses only the classes `[0-2]` and `[1-9]`, which are ASCII, so `Calendar.MonthField` is exact. Dates written by Stage 1 use only ASCII digits.
- `Calendar.DayField`: reads the `\d` of the `[12]\d` alternative as an ASCII digit only, for the reason given under `Calendar.ParseIso`.
- `Enrichment.SentimentScore`: `label.lower()` is modelled as ASCII lower-casing. Non-ASCII lower-casing cannot produce the words `positive` or `negative` from a label that ASCII lower-casing leaves different.
- `NewsProcessing.SortByDate`: states sortedness and permutation, not the order of rows with equal dates. pandas' default sort is not stable, so that order is not fixed. The grouping lemmas rely only on sortedness.
- Dictionary order: the loops take the years in any order (`:|`), so the results are proved equal as maps, whatever the iteration order. JSON key order is not modelled.
- `GroupByYear`: builds each rendered record fresh. The source rewrites `publish_date` inside the dictionaries that `to_dict` produced. Those dictionaries are not shared with anything else, so the difference cannot be observed.
- `Reorganise`: builds each year's month dictionary locally and stores it after the year is filled. The source inserts an empty dictionary first and fills it in place. The final value is the same.
- The warning branch of Stage 2 slices `headline['headline_text']`. This raises a TypeError when the text is missing (NaN in the JSON); the model skips the record instead. A missing `publish_date` key (a KeyError) is not modelled: records always carry one. On documents produced by Stage 1 every date reads back (`StageOneOutputRegroupsCompletely`), so the branch is never taken there.
- Missing headline text is written out by `json.dump` as `NaN`. The model keeps it as `None` in the record.
- `sketch.js`, the visualisation front end, is not part of this model.
