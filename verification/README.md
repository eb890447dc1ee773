# Flight-delay archive cleaning, modelled in Dafny

This project models the cleaning step of the AviationDatasetProcessing
batch pipeline (`batch/cleaning/src/clean_data.py`). For each CSV member
of a zip archive, the handler does four things:

1. It projects every row onto the 18 `SELECTED_FIELDS`.
2. It files the projected record under its `Year`/`Month`/`DayofMonth` in
   a year → month → day index.
3. It writes one CSV object per day under
   `<prefix>/<YYYY>/<MM>/<YYYY>_<MM>_<DD>.csv`.
4. It reconciles the member's line count against the processed and
   written counts. The returned `{"status": "OK" | "ERROR"}` comes from
   the module-level `validation_ok`.

The model is functional. Python exceptions are `Failure` values of an
`Abort` type, and the puts the writer issues are returned as values.

Modules, in dependency order:

- `Base`: option and result types, the exceptions that escape, and
  `MapAll`, a loop that an exception ends.
- `Numbers`: Python's `format(n, "0wd")` and base-10 `int()`, with the
  round trip between them.
- `Fields`: rows, ordered records, `SELECTED_FIELDS`, and the dict
  comprehension at line 77.
- `DateIndex`: the three-level dict, flattened to the list of dates in
  first-appearance order plus a map from date to leaf. It also holds the
  order in which the writer's nested loops visit the leaves.
- `Transform`: `process_csvfile`.
- `Writer`: `write_new_csvfiles`, the object key and the object body.
- `Archive`: the member filter and the item list of
  `download_and_extract_zipfile`.
- `Handler`: `handle_zipfile`, including `validation_ok` carried over
  from an earlier invocation.

The model follows the code as written. Four behaviours of the code a
reader may not expect:

- **Bad rows abort; they are not skipped.** The clause at line 90 catches
  `IndexError`. The projection raises `KeyError` and `int()` raises
  `ValueError`, so a bad row escapes from the whole handler. Nothing ever
  increments `skipped_lines`, so the skipped count is always 0
  (`Transform.ProcessCsvFile`, `Transform.MissingFieldAborts`).
- **The status is the last member's verdict.** Line 160 resets
  `validation_ok` for every member, so the returned status reflects only
  the LAST member's reconciliation, not an aggregate over all members
  (`Handler.StatusReflectsLastFile`, `Handler.EarlierFailureForgotten`).
- **No CSV member means a NameError.** With no CSV member, `validation_ok`
  is never assigned. In a fresh process, line 177 then raises NameError
  instead of returning OK (`Handler.NoCsvMembersOutcome`).
- **The output order is grouped.** The writer visits leaves grouped by
  year and then by month. This is not the rows' first-appearance order
  (`DateIndex.IterationOrderGrouped`, `DateIndex.IterationOrderExample`).

## Model

| member | source | states |
|---|---|---|
| Base.MapAll | batch/cleaning/src/clean_data.py:75-90 | a per-row loop that an uncaught exception ends: it succeeds iff every element succeeds, the values are pointwise, and a failure is that of the first failing element |
| Base.MapAllFirstFailure | batch/cleaning/src/clean_data.py:75-90 | if the rows before index i succeed and row i fails, the loop ends with exactly row i's exception |
| Numbers.Format | batch/cleaning/src/clean_data.py:39 | the zero-padded format is at least `width` long, starts with `-` iff the number is negative, is exactly `width` long when the number fits, and holds only digits and the sign |
| Numbers.ParseInt | batch/cleaning/src/clean_data.py:78-80 | base-10 `int()` of a column's text; `Numbers.UnsignedTextParses`, `Numbers.NegativeTextParses` and `Numbers.FormatRoundTrip` state what it accepts and returns |
| Numbers.UnsignedTextParses | batch/cleaning/src/clean_data.py:78-80 | `int()` of a non-empty digit string is its decimal value |
| Numbers.NegativeTextParses | batch/cleaning/src/clean_data.py:78-80 | `int()` of `-` followed by digits is the negated decimal value |
| Numbers.FormatRoundTrip | batch/cleaning/src/clean_data.py:39 | reading a formatted key component back with `int()` gives the original integer, for every integer and width |
| Numbers.FormatInjective | batch/cleaning/src/clean_data.py:39 | distinct integers format to distinct strings at any width |
| Fields.SelectedFieldsDistinct | batch/cleaning/src/clean_data.py:12-16 | the selected field list has 18 names and none repeats |
| Fields.Lookup | batch/cleaning/src/clean_data.py:41-43 | looking a name up in a record finds a value iff the name is one of the record's keys |
| Fields.LookupAt | batch/cleaning/src/clean_data.py:41-43 | in a record with distinct keys, looking up the i-th key gives the i-th value |
| Fields.Project | batch/cleaning/src/clean_data.py:77 | the projection succeeds iff the row has every field; the result has the fields as its keys, in order, with the row's values; a failure is the KeyError of the first missing field |
| Fields.ProjectFirstMissing | batch/cleaning/src/clean_data.py:77 | when the first missing field is at index f, the projection fails with that field's KeyError |
| Fields.ProjectedLookup | batch/cleaning/src/clean_data.py:77 | a projected record answers each selected field with the row's own text |
| DateIndex.Insert | batch/cleaning/src/clean_data.py:82-88 | appending a record keeps the index well formed, adds the date's leaf if it was absent, appends the record to that leaf, and leaves every other leaf unchanged |
| DateIndex.InsertSize | batch/cleaning/src/clean_data.py:88-89 | each insertion adds exactly one record to the index |
| DateIndex.Bucket | batch/cleaning/src/clean_data.py:75-88 | filing a list of dated records yields a well-formed index |
| DateIndex.BucketKeys | batch/cleaning/src/clean_data.py:82-87 | a date has a leaf iff some record states it |
| DateIndex.BucketLeaves | batch/cleaning/src/clean_data.py:86-88 | each leaf is the input-ordered list of the records that state its date (the filter reference) |
| DateIndex.BucketOrder | batch/cleaning/src/clean_data.py:82-87 | the dates appear in the order each first occurs in the input |
| DateIndex.BucketMatchesFilter | batch/cleaning/src/clean_data.py:82-88 | keys, leaves and order together match the reference filter definitions |
| DateIndex.BucketSize | batch/cleaning/src/clean_data.py:88-89 | the index holds exactly as many records as were filed |
| DateIndex.Partition | batch/cleaning/src/clean_data.py:36-37 | the split into matching and non-matching dates loses nothing and adds nothing |
| DateIndex.ByMonth | batch/cleaning/src/clean_data.py:37 | regrouping one year's dates by month keeps the same dates and count |
| DateIndex.IterationOrder | batch/cleaning/src/clean_data.py:36-38 | the nested loops visit the same dates as the flat order, and the same number of them |
| DateIndex.IterationOrderPreserves | batch/cleaning/src/clean_data.py:36-38 | the nested traversal keeps dates distinct and visits exactly as many records as the flat order |
| DateIndex.ByMonthContiguous | batch/cleaning/src/clean_data.py:37 | within one year's regrouping, no month is interrupted: between two dates of a month only dates of that month occur |
| DateIndex.GroupedAppend | batch/cleaning/src/clean_data.py:36-38 | one year's dates grouped by month, followed by grouped dates of other years, stay grouped by year and by month within the year |
| DateIndex.IterationOrderGrouped | batch/cleaning/src/clean_data.py:36-38 | the nested loops keep each year contiguous, and each month contiguous within its year |
| DateIndex.IterationOrderExample | batch/cleaning/src/clean_data.py:36-38 | for first-appearance order 2015-03-01, 2016-01-01, 2015-04-01 the loops visit 2015-03-01, 2015-04-01, 2016-01-01, which differs from the first-appearance order |
| DateIndex.SingleMonthOrder | batch/cleaning/src/clean_data.py:36-38 | when all dates share a year and month, the traversal is plain first-appearance order |
| Transform.RowDate | batch/cleaning/src/clean_data.py:78-80 | the date is read iff the row has `Year`, `Month` and `DayofMonth` and `int()` accepts each; the date's components are those integers; otherwise the error is the KeyError or ValueError of the first of the three that fails |
| Transform.Prepare | batch/cleaning/src/clean_data.py:77-80 | a row gives an entry iff it has every selected field and `int()` accepts its `Year`, `Month` and `DayofMonth`; the entry's date is those three integers and its record has the selected names in order, each with the row's own text; a missing field is the KeyError of the first missing one, checked before any number; otherwise the ValueError of the first bad number |
| Transform.ProcessCsvFile | batch/cleaning/src/clean_data.py:62-98 | no header is the TypeError of line 74; otherwise it succeeds iff every row prepares and the reader raises nothing after the rows, processing all rows and skipping none into a well-formed index; a failure is the first failing row's exception, or the reader's when every row prepared |
| Transform.RowErrorPrecedesReaderError | batch/cleaning/src/clean_data.py:75-90 | when row i is the first row that fails, the call ends with row i's exception, whatever the reader would raise after it |
| Transform.TransformConservesRows | batch/cleaning/src/clean_data.py:88-96 | the index holds as many records as were processed, which is the number of rows |
| Transform.TransformKeys | batch/cleaning/src/clean_data.py:78-87 | a date has a leaf iff some row's `Year`, `Month` and `DayofMonth` read as that date |
| Transform.TransformLeaves | batch/cleaning/src/clean_data.py:86-88 | the leaf of a date is the row-ordered list of the projections of the rows dated on it |
| Transform.LeafRecordsAreProjections | batch/cleaning/src/clean_data.py:77-88 | every record in a leaf has exactly the 18 selected keys in order, and is the projection of a row whose own `Year`, `Month` and `DayofMonth` read as the leaf's date |
| Transform.MissingFieldAborts | batch/cleaning/src/clean_data.py:76-91 | a row lacking a selected field, after rows that prepare, ends the call with that field's KeyError instead of being skipped |
| Transform.HeaderLackingFieldAborts | batch/cleaning/src/clean_data.py:70-91 | if the header lacks a selected field, any data row aborts the call; with no data rows the call succeeds |
| Writer.ObjectKey | batch/cleaning/src/clean_data.py:39 | computes the key; its properties are stated by `Writer.ObjectKeyShape`, `Writer.ObjectKeyFixedWidth`, `Writer.ObjectKeyExample` and `Writer.ObjectKeyInjective` |
| Writer.ObjectKeyShape | batch/cleaning/src/clean_data.py:39 | every key starts with the prefix and `/` and ends with `.csv` |
| Writer.ObjectKeyFixedWidth | batch/cleaning/src/clean_data.py:39 | for a four-digit year and a two-digit month and day, the key is the prefix plus 23 characters |
| Writer.ObjectKeyExample | batch/cleaning/src/clean_data.py:39 | 9 March 2015 under prefix `out` has the key `out/2015/03/2015_03_09.csv` |
| Writer.ObjectKeyInjective | batch/cleaning/src/clean_data.py:39 | distinct dates never share an object key, for any integer components |
| Writer.DictRow | batch/cleaning/src/clean_data.py:41-43 | a written row has one cell per header name; its contents are stated by `Writer.DictRowOwnNames` and `Writer.DayObjectShape` |
| Writer.DictRowOwnNames | batch/cleaning/src/clean_data.py:41-43 | a record written under its own distinct keys comes out as its values, in order |
| Writer.DayObject | batch/cleaning/src/clean_data.py:40-43 | a day's object has one header row plus one row per record |
| Writer.DayObjectShape | batch/cleaning/src/clean_data.py:40-43 | for a leaf whose records share the distinct keys `fields`, the object is `fields` followed by each record's values in leaf order |
| Writer.WriteLeaves | batch/cleaning/src/clean_data.py:36-44 | one file entry and one put per visited date, and the line total is the sum of the visited leaves' lengths |
| Writer.WriteLeavesPointwise | batch/cleaning/src/clean_data.py:39-57 | the i-th file entry and the i-th put belong to the i-th visited date, with its key, its leaf's body and content type `text/csv` |
| Writer.WriteNewCsvFiles | batch/cleaning/src/clean_data.py:28-59 | one entry and one put per leaf, in nested-loop order, each keyed by its date and holding its leaf |
| Writer.WrittenLinesCountRecords | batch/cleaning/src/clean_data.py:44 | `written_lines` equals the number of records in the index |
| Writer.OneObjectPerLeaf | batch/cleaning/src/clean_data.py:54-57 | a date has a leaf iff its `{bucketname, key}` entry is in `written_files` |
| Writer.WrittenKeysDistinct | batch/cleaning/src/clean_data.py:39-57 | no key is written twice in one call |
| Archive.MatchesCsv | batch/cleaning/src/clean_data.py:121 | the member filter; it is the regular-expression search by `Archive.MatchesCsvIsSearch`, with the cases of `Archive.MatchesCsvExamples` |
| Archive.MatchesCsvIsSearch | batch/cleaning/src/clean_data.py:121 | the end-anchored test is exactly the regular-expression search for `.csv$` |
| Archive.MatchesCsvExamples | batch/cleaning/src/clean_data.py:121 | the filter accepts `foocsv` and a name ending in a newline, and rejects `csv`, `data.CSV` and a newline before `csv` |
| Archive.LastLines | batch/cleaning/src/clean_data.py:123 | opening a name reads the lines of the last member listed under that name |
| Archive.CollectCsv | batch/cleaning/src/clean_data.py:120-130 | the first n listed members give one item per matching name, in listing order |
| Archive.ExtractCsvFiles | batch/cleaning/src/clean_data.py:115-132 | one item per matching name, in listing order, with that name's last member's lines and `nr_lines` one less than their count |
| Archive.CsvNames | batch/cleaning/src/clean_data.py:120-121 | the names the loop keeps, in listing order; `Archive.CsvNamesAreMatches` states that a name is kept iff it is listed and matches |
| Archive.CsvNamesAreMatches | batch/cleaning/src/clean_data.py:120-121 | a name is selected iff some listed member has it and it matches the filter |
| Archive.NoCsvMembers | batch/cleaning/src/clean_data.py:120-132 | an archive without a matching name gives no items |
| Handler.WrittenObjectShape | batch/cleaning/src/clean_data.py:40-43 | each day object of a processed member is the header `SELECTED_FIELDS` in declared order, then exactly one row per record of the leaf, in leaf order, holding that record's values |
| Handler.WriteAndReconcile | batch/cleaning/src/clean_data.py:157-170 | the written lines equal the processed lines, so the two reconciliation checks agree, and the verdict is whether `nr_lines` matches |
| Handler.Reconcile | batch/cleaning/src/clean_data.py:160-170 | the two reconciliation checks; `Handler.WriteAndReconcile` states that they agree and what they decide |
| Handler.HandleTable | batch/cleaning/src/clean_data.py:154-170 | the member goes through iff its processing succeeds, else it raises the same exception; on success all rows are processed and none skipped, the puts are those of writing the processed index, one line is written per row, and it validates iff `nr_lines` equals the number of rows |
| Handler.HandleFile | batch/cleaning/src/clean_data.py:153-170 | the member goes through iff the reader and the processing both succeed; a reader exception escapes as is, else the processing's; on success the puts are those of writing the processed index, one line is written per row, and it validates iff `nr_lines` equals the number of rows |
| Handler.HandleFiles | batch/cleaning/src/clean_data.py:151-175 | the loop over the members; `Handler.ValidationIsLastVerdict`, `Handler.AbortKeepsEarlierPuts` and `Handler.RaisedPersists` state its behaviour |
| Handler.HandleZipfile | batch/cleaning/src/clean_data.py:135-178 | the whole invocation; `Handler.StatusReflectsLastFile`, `Handler.EarlierFailureForgotten`, `Handler.AbortKeepsEarlierPuts` and `Handler.NoCsvMembersOutcome` state its outcome |
| Handler.ValidationIsLastVerdict | batch/cleaning/src/clean_data.py:151-170 | if no member raises, nothing escapes and `validation_ok` holds the last member's verdict, or the earlier value when there are no members |
| Handler.StatusReflectsLastFile | batch/cleaning/src/clean_data.py:160-178 | when every member is handled, the status is OK iff the last member's `nr_lines` equals its row count |
| Handler.StatusIsLastValidation | batch/cleaning/src/clean_data.py:160-178 | when every member is handled, the status is OK iff the last member validated |
| Handler.LastVerdict | batch/cleaning/src/clean_data.py:160-170 | a handled member was read, and it validates iff `nr_lines` equals its row count |
| Handler.EarlierFailureForgotten | batch/cleaning/src/clean_data.py:160-178 | an earlier member that failed reconciliation does not stop OK when the last member passes |
| Handler.AbortKeepsEarlierPuts | batch/cleaning/src/clean_data.py:151-157 | an exception in member k escapes the handler, and exactly the puts of the earlier members remain |
| Handler.RaisedPersists | batch/cleaning/src/clean_data.py:151-157 | once an exception has escaped, later members change nothing |
| Handler.NoCsvMembersOutcome | batch/cleaning/src/clean_data.py:145-178 | with no CSV member nothing is written, and the status is the earlier `validation_ok`, or NameError when it was never set |
| Handler.BytesDictReader | batch/cleaning/src/clean_data.py:70-74 | csv.DictReader over the bytes lines of line 123; `Handler.AsWrittenNeverReturns` states its consequence |
| Handler.AsWrittenNeverReturns | batch/cleaning/src/clean_data.py:70-74 | with the bytes lines that line 123 reads, a fresh invocation never returns a status and writes nothing |
| Handler.DecodedArchiveReturns | batch/cleaning/src/clean_data.py:151-178 | with decoded lines, an archive whose rows all prepare returns the last member's reconciliation verdict |

## Left out

- Storage I/O: `get_object` and `put_object` are not modelled. The
  archive arrives as its member list. Each put is returned as a value
  holding its bucket, key, body and content type. A failing put, and the
  event-dict KeyError for a missing event field, are not modelled.
- Zip decompression and `BytesIO` are left out. `namelist()` order and the
  last-member-wins rule of `open()` are kept.
- CSV tokenising and quoting are left out:
  - `csv.DictReader` is a parameter, `Handler.Reader`. It gives the rows
    the reader yields and, separately, the exception it raises after them,
    if any (`Transform.CsvTable`). That exception is raised only once every
    earlier row has been prepared, as in the lazy source, so a failing row
    wins over a later reader exception
    (`Transform.RowErrorPrecedesReaderError`).
  - The rows `csv.DictWriter` produces are modelled as lists of cells.
    Their CSV encoding, and ragged rows (the `None` key and the `restval`
    filler of `DictReader`), are not modelled.
- `int()` is modelled for ASCII whitespace, an optional sign and
  underscore-grouped ASCII digits. Unicode digits and Unicode whitespace
  are left out, because the source data is ASCII.
- The `ValueError` that `DictWriter.writerows` raises for a key outside
  the header is not modelled. It cannot happen: every record in a leaf has
  the 18 selected keys in the same order (`Transform.LeafRecordsAreProjections`).
- Logging and the `DEBUG` environment switch are left out, because they
  have no effect on results.
- Writer.DictRow: its own contract states only the row length. The
  contents are stated by `Writer.DictRowOwnNames` and
  `Writer.DayObjectShape`.
- DateIndex.Partition: the membership contract says nothing about order
  within each part. `DateIndex.PartitionAll` and
  `DateIndex.SingleMonthOrder` cover the order where it matters.

## Findings

| source | as written | input that shows it | evidently intended | confidence | as-written member | corrected member |
|---|---|---|---|---|---|---|
| batch/cleaning/src/clean_data.py:123 | `readlines()` on the opened zip member yields `bytes` lines. `csv.DictReader` built on them at line 70 raises `csv.Error` when line 74 reads the header; an empty member instead reaches `sorted(None)`, a TypeError. | any archive holding a member `a.csv` whose first line is `Year,Month,DayofMonth\n` | the member's lines are decoded to text before parsing, so rows reach the projection and the handler returns a status | not executed | Handler.AsWrittenNeverReturns | Handler.DecodedArchiveReturns |
