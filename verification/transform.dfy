/** `process_csvfile` (batch/cleaning/src/clean_data.py:62-98): project
    each parsed row onto the selected fields, read its date, and append it
    to the date index. */
module Transform {
  import opened Base
  import opened Numbers
  import opened Fields
  import opened DateIndex

  /** What csv.DictReader yields for one member's lines. `fieldnames` is
      None when there was no line to take a header from. The reader is
      lazy: `rows` are the rows it yields, and `stop` is the exception it
      raises when asked for the row after them, if it raises one. */
  datatype CsvTable = CsvTable(fieldnames: Option<seq<string>>, rows: seq<Row>, stop: Option<Abort>)

  /** The dict returned at lines 93-98. */
  datatype TransformResult = TransformResult(csvFile: string, processed: nat, skipped: nat, data: Index)

  /** The row has every selected column. */
  predicate HasSelected(row: Row) {
    forall f :: f in SelectedFields ==> f in row
  }

  /** The row has column `name`, and `int()` accepts its text. */
  predicate IsIntField(row: Row, name: string) {
    name in row && ParseInt(row[name]).Some?
  }

  /** What `int(line[name])` raises when it fails: KeyError for a missing
      column, ValueError for text that is no integer. */
  function FieldError(row: Row, name: string): Abort {
    if name in row then BadInt(name, row[name]) else MissingField(name)
  }

  /** `int(line[name])`. */
  function FieldInt(row: Row, name: string): Result<int> {
    if name !in row then Failure(MissingField(name))
    else
      match ParseInt(row[name])
      case Some(n) => Success(n)
      case None => Failure(BadInt(name, row[name]))
  }

  /** Lines 78-80: `int()` of the row's Year, Month and DayofMonth, in
      that order; the first that fails decides the exception. */
  function RowDate(row: Row): (r: Result<Date>)
    ensures r.Success? <==> IsIntField(row, "Year") && IsIntField(row, "Month") && IsIntField(row, "DayofMonth")
    ensures r.Success? ==> && ParseInt(row["Year"]) == Some(r.value.year)
                           && ParseInt(row["Month"]) == Some(r.value.month)
                           && ParseInt(row["DayofMonth"]) == Some(r.value.day)
    ensures r.Failure? ==> r.error == if !IsIntField(row, "Year") then FieldError(row, "Year")
                                      else if !IsIntField(row, "Month") then FieldError(row, "Month")
                                      else FieldError(row, "DayofMonth")
  {
    match FieldInt(row, "Year")
    case Failure(e) => Failure(e)
    case Success(y) =>
      match FieldInt(row, "Month")
      case Failure(e) => Failure(e)
      case Success(m) =>
        match FieldInt(row, "DayofMonth")
        case Failure(e) => Failure(e)
        case Success(d) => Success(Date(y, m, d))
  }

  /** Lines 77-80 for one row: project (a KeyError for a missing field),
      then read the date from the row (a ValueError for a bad number). */
  function Prepare(row: Row): (r: Result<Entry>)
    ensures r.Success? <==> && HasSelected(row)
                            && IsIntField(row, "Year") && IsIntField(row, "Month") && IsIntField(row, "DayofMonth")
    ensures r.Success? ==> && ParseInt(row["Year"]) == Some(r.value.date.year)
                           && ParseInt(row["Month"]) == Some(r.value.date.month)
                           && ParseInt(row["DayofMonth"]) == Some(r.value.date.day)
                           && Names(r.value.record) == SelectedFields
                           && forall i :: 0 <= i < |SelectedFields| ==> r.value.record[i].value == row[SelectedFields[i]]
    ensures r.Failure? && !HasSelected(row) ==>
              exists f :: && 0 <= f < |SelectedFields| && SelectedFields[f] !in row
                          && (forall g :: 0 <= g < f ==> SelectedFields[g] in row)
                          && r.error == MissingField(SelectedFields[f])
    ensures r.Failure? && HasSelected(row) ==>
              && r.error.BadInt?
              && r.error == if !IsIntField(row, "Year") then FieldError(row, "Year")
                            else if !IsIntField(row, "Month") then FieldError(row, "Month")
                            else FieldError(row, "DayofMonth")
  {
    match Project(row, SelectedFields)
    case Failure(e) =>
      assert !HasSelected(row);
      Failure(e)
    case Success(rec) =>
      DateColumnsSelected(row);
      match RowDate(row)
      case Failure(e) => Failure(e)
      case Success(d) => Success(Entry(d, rec))
  }

  /** The date columns are among the selected ones. */
  lemma DateColumnsSelected(row: Row)
    requires HasSelected(row)
    ensures "Year" in row && "Month" in row && "DayofMonth" in row
  {
    assert SelectedFields[0] == "Year" && SelectedFields[1] == "Month" && SelectedFields[2] == "DayofMonth";
  }

  /** `process_csvfile`. The `except IndexError` at line 90 catches
      neither the KeyError of a missing field nor the ValueError of a bad
      number, so any failing row aborts the whole call and nothing is ever
      counted as skipped. Rows are handled as the reader yields them, so a
      reader exception counts only once every earlier row has prepared. */
  function ProcessCsvFile(csvFile: string, table: CsvTable): (r: Result<TransformResult>)
    ensures r.Success? <==> && table.fieldnames.Some? && table.stop.None?
                            && forall i :: 0 <= i < |table.rows| ==> Prepare(table.rows[i]).Success?
    ensures table.fieldnames.None? ==> r == Failure(NoHeader)
    ensures r.Success? ==> && r.value.csvFile == csvFile
                           && r.value.processed == |table.rows|
                           && r.value.skipped == 0
                           && Valid(r.value.data)
    ensures r.Failure? && table.fieldnames.Some? ==>
              || (exists i :: && 0 <= i < |table.rows|
                              && Prepare(table.rows[i]) == Failure(r.error)
                              && forall j :: 0 <= j < i ==> Prepare(table.rows[j]).Success?)
              || (&& (forall i :: 0 <= i < |table.rows| ==> Prepare(table.rows[i]).Success?)
                  && table.stop == Some(r.error))
  {
    match table.fieldnames
    case None => Failure(NoHeader)
    case Some(_) =>
      match MapAll(table.rows, Prepare)
      case Failure(e) => Failure(e)
      case Success(entries) =>
        match table.stop
        case Some(e) => Failure(e)
        case None => Success(TransformResult(csvFile, |entries|, 0, Bucket(entries)))
  }

  // ---------------------------------------------------------------------
  // Properties.

  /** The projections of the rows dated `d`, in row order; rows that do not
      prepare contribute nothing. */
  function RowsOn(rows: seq<Row>, d: Date): seq<Record> {
    if rows == [] then []
    else
      var tail := match Prepare(rows[|rows| - 1])
        case Success(e) => if e.date == d then [e.record] else []
        case Failure(_) => [];
      RowsOn(rows[..|rows| - 1], d) + tail
  }

  lemma {:induction false} RecordsOnRows(entries: seq<Entry>, rows: seq<Row>, d: Date)
    requires |entries| == |rows|
    requires forall i :: 0 <= i < |rows| ==> Prepare(rows[i]) == Success(entries[i])
    ensures RecordsOn(entries, d) == RowsOn(rows, d)
  {
    if rows != [] {
      RecordsOnRows(entries[..|entries| - 1], rows[..|rows| - 1], d);
    }
  }

  /** Processed rows are conserved: the leaves together hold exactly as
      many records as rows were read, which is the processed count. */
  lemma TransformConservesRows(csvFile: string, table: CsvTable)
    requires ProcessCsvFile(csvFile, table).Success?
    ensures Size(ProcessCsvFile(csvFile, table).value.data) == ProcessCsvFile(csvFile, table).value.processed
    ensures ProcessCsvFile(csvFile, table).value.processed == |table.rows|
  {
    BucketSize(MapAll(table.rows, Prepare).value);
  }

  /** Partition correctness, keys: a date has a leaf exactly when some
      row states it. */
  lemma TransformKeys(csvFile: string, table: CsvTable)
    requires ProcessCsvFile(csvFile, table).Success?
    ensures var ix := ProcessCsvFile(csvFile, table).value.data;
            forall d :: d in ix.leaves <==> exists i :: 0 <= i < |table.rows| && RowDate(table.rows[i]) == Success(d)
  {
    var entries := MapAll(table.rows, Prepare).value;
    var ix := ProcessCsvFile(csvFile, table).value.data;
    assert ix == Bucket(entries);
    BucketKeys(entries);
    forall d
      ensures d in ix.leaves <==> exists i :: 0 <= i < |table.rows| && RowDate(table.rows[i]) == Success(d)
    {
      if d in ix.leaves {
        var i :| 0 <= i < |entries| && entries[i].date == d;
        PreparedParts(table.rows[i], entries[i]);
      }
      if exists i :: 0 <= i < |table.rows| && RowDate(table.rows[i]) == Success(d) {
        var i :| 0 <= i < |table.rows| && RowDate(table.rows[i]) == Success(d);
        PreparedParts(table.rows[i], entries[i]);
      }
    }
  }

  /** Partition correctness, contents: the leaf of a date is the
      row-ordered list of the projections of the rows stating it. */
  lemma TransformLeaves(csvFile: string, table: CsvTable)
    requires ProcessCsvFile(csvFile, table).Success?
    ensures var ix := ProcessCsvFile(csvFile, table).value.data;
            forall d :: d in ix.leaves ==> ix.leaves[d] == RowsOn(table.rows, d)
  {
    var entries := MapAll(table.rows, Prepare).value;
    var ix := ProcessCsvFile(csvFile, table).value.data;
    assert ix == Bucket(entries);
    BucketLeaves(entries);
    forall d | d in ix.leaves
      ensures ix.leaves[d] == RowsOn(table.rows, d)
    {
      RecordsOnRows(entries, table.rows, d);
    }
  }

  /** Every record in the leaf of `d` is the projection of some input row:
      it carries exactly the selected fields in their declared order, with
      that row's text, other columns dropped; and `d` is the date read
      from that same row, so it is filed under its own date and no other. */
  lemma LeafRecordsAreProjections(csvFile: string, table: CsvTable, d: Date, k: int)
    requires ProcessCsvFile(csvFile, table).Success?
    requires d in ProcessCsvFile(csvFile, table).value.data.leaves
    requires 0 <= k < |ProcessCsvFile(csvFile, table).value.data.leaves[d]|
    ensures var rec := ProcessCsvFile(csvFile, table).value.data.leaves[d][k];
            && Names(rec) == SelectedFields
            && |rec| == 18
            && (exists i :: && 0 <= i < |table.rows|
                            && Project(table.rows[i], SelectedFields) == Success(rec)
                            && RowDate(table.rows[i]) == Success(d))
  {
    var entries := MapAll(table.rows, Prepare).value;
    BucketLeaves(entries);
    RecordsOnSource(entries, d, k);
    var i :| 0 <= i < |entries| && entries[i] == Entry(d, RecordsOn(entries, d)[k]);
    PreparedParts(table.rows[i], entries[i]);
  }

  /** A prepared row's record is its projection and its date is its own. */
  lemma PreparedParts(row: Row, e: Entry)
    requires Prepare(row) == Success(e)
    ensures Project(row, SelectedFields) == Success(e.record)
    ensures RowDate(row) == Success(e.date)
  {
  }

  /** A row lacking a selected field is not skipped: it aborts the call
      with the KeyError of the first field it lacks. */
  lemma MissingFieldAborts(csvFile: string, table: CsvTable, i: int, f: int)
    requires table.fieldnames.Some?
    requires 0 <= i < |table.rows|
    requires forall j :: 0 <= j < i ==> Prepare(table.rows[j]).Success?
    requires 0 <= f < |SelectedFields| && SelectedFields[f] !in table.rows[i]
    requires forall g :: 0 <= g < f ==> SelectedFields[g] in table.rows[i]
    ensures ProcessCsvFile(csvFile, table) == Failure(MissingField(SelectedFields[f]))
  {
    ProjectFirstMissing(table.rows[i], SelectedFields, f);
    assert Prepare(table.rows[i]) == Failure(MissingField(SelectedFields[f]));
    MapAllFirstFailure(table.rows, Prepare, i);
  }

  /** The reader is consumed row by row, so the exception of a row that
      fails wins over any reader exception further on: the reader is never
      asked for what follows. */
  lemma RowErrorPrecedesReaderError(csvFile: string, table: CsvTable, i: int)
    requires table.fieldnames.Some?
    requires 0 <= i < |table.rows| && Prepare(table.rows[i]).Failure?
    requires forall j :: 0 <= j < i ==> Prepare(table.rows[j]).Success?
    ensures ProcessCsvFile(csvFile, table) == Failure(Prepare(table.rows[i]).error)
  {
    MapAllFirstFailure(table.rows, Prepare, i);
  }

  /** Rows keyed by a header that lacks a selected field: the first data
      row aborts the call; with no data rows nothing is read at all. */
  lemma HeaderLackingFieldAborts(csvFile: string, header: seq<string>, rows: seq<Row>, f: int)
    requires forall i :: 0 <= i < |rows| ==> rows[i].Keys == set h | h in header
    requires 0 <= f < |SelectedFields| && SelectedFields[f] !in header
    requires forall g :: 0 <= g < f ==> SelectedFields[g] in header
    ensures |rows| > 0 ==> ProcessCsvFile(csvFile, CsvTable(Some(header), rows, None)) == Failure(MissingField(SelectedFields[f]))
    ensures |rows| == 0 ==> ProcessCsvFile(csvFile, CsvTable(Some(header), rows, None)).Success?
  {
    if |rows| > 0 {
      MissingFieldAborts(csvFile, CsvTable(Some(header), rows, None), 0, f);
    }
  }
}
