/** `handle_zipfile` (batch/cleaning/src/clean_data.py:135-178): for each
    CSV item, process, write and reconcile; the status returned is
    decided by the module-level `validation_ok`. */
module Handler {
  import opened Base
  import opened Fields
  import opened DateIndex
  import opened Transform
  import opened Writer
  import opened Archive

  /** What the handler makes of a member's lines before projecting rows:
      csv.DictReader in the source. A failure is its csv.Error. */
  type Reader = seq<Line> -> Result<CsvTable>

  datatype Status = OK | ERROR

  /** How the invocation ends: a returned status or an escaping exception. */
  datatype Outcome = Returned(status: Status) | Raised(error: Abort)

  /** The puts issued (they are never rolled back) and how the call ended. */
  datatype RunResult = RunResult(puts: seq<PutObject>, outcome: Outcome)

  /** What one item produced: the transform and write results and the
      value `validation_ok` holds after lines 160-170. */
  datatype FileReport = FileReport(transform: TransformResult, write: WriteResult, validated: bool)

  /** Lines 160-170: both reconciliation checks must pass. */
  function Reconcile(nrLines: int, t: TransformResult, w: WriteResult): bool {
    nrLines == t.processed + t.skipped && nrLines == w.writtenLines + t.skipped
  }

  /** Lines 157-170 for one processed item: write it, then reconcile.
      Written lines equal processed lines, so the two checks agree. */
  function WriteAndReconcile(f: CsvFile, t: TransformResult, bucket: string, prefix: string): (r: FileReport)
    requires Valid(t.data) && Size(t.data) == t.processed
    ensures r.transform == t
    ensures r.write.writtenLines == t.processed
    ensures r.validated <==> f.nrLines == t.processed + t.skipped
    ensures r.validated <==> f.nrLines == r.write.writtenLines + t.skipped
  {
    var w := WriteNewCsvFiles(bucket, prefix, t.data);
    WrittenLinesCountRecords(bucket, prefix, t.data);
    FileReport(t, w, Reconcile(f.nrLines, t, w))
  }

  /** Lines 154-170 for one item once its rows are read: it goes through
      exactly when the rows process; the objects put are those of the
      processed index, one line per row; and the item validates exactly
      when its `nr_lines` equals the number of rows. */
  function HandleTable(f: CsvFile, table: CsvTable, bucket: string, prefix: string): (r: Result<FileReport>)
    ensures r.Success? <==> ProcessCsvFile(f.filename, table).Success?
    ensures r.Failure? ==> r.error == ProcessCsvFile(f.filename, table).error
    ensures r.Success? ==> && r.value.transform == ProcessCsvFile(f.filename, table).value
                           && r.value.transform.processed == |table.rows|
                           && r.value.transform.skipped == 0
                           && r.value.write.puts == WriteNewCsvFiles(bucket, prefix, r.value.transform.data).puts
                           && r.value.write.writtenLines == |table.rows|
                           && (r.value.validated <==> f.nrLines == |table.rows|)
  {
    match ProcessCsvFile(f.filename, table)
    case Failure(e) => Failure(e)
    case Success(t) =>
      TransformConservesRows(f.filename, table);
      Success(WriteAndReconcile(f, t, bucket, prefix))
  }

  /** Lines 153-170 for one item: read its rows, then process, write and
      reconcile them. The item goes through exactly when both the reader
      and the processing succeed, and an exception of either escapes. */
  function HandleFile(f: CsvFile, reader: Reader, bucket: string, prefix: string): (r: Result<FileReport>)
    ensures r.Success? <==> reader(f.content).Success? && ProcessCsvFile(f.filename, reader(f.content).value).Success?
    ensures reader(f.content).Failure? ==> r == Failure(reader(f.content).error)
    ensures reader(f.content).Success? && r.Failure? ==>
              r.error == ProcessCsvFile(f.filename, reader(f.content).value).error
    ensures r.Success? ==> && reader(f.content).Success?
                           && var table := reader(f.content).value;
                              && r.value.transform == ProcessCsvFile(f.filename, table).value
                              && r.value.transform.processed == |table.rows|
                              && r.value.write.puts == WriteNewCsvFiles(bucket, prefix, r.value.transform.data).puts
                              && r.value.write.writtenLines == |table.rows|
                              && (r.value.validated <==> f.nrLines == |table.rows|)
  {
    match reader(f.content)
    case Failure(e) => Failure(e)
    case Success(table) => HandleTable(f, table, bucket, prefix)
  }

  /** The state after a prefix of the items: puts so far, the value of
      `validation_ok` (None while unassigned), and an escaped exception. */
  datatype Progress = Progress(puts: seq<PutObject>, validation: Option<bool>, raised: Option<Abort>)

  /** Lines 151-175 over the items; `prior` is the value `validation_ok`
      kept from an earlier invocation in the same process. */
  function HandleFiles(files: seq<CsvFile>, reader: Reader, bucket: string, prefix: string, prior: Option<bool>): (p: Progress)
  {
    if files == [] then Progress([], prior, None)
    else
      var p := HandleFiles(files[..|files| - 1], reader, bucket, prefix, prior);
      if p.raised.Some? then p
      else
        match HandleFile(files[|files| - 1], reader, bucket, prefix)
        case Failure(e) => Progress(p.puts, p.validation, Some(e))
        case Success(report) => Progress(p.puts + report.write.puts, Some(report.validated), None)
  }

  /** `handle_zipfile` over the listed members of the fetched archive. */
  function HandleZipfile(members: seq<Member>, reader: Reader, bucket: string, prefix: string, prior: Option<bool>): RunResult {
    var p := HandleFiles(ExtractCsvFiles(members), reader, bucket, prefix, prior);
    if p.raised.Some? then RunResult(p.puts, Raised(p.raised.value))
    else
      match p.validation
      case None => RunResult(p.puts, Raised(Unbound))
      case Some(ok) => RunResult(p.puts, Returned(if ok then OK else ERROR))
  }

  // ---------------------------------------------------------------------
  // Properties.

  /** The object written for a day of a processed member: the header is
      `SELECTED_FIELDS` in declared order, then one row per record of
      the leaf, in leaf order, holding that record's values. */
  lemma WrittenObjectShape(filename: string, table: CsvTable, d: Date)
    requires ProcessCsvFile(filename, table).Success?
    requires d in ProcessCsvFile(filename, table).value.data.leaves
    ensures var leaf := ProcessCsvFile(filename, table).value.data.leaves[d];
            && |DayObject(leaf)| == |leaf| + 1
            && DayObject(leaf)[0] == SelectedFields
            && forall i :: 0 <= i < |leaf| ==> DayObject(leaf)[i + 1] == Values(leaf[i])
  {
    var leaf := ProcessCsvFile(filename, table).value.data.leaves[d];
    SelectedFieldsDistinct();
    forall k | 0 <= k < |leaf|
      ensures Names(leaf[k]) == SelectedFields
    {
      LeafRecordsAreProjections(filename, table, d, k);
    }
    DayObjectShape(leaf, SelectedFields);
  }

  /** If every item is handled without an exception, nothing escapes and
      `validation_ok` holds the last item's verdict, whatever came before. */
  lemma {:induction false} ValidationIsLastVerdict(files: seq<CsvFile>, reader: Reader, bucket: string, prefix: string, prior: Option<bool>)
    requires forall k :: 0 <= k < |files| ==> HandleFile(files[k], reader, bucket, prefix).Success?
    ensures HandleFiles(files, reader, bucket, prefix, prior).raised == None
    ensures files == [] ==> HandleFiles(files, reader, bucket, prefix, prior).validation == prior
    ensures files != [] ==> HandleFiles(files, reader, bucket, prefix, prior).validation
                            == Some(HandleFile(files[|files| - 1], reader, bucket, prefix).value.validated)
  {
    if files != [] {
      ValidationIsLastVerdict(files[..|files| - 1], reader, bucket, prefix, prior);
    }
  }

  /** The status returned is OK exactly when the LAST item validated: the
      reset at line 160 discards the verdicts of the earlier items. */
  lemma StatusReflectsLastFile(members: seq<Member>, reader: Reader, bucket: string, prefix: string, prior: Option<bool>)
    requires ExtractCsvFiles(members) != []
    requires forall k :: 0 <= k < |ExtractCsvFiles(members)| ==>
               HandleFile(ExtractCsvFiles(members)[k], reader, bucket, prefix).Success?
    ensures var files := ExtractCsvFiles(members);
            var last := files[|files| - 1];
            && reader(last.content).Success?
            && HandleZipfile(members, reader, bucket, prefix, prior).outcome
               == Returned(if last.nrLines == |reader(last.content).value.rows| then OK else ERROR)
  {
    var files := ExtractCsvFiles(members);
    StatusIsLastValidation(members, reader, bucket, prefix, prior);
    LastVerdict(files[|files| - 1], reader, bucket, prefix);
  }

  lemma StatusIsLastValidation(members: seq<Member>, reader: Reader, bucket: string, prefix: string, prior: Option<bool>)
    requires ExtractCsvFiles(members) != []
    requires forall k :: 0 <= k < |ExtractCsvFiles(members)| ==>
               HandleFile(ExtractCsvFiles(members)[k], reader, bucket, prefix).Success?
    ensures var files := ExtractCsvFiles(members);
            var verdict := HandleFile(files[|files| - 1], reader, bucket, prefix).value.validated;
            HandleZipfile(members, reader, bucket, prefix, prior).outcome == Returned(if verdict then OK else ERROR)
  {
    ValidationIsLastVerdict(ExtractCsvFiles(members), reader, bucket, prefix, prior);
  }

  lemma LastVerdict(f: CsvFile, reader: Reader, bucket: string, prefix: string)
    requires HandleFile(f, reader, bucket, prefix).Success?
    ensures reader(f.content).Success?
    ensures HandleFile(f, reader, bucket, prefix).value.validated <==> f.nrLines == |reader(f.content).value.rows|
  {
  }

  /** An earlier item that failed reconciliation does not change the
      status when the last item passes. */
  lemma EarlierFailureForgotten(members: seq<Member>, reader: Reader, bucket: string, prefix: string, prior: Option<bool>, k: int)
    requires var files := ExtractCsvFiles(members);
             && 0 <= k < |files| - 1
             && (forall j :: 0 <= j < |files| ==> HandleFile(files[j], reader, bucket, prefix).Success?)
             && !HandleFile(files[k], reader, bucket, prefix).value.validated
             && HandleFile(files[|files| - 1], reader, bucket, prefix).value.validated
    ensures HandleZipfile(members, reader, bucket, prefix, prior).outcome == Returned(OK)
  {
    ValidationIsLastVerdict(ExtractCsvFiles(members), reader, bucket, prefix, prior);
  }

  /** An exception in item `k` escapes the handler: the objects of the
      earlier items stay written and no later item is looked at. */
  lemma AbortKeepsEarlierPuts(members: seq<Member>, reader: Reader, bucket: string, prefix: string, prior: Option<bool>, k: int)
    requires var files := ExtractCsvFiles(members);
             && 0 <= k < |files|
             && (forall j :: 0 <= j < k ==> HandleFile(files[j], reader, bucket, prefix).Success?)
             && HandleFile(files[k], reader, bucket, prefix).Failure?
    ensures var files := ExtractCsvFiles(members);
            && HandleZipfile(members, reader, bucket, prefix, prior).outcome
               == Raised(HandleFile(files[k], reader, bucket, prefix).error)
            && HandleZipfile(members, reader, bucket, prefix, prior).puts
               == HandleFiles(files[..k], reader, bucket, prefix, prior).puts
  {
    var files := ExtractCsvFiles(members);
    assert files[..k + 1][..k] == files[..k];
    ValidationIsLastVerdict(files[..k], reader, bucket, prefix, prior);
    RaisedPersists(files, reader, bucket, prefix, prior, k + 1);
  }

  lemma {:induction false} RaisedPersists(files: seq<CsvFile>, reader: Reader, bucket: string, prefix: string, prior: Option<bool>, n: int)
    requires 0 <= n <= |files|
    requires HandleFiles(files[..n], reader, bucket, prefix, prior).raised.Some?
    ensures HandleFiles(files, reader, bucket, prefix, prior) == HandleFiles(files[..n], reader, bucket, prefix, prior)
    decreases |files| - n
  {
    if n < |files| {
      assert files[..n + 1][..n] == files[..n];
      RaisedPersists(files, reader, bucket, prefix, prior, n + 1);
    } else {
      assert files[..n] == files;
    }
  }

  /** An archive without CSV members writes nothing; the status is
      whatever `validation_ok` held before, and in a fresh process the
      global is unassigned, so `return` raises NameError. */
  lemma NoCsvMembersOutcome(members: seq<Member>, reader: Reader, bucket: string, prefix: string, prior: Option<bool>)
    requires forall i :: 0 <= i < |members| ==> !MatchesCsv(members[i].name)
    ensures HandleZipfile(members, reader, bucket, prefix, prior).puts == []
    ensures prior == None ==> HandleZipfile(members, reader, bucket, prefix, prior).outcome == Raised(Unbound)
    ensures prior == Some(true) ==> HandleZipfile(members, reader, bucket, prefix, prior).outcome == Returned(OK)
    ensures prior == Some(false) ==> HandleZipfile(members, reader, bucket, prefix, prior).outcome == Returned(ERROR)
  {
    NoCsvMembers(members);
  }

  // ---------------------------------------------------------------------
  // The reader as written, and a reader that decodes first.

  /** csv.DictReader over the bytes `readlines()` returns (line 123):
      with no line the header is None; otherwise reading the header raises
      csv.Error, because the csv module accepts only strings. */
  function BytesDictReader(lines: seq<Line>): Result<CsvTable> {
    if lines == [] then Success(CsvTable(None, [], None)) else Failure(NotText)
  }

  /** As written, every item aborts: an empty one with the TypeError of
      `sorted(None)`, any other with csv.Error. Nothing is written, and
      in a fresh process the handler never returns a status. */
  lemma AsWrittenNeverReturns(members: seq<Member>, bucket: string, prefix: string)
    ensures HandleZipfile(members, BytesDictReader, bucket, prefix, None).outcome.Raised?
    ensures HandleZipfile(members, BytesDictReader, bucket, prefix, None).puts == []
  {
    var files := ExtractCsvFiles(members);
    if files == [] {
      assert HandleFiles(files, BytesDictReader, bucket, prefix, None) == Progress([], None, None);
    } else {
      var f := files[0];
      assert HandleFile(f, BytesDictReader, bucket, prefix).Failure? by {
        if f.content != [] {
          assert BytesDictReader(f.content) == Failure(NotText);
        } else {
          assert ProcessCsvFile(f.filename, CsvTable(None, [], None)) == Failure(NoHeader);
        }
      }
      assert HandleFiles(files[..0], BytesDictReader, bucket, prefix, None) == Progress([], None, None);
      AbortKeepsEarlierPuts(members, BytesDictReader, bucket, prefix, None, 0);
    }
  }

  /** A reader that first decodes each line to text and then parses the
      text lines, as opening the member in text mode would. */
  function DecodingReader(decode: Line -> string, parse: seq<string> -> CsvTable): Reader {
    lines => Success(parse(seq(|lines|, i requires 0 <= i < |lines| => decode(lines[i]))))
  }

  /** With a decoding reader, an archive whose items all have a header and
      rows that project and date cleanly reaches a status, and that status
      is the last item's reconciliation verdict. */
  lemma DecodedArchiveReturns(members: seq<Member>, decode: Line -> string, parse: seq<string> -> CsvTable,
                              bucket: string, prefix: string, prior: Option<bool>)
    requires ExtractCsvFiles(members) != []
    requires forall k :: 0 <= k < |ExtractCsvFiles(members)| ==>
               var f := ExtractCsvFiles(members)[k];
               ProcessCsvFile(f.filename, DecodingReader(decode, parse)(f.content).value).Success?
    ensures var files := ExtractCsvFiles(members);
            var last := files[|files| - 1];
            var rows := DecodingReader(decode, parse)(last.content).value.rows;
            HandleZipfile(members, DecodingReader(decode, parse), bucket, prefix, prior).outcome
            == Returned(if last.nrLines == |rows| then OK else ERROR)
  {
    StatusReflectsLastFile(members, DecodingReader(decode, parse), bucket, prefix, prior);
  }
}
