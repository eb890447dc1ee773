/** `write_new_csvfiles` (batch/cleaning/src/clean_data.py:28-59): one
    object per day leaf, under a key derived from the date, and the
    running totals of lines and objects written. */
module Writer {
  import opened Base
  import opened Numbers
  import opened Fields
  import opened DateIndex

  /** An entry of `written_files`. */
  datatype ObjectRef = ObjectRef(bucketname: string, key: string)

  /** One `put_object` call; the body as rows of cells (CSV quoting is
      csv.DictWriter's and is not modelled). */
  datatype PutObject = PutObject(bucket: string, key: string, body: seq<seq<string>>, contentType: string)

  /** The dict returned at line 59, with the puts issued on the way. */
  datatype WriteResult = WriteResult(writtenLines: nat, writtenFiles: seq<ObjectRef>, puts: seq<PutObject>)

  /** Line 39: `<prefix>/<YYYY>/<MM>/<YYYY>_<MM>_<DD>.csv`. */
  function ObjectKey(prefix: string, d: Date): string {
    prefix + "/" + DirectoryPart(d)
  }

  /** Every key lies under `<prefix>/` and names a `.csv` object. */
  lemma ObjectKeyShape(prefix: string, d: Date)
    ensures var key := ObjectKey(prefix, d);
            && |key| > |prefix| + 4
            && key[..|prefix| + 1] == prefix + "/"
            && key[|key| - 4..] == ".csv"
  {
    var name := FileName(d);
    assert name[|name| - 4..] == ".csv";
    var dir := DirectoryPart(d);
    assert dir[|dir| - |name|..] == name;
  }

  function DirectoryPart(d: Date): string {
    Format(d.year, 4) + "/" + (Format(d.month, 2) + "/" + FileName(d))
  }

  function FileName(d: Date): string {
    Format(d.year, 4) + "_" + (Format(d.month, 2) + "_" + (Format(d.day, 2) + ".csv"))
  }

  /** For a year of at most four digits and a month and day of at most
      two, the key has the fixed length of its pattern. */
  lemma ObjectKeyFixedWidth(prefix: string, d: Date)
    requires 0 <= d.year < 10000 && 0 <= d.month < 100 && 0 <= d.day < 100
    ensures |ObjectKey(prefix, d)| == |prefix| + 23
  {
  }

  /** Partition correctness for the example of a record of 9 March 2015. */
  lemma ObjectKeyExample()
    ensures ObjectKey("out", Date(2015, 3, 9)) == "out/2015/03/2015_03_09.csv"
  {
    DirectoryExample();
  }

  lemma DirectoryExample()
    ensures DirectoryPart(Date(2015, 3, 9)) == "2015/03/2015_03_09.csv"
  {
    FormatYearExample();
    FormatPaddedExample(3);
    FileNameExample();
  }

  lemma FileNameExample()
    ensures FileName(Date(2015, 3, 9)) == "2015_03_09.csv"
  {
    FormatYearExample();
    FormatPaddedExample(3);
    FormatPaddedExample(9);
  }

  lemma FormatYearExample()
    ensures Format(2015, 4) == "2015"
  {
    assert Digits(2015) == "2015" by {
      assert Digits(2) == "2";
      assert Digits(20) == "20";
      assert Digits(201) == "201";
    }
    assert Zeros(0) == "";
  }

  lemma FormatPaddedExample(n: nat)
    requires n < 10
    ensures Format(n, 2) == "0" + [DigitChar(n)]
  {
    assert Digits(n) == [DigitChar(n)] && Zeros(1) == "0";
  }

  lemma {:induction false} SplitAtFirst(x1: string, r1: string, x2: string, r2: string, c: char)
    requires c !in x1 && c !in x2
    requires x1 + [c] + r1 == x2 + [c] + r2
    ensures x1 == x2 && r1 == r2
  {
    var s := x1 + [c] + r1;
    assert s[|x1|] == c && s[|x2|] == c;
    assert forall j :: 0 <= j < |x1| ==> s[j] == x1[j] != c;
    assert forall j :: 0 <= j < |x2| ==> s[j] == x2[j] != c;
    assert |x1| == |x2|;
    assert x1 == s[..|x1|] == x2;
    assert r1 == s[|x1| + 1..] == r2;
  }

  lemma FormatHasNoSeparator(n: int, width: nat)
    ensures '/' !in Format(n, width) && '_' !in Format(n, width)
  {
  }

  /** Distinct dates never share a key, for any integer components: the
      separators `/` and `_` never occur inside a formatted number. */
  lemma ObjectKeyInjective(prefix: string, d1: Date, d2: Date)
    requires ObjectKey(prefix, d1) == ObjectKey(prefix, d2)
    ensures d1 == d2
  {
    var k := ObjectKey(prefix, d1);
    assert DirectoryPart(d1) == k[|prefix| + 1..] == DirectoryPart(d2);
    FormatHasNoSeparator(d1.year, 4);
    FormatHasNoSeparator(d2.year, 4);
    FormatHasNoSeparator(d1.month, 2);
    FormatHasNoSeparator(d2.month, 2);
    SplitAtFirst(Format(d1.year, 4), Format(d1.month, 2) + "/" + FileName(d1),
                 Format(d2.year, 4), Format(d2.month, 2) + "/" + FileName(d2), '/');
    FormatInjective(d1.year, d2.year, 4);
    SplitAtFirst(Format(d1.month, 2), FileName(d1), Format(d2.month, 2), FileName(d2), '/');
    FormatInjective(d1.month, d2.month, 2);
    var t1 := Format(d1.day, 2) + ".csv";
    var t2 := Format(d2.day, 2) + ".csv";
    SplitAtFirst(Format(d1.year, 4), Format(d1.month, 2) + "_" + t1,
                 Format(d2.year, 4), Format(d2.month, 2) + "_" + t2, '_');
    SplitAtFirst(Format(d1.month, 2), t1, Format(d2.month, 2), t2, '_');
    assert Format(d1.day, 2) == t1[..|t1| - 4] == Format(d2.day, 2);
    FormatInjective(d1.day, d2.day, 2);
  }

  /** csv.DictWriter's row for `rec`: the value of each field name in
      turn, and the empty `restval` for a name the record lacks. */
  function DictRow(fieldnames: seq<string>, rec: Record): (row: seq<string>)
    ensures |row| == |fieldnames|
  {
    seq(|fieldnames|, i requires 0 <= i < |fieldnames| => Lookup(rec, fieldnames[i]).GetOr(""))
  }

  /** Lines 40-43: the header is the first record's keys, then
      `writerows` writes one row per record. */
  function DayObject(leaf: seq<Record>): (body: seq<seq<string>>)
    requires |leaf| > 0
    ensures |body| == |leaf| + 1
  {
    var header := Names(leaf[0]);
    [header] + seq(|leaf|, i requires 0 <= i < |leaf| => DictRow(header, leaf[i]))
  }

  /** A record written under its own keys comes out as its values. */
  lemma DictRowOwnNames(rec: Record)
    requires NoDup(Names(rec))
    ensures DictRow(Names(rec), rec) == Values(rec)
  {
    forall j | 0 <= j < |rec|
      ensures DictRow(Names(rec), rec)[j] == Values(rec)[j]
    {
      LookupAt(rec, j);
    }
  }

  /** For a leaf whose records all have the same distinct keys `fields`
      (for projected records, the selected fields) the object is `fields`
      in order, then each record's values, in leaf order. */
  lemma DayObjectShape(leaf: seq<Record>, fields: seq<string>)
    requires |leaf| > 0 && NoDup(fields)
    requires forall i :: 0 <= i < |leaf| ==> Names(leaf[i]) == fields
    ensures DayObject(leaf)[0] == fields
    ensures forall i :: 0 <= i < |leaf| ==> DayObject(leaf)[i + 1] == Values(leaf[i])
  {
    forall i | 0 <= i < |leaf|
      ensures DayObject(leaf)[i + 1] == Values(leaf[i])
    {
      DayObjectRow(leaf, i);
      DictRowOwnNames(leaf[i]);
    }
  }

  lemma DayObjectRow(leaf: seq<Record>, i: int)
    requires 0 <= i < |leaf|
    ensures DayObject(leaf)[i + 1] == DictRow(Names(leaf[0]), leaf[i])
  {
  }

  /** The writer's loop body over the dates `ds`, in that order. */
  function WriteLeaves(bucket: string, prefix: string, leaves: map<Date, seq<Record>>, ds: seq<Date>): (r: WriteResult)
    requires forall d :: d in ds ==> d in leaves && |leaves[d]| > 0
    ensures |r.writtenFiles| == |ds| && |r.puts| == |ds|
    ensures r.writtenLines == Lines(leaves, ds)
  {
    if ds == [] then WriteResult(0, [], [])
    else
      var d := ds[|ds| - 1];
      var r := WriteLeaves(bucket, prefix, leaves, ds[..|ds| - 1]);
      var key := ObjectKey(prefix, d);
      WriteResult(r.writtenLines + |leaves[d]|,
                  r.writtenFiles + [ObjectRef(bucket, key)],
                  r.puts + [PutObject(bucket, key, DayObject(leaves[d]), "text/csv")])
  }

  /** The `i`-th date visited gives the `i`-th entry of `written_files`
      and the `i`-th put, keyed by that date and holding its leaf. */
  lemma {:induction false} WriteLeavesPointwise(bucket: string, prefix: string, leaves: map<Date, seq<Record>>, ds: seq<Date>)
    requires forall d :: d in ds ==> d in leaves && |leaves[d]| > 0
    ensures var r := WriteLeaves(bucket, prefix, leaves, ds);
            forall i :: 0 <= i < |ds| ==>
              && r.writtenFiles[i] == ObjectRef(bucket, ObjectKey(prefix, ds[i]))
              && r.puts[i] == PutObject(bucket, ObjectKey(prefix, ds[i]), DayObject(leaves[ds[i]]), "text/csv")
  {
    if ds != [] {
      var front := ds[..|ds| - 1];
      WriteLeavesPointwise(bucket, prefix, leaves, front);
      var r := WriteLeaves(bucket, prefix, leaves, ds);
      var p := WriteLeaves(bucket, prefix, leaves, front);
      var d := ds[|ds| - 1];
      assert r.writtenFiles == p.writtenFiles + [ObjectRef(bucket, ObjectKey(prefix, d))];
      assert r.puts == p.puts + [PutObject(bucket, ObjectKey(prefix, d), DayObject(leaves[d]), "text/csv")];
      forall i | 0 <= i < |ds| - 1
        ensures r.writtenFiles[i] == ObjectRef(bucket, ObjectKey(prefix, ds[i]))
        ensures r.puts[i] == PutObject(bucket, ObjectKey(prefix, ds[i]), DayObject(leaves[ds[i]]), "text/csv")
      {
        assert r.writtenFiles[i] == p.writtenFiles[i] && r.puts[i] == p.puts[i];
        assert front[i] == ds[i];
      }
    }
  }

  /** `write_new_csvfiles`: the leaves in the nested loops' order. */
  function WriteNewCsvFiles(bucket: string, prefix: string, ix: Index): (r: WriteResult)
    requires Valid(ix)
    ensures |r.writtenFiles| == |ix.order| && |r.puts| == |ix.order|
    ensures forall i :: 0 <= i < |ix.order| ==>
              && r.writtenFiles[i] == ObjectRef(bucket, ObjectKey(prefix, IterationOrder(ix.order)[i]))
              && r.puts[i] == PutObject(bucket, r.writtenFiles[i].key,
                                        DayObject(ix.leaves[IterationOrder(ix.order)[i]]), "text/csv")
  {
    WriteLeavesPointwise(bucket, prefix, ix.leaves, IterationOrder(ix.order));
    WriteLeaves(bucket, prefix, ix.leaves, IterationOrder(ix.order))
  }

  /** Line accounting: `written_lines` is the number of records in the
      index, however the nested loops order the leaves. */
  lemma WrittenLinesCountRecords(bucket: string, prefix: string, ix: Index)
    requires Valid(ix)
    ensures WriteNewCsvFiles(bucket, prefix, ix).writtenLines == Size(ix)
  {
    IterationOrderPreserves(ix.leaves, ix.order);
  }

  /** File accounting: exactly one `{bucketname, key}` entry per leaf. */
  lemma OneObjectPerLeaf(bucket: string, prefix: string, ix: Index)
    requires Valid(ix)
    ensures var files := WriteNewCsvFiles(bucket, prefix, ix).writtenFiles;
            forall d :: d in ix.leaves <==> ObjectRef(bucket, ObjectKey(prefix, d)) in files
  {
    var ds := IterationOrder(ix.order);
    var files := WriteNewCsvFiles(bucket, prefix, ix).writtenFiles;
    forall d
      ensures d in ix.leaves <==> ObjectRef(bucket, ObjectKey(prefix, d)) in files
    {
      if ObjectRef(bucket, ObjectKey(prefix, d)) in files {
        var i :| 0 <= i < |files| && files[i] == ObjectRef(bucket, ObjectKey(prefix, d));
        ObjectKeyInjective(prefix, d, ds[i]);
        assert ds[i] in ds;
      }
      if d in ix.leaves {
        assert d in ds;
        var i :| 0 <= i < |ds| && ds[i] == d;
        assert files[i] == ObjectRef(bucket, ObjectKey(prefix, d));
      }
    }
  }

  /** No key is written twice within one call. */
  lemma WrittenKeysDistinct(bucket: string, prefix: string, ix: Index)
    requires Valid(ix)
    ensures NoDup(WriteNewCsvFiles(bucket, prefix, ix).writtenFiles)
  {
    var ds := IterationOrder(ix.order);
    var files := WriteNewCsvFiles(bucket, prefix, ix).writtenFiles;
    IterationOrderPreserves(ix.leaves, ix.order);
    forall i, j | 0 <= i < j < |files|
      ensures files[i] != files[j]
    {
      if files[i] == files[j] {
        ObjectKeyInjective(prefix, ds[i], ds[j]);
      }
    }
  }
}
