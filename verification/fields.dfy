/** Parsed input rows, projected records, and the fixed field list
    (`SELECTED_FIELDS`, batch/cleaning/src/clean_data.py:12-16). */
module Fields {
  import opened Base

  /** One data row as csv.DictReader yields it: header name to cell text. */
  type Row = map<string, string>

  /** One entry of a projected record. */
  datatype Field = Field(name: string, value: string)

  /** A projected record: an insertion-ordered dict, as a list of entries. */
  type Record = seq<Field>

  const SelectedFields: seq<string> := [
    "Year", "Month", "DayofMonth", "DayOfWeek", "FlightDate", "UniqueCarrier", "FlightNum", "Origin", "Dest",
    "CRSDepTime", "DepTime", "DepDelay", "DepDelayMinutes", "CRSArrTime", "ArrTime", "ArrDelay", "ArrDelayMinutes",
    "Cancelled"
  ]

  /** The keys of a record, in insertion order (`dict.keys()`). */
  function Names(rec: Record): (names: seq<string>)
    ensures |names| == |rec|
    ensures forall i :: 0 <= i < |rec| ==> names[i] == rec[i].name
  {
    if rec == [] then [] else [rec[0].name] + Names(rec[1..])
  }

  /** The values of a record, in insertion order (`dict.values()`). */
  function Values(rec: Record): (values: seq<string>)
    ensures |values| == |rec|
    ensures forall i :: 0 <= i < |rec| ==> values[i] == rec[i].value
  {
    if rec == [] then [] else [rec[0].value] + Values(rec[1..])
  }

  /** `rec.get(name)`: the value stored under `name`, if any. */
  function Lookup(rec: Record, name: string): (r: Option<string>)
    ensures r.Some? <==> name in Names(rec)
  {
    if rec == [] then None
    else if rec[0].name == name then Some(rec[0].value)
    else Lookup(rec[1..], name)
  }

  lemma {:induction false} LookupAt(rec: Record, i: int)
    requires 0 <= i < |rec| && NoDup(Names(rec))
    ensures Lookup(rec, rec[i].name) == Some(rec[i].value)
  {
    if i > 0 {
      assert Names(rec[1..]) == Names(rec)[1..];
      assert rec[0].name == Names(rec)[0] != Names(rec)[i] == rec[i].name;
      LookupAt(rec[1..], i - 1);
    }
  }

  /** The dict comprehension `{f: row[f] for f in fields}`: a KeyError
      for the first field, in `fields` order, that the row lacks. */
  function Project(row: Row, fields: seq<string>): (r: Result<Record>)
    ensures r.Success? <==> forall f :: f in fields ==> f in row
    ensures r.Success? ==> Names(r.value) == fields
    ensures r.Success? ==> forall i :: 0 <= i < |fields| ==> r.value[i].value == row[fields[i]]
    ensures r.Failure? ==> exists i :: 0 <= i < |fields| && fields[i] !in row
                                       && r.error == MissingField(fields[i])
                                       && forall j :: 0 <= j < i ==> fields[j] in row
  {
    if fields == [] then Success([])
    else if fields[0] !in row then Failure(MissingField(fields[0]))
    else
      match Project(row, fields[1..])
      case Failure(e) =>
        assert forall j :: 1 <= j < |fields| ==> fields[j] == fields[1..][j - 1];
        Failure(e)
      case Success(rest) =>
        var rec := [Field(fields[0], row[fields[0]])] + rest;
        assert rec[1..] == rest;
        Success(rec)
  }

  /** The KeyError names the first missing field in `fields` order. */
  lemma {:induction false} ProjectFirstMissing(row: Row, fields: seq<string>, f: int)
    requires 0 <= f < |fields| && fields[f] !in row
    requires forall g :: 0 <= g < f ==> fields[g] in row
    ensures Project(row, fields) == Failure(MissingField(fields[f]))
  {
    if f > 0 {
      assert fields[0] in row;
      assert forall g :: 0 <= g < f - 1 ==> fields[1..][g] == fields[g + 1];
      ProjectFirstMissing(row, fields[1..], f - 1);
    }
  }

  lemma SelectedFieldsDistinct()
    ensures |SelectedFields| == 18
    ensures NoDup(SelectedFields)
  {
  }

  /** A projected record answers every lookup of a selected field with
      the row's own text, so the writer's row is the record's values. */
  lemma ProjectedLookup(row: Row, rec: Record, i: int)
    requires Project(row, SelectedFields) == Success(rec)
    requires 0 <= i < |SelectedFields|
    ensures Lookup(rec, SelectedFields[i]) == Some(row[SelectedFields[i]])
  {
    SelectedFieldsDistinct();
    LookupAt(rec, i);
  }
}
