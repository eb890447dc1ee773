/** The CSV selection of `download_and_extract_zipfile`
    (batch/cleaning/src/clean_data.py:115-132), over an archive already
    listed as members; fetching and unzipping are outside the model. */
module Archive {
  import opened Base

  /** One line as `readlines()` on a zip member returns it: bytes. */
  type Line = seq<bv8>

  /** A zip member as `namelist()` lists it, with the lines it holds. */
  datatype Member = Member(name: string, lines: seq<Line>)

  /** An item of the list built at lines 124-128. */
  datatype CsvFile = CsvFile(filename: string, content: seq<Line>, nrLines: int)

  /** `re.search('.csv$', name)`, decided at the end of the name: any
      character but a newline, then `csv`, then either the end of the name
      or a newline that ends it (where `$` also matches). */
  predicate MatchesCsv(name: string) {
    || (|name| >= 4 && name[|name| - 3..] == "csv" && name[|name| - 4] != '\n')
    || (|name| >= 5 && name[|name| - 1] == '\n' && name[|name| - 4..|name| - 1] == "csv" && name[|name| - 5] != '\n')
  }

  /** The regular expression as a search: a match starting at `i`. */
  predicate MatchAt(name: string, i: int) {
    && 0 <= i && i + 4 <= |name|
    && name[i] != '\n'
    && name[i + 1..i + 4] == "csv"
    && (i + 4 == |name| || (i + 5 == |name| && name[i + 4] == '\n'))
  }

  /** The end-anchored test is the regular-expression search. */
  lemma MatchesCsvIsSearch(name: string)
    ensures MatchesCsv(name) <==> exists i :: MatchAt(name, i)
  {
    if MatchesCsv(name) {
      if |name| >= 4 && name[|name| - 3..] == "csv" && name[|name| - 4] != '\n' {
        assert MatchAt(name, |name| - 4);
      } else {
        assert MatchAt(name, |name| - 5);
      }
    }
  }

  /** The filter is looser than "ends in .csv" and is case-sensitive. */
  lemma MatchesCsvExamples()
    ensures MatchesCsv("On_Time_2015_3.csv")
    ensures MatchesCsv("foocsv") && MatchesCsv("report_csv")
    ensures MatchesCsv("data.csv\n")
    ensures !MatchesCsv("csv") && !MatchesCsv("data.CSV") && !MatchesCsv("readme.txt")
    ensures !MatchesCsv("\ncsv")
  {
  }

  /** The lines `open(name)` reads: those of the LAST member of that name,
      since ZipFile keeps one entry per name and later ones replace earlier. */
  function LastLines(members: seq<Member>, name: string): (lines: seq<Line>)
    requires exists i :: 0 <= i < |members| && members[i].name == name
    ensures exists i :: && 0 <= i < |members| && members[i].name == name && members[i].lines == lines
                        && forall j :: i < j < |members| ==> members[j].name != name
  {
    var last := members[|members| - 1];
    if last.name == name then last.lines
    else
      var init := members[..|members| - 1];
      var i :| 0 <= i < |members| && members[i].name == name;
      assert init[i].name == name;
      var lines := LastLines(init, name);
      var k :| && 0 <= k < |init| && init[k].name == name && init[k].lines == lines
               && forall j :: k < j < |init| ==> init[j].name != name;
      assert members[k] == init[k];
      lines
  }

  /** The names the filter keeps, in `namelist()` order. */
  function CsvNames(members: seq<Member>): seq<string> {
    if members == [] then []
    else
      var last := members[|members| - 1];
      CsvNames(members[..|members| - 1]) + (if MatchesCsv(last.name) then [last.name] else [])
  }

  /** The items for the first `n` names of the listing. */
  function CollectCsv(members: seq<Member>, n: nat): (files: seq<CsvFile>)
    requires n <= |members|
    ensures |files| == |CsvNames(members[..n])|
    ensures forall k :: 0 <= k < |files| ==> files[k].filename == CsvNames(members[..n])[k]
    ensures forall k :: 0 <= k < |files| ==>
              && MatchesCsv(files[k].filename)
              && (exists i :: 0 <= i < |members| && members[i].name == files[k].filename)
              && files[k].content == LastLines(members, files[k].filename)
              && files[k].nrLines == |files[k].content| - 1
  {
    if n == 0 then []
    else
      var m := members[n - 1];
      assert members[..n][..n - 1] == members[..n - 1];
      CollectCsv(members, n - 1) +
        (if MatchesCsv(m.name) then
           var lines := LastLines(members, m.name);
           [CsvFile(m.name, lines, |lines| - 1)]
         else [])
  }

  /** Lines 115-132: one item per member whose name matches, in listing
      order, with `nr_lines = len(lines) - 1`. */
  function ExtractCsvFiles(members: seq<Member>): (files: seq<CsvFile>)
    ensures |files| == |CsvNames(members)|
    ensures forall k :: 0 <= k < |files| ==> files[k].filename == CsvNames(members)[k]
    ensures forall k :: 0 <= k < |files| ==>
              && MatchesCsv(files[k].filename)
              && (exists i :: 0 <= i < |members| && members[i].name == files[k].filename)
              && files[k].content == LastLines(members, files[k].filename)
              && files[k].nrLines == |files[k].content| - 1
  {
    assert members[..|members|] == members;
    CollectCsv(members, |members|)
  }

  /** Every matching member is read, and no other. */
  lemma {:induction false} CsvNamesAreMatches(members: seq<Member>)
    ensures forall name :: name in CsvNames(members) <==>
              MatchesCsv(name) && exists i :: 0 <= i < |members| && members[i].name == name
  {
    if members != [] {
      var init := members[..|members| - 1];
      CsvNamesAreMatches(init);
      forall name
        ensures name in CsvNames(members) <==>
                MatchesCsv(name) && exists i :: 0 <= i < |members| && members[i].name == name
      {
        if exists i :: 0 <= i < |init| && init[i].name == name {
          var i :| 0 <= i < |init| && init[i].name == name;
          assert members[i] == init[i];
        }
        if exists i :: 0 <= i < |members| && members[i].name == name {
          var i :| 0 <= i < |members| && members[i].name == name;
          if i < |init| { assert init[i] == members[i]; }
        }
      }
    }
  }

  /** An archive with no matching member yields no items. */
  lemma {:induction false} NoCsvMembers(members: seq<Member>)
    requires forall i :: 0 <= i < |members| ==> !MatchesCsv(members[i].name)
    ensures CsvNames(members) == []
    ensures ExtractCsvFiles(members) == []
  {
    if members != [] {
      NoCsvMembers(members[..|members| - 1]);
    }
  }
}
