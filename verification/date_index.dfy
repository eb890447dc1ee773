/** The year -> month -> day index that `process_csvfile` builds
    (batch/cleaning/src/clean_data.py:68, 82-88), flattened to one map
    keyed by the whole date, plus the order in which dates first appeared. */
module DateIndex {
  import opened Base
  import opened Fields

  datatype Date = Date(year: int, month: int, day: int)

  /** A projected record together with the date parsed from its own row. */
  datatype Entry = Entry(date: Date, record: Record)

  /** `order` lists every date once, in the order its first record arrived;
      `leaves` holds the day lists. */
  datatype Index = Index(order: seq<Date>, leaves: map<Date, seq<Record>>)

  /** Every listed date has a leaf, every leaf is listed once, and no leaf
      is empty: the last is what `day_data[0]` in the writer relies on. */
  predicate Valid(ix: Index) {
    && NoDup(ix.order)
    && (forall d :: d in ix.leaves ==> d in ix.order)
    && (forall d :: d in ix.order ==> d in ix.leaves)
    && (forall d :: d in ix.leaves ==> |ix.leaves[d]| > 0)
  }

  const Empty: Index := Index([], map[])

  /** Lines 82-88: create the leaf on first sight of its date, then append. */
  function Insert(ix: Index, e: Entry): (r: Index)
    requires Valid(ix)
    ensures Valid(r)
    ensures r.leaves.Keys == ix.leaves.Keys + {e.date}
    ensures r.leaves[e.date] == (if e.date in ix.leaves then ix.leaves[e.date] else []) + [e.record]
    ensures forall d :: d in ix.leaves && d != e.date ==> r.leaves[d] == ix.leaves[d]
  {
    var d := e.date;
    if d in ix.leaves then
      Index(ix.order, ix.leaves[d := ix.leaves[d] + [e.record]])
    else
      var r := Index(ix.order + [d], ix.leaves[d := [e.record]]);
      assert NoDup(r.order) by { NoDupAppend(ix.order, [d]); }
      r
  }

  /** The index after appending every entry in turn. */
  function Bucket(entries: seq<Entry>): (ix: Index)
    ensures Valid(ix)
  {
    if entries == [] then Empty
    else Insert(Bucket(entries[..|entries| - 1]), entries[|entries| - 1])
  }

  // ---------------------------------------------------------------------
  // Reference definitions the index is measured against.

  /** The records of the entries dated `d`, in entry order. */
  function RecordsOn(entries: seq<Entry>, d: Date): seq<Record> {
    if entries == [] then []
    else
      var last := entries[|entries| - 1];
      RecordsOn(entries[..|entries| - 1], d) + (if last.date == d then [last.record] else [])
  }

  function Dates(entries: seq<Entry>): (ds: seq<Date>)
    ensures |ds| == |entries|
    ensures forall i :: 0 <= i < |entries| ==> ds[i] == entries[i].date
  {
    if entries == [] then [] else Dates(entries[..|entries| - 1]) + [entries[|entries| - 1].date]
  }

  /** Each date of `ds` once, at the place it first occurs. */
  function FirstSeen(ds: seq<Date>): seq<Date> {
    if ds == [] then []
    else
      var prefix := FirstSeen(ds[..|ds| - 1]);
      if ds[|ds| - 1] in ds[..|ds| - 1] then prefix else prefix + [ds[|ds| - 1]]
  }

  /** Total number of records held by the leaves of `ds`. */
  function Lines(leaves: map<Date, seq<Record>>, ds: seq<Date>): nat {
    if ds == [] then 0
    else
      var d := ds[|ds| - 1];
      Lines(leaves, ds[..|ds| - 1]) + (if d in leaves then |leaves[d]| else 0)
  }

  function Size(ix: Index): nat {
    Lines(ix.leaves, ix.order)
  }

  // ---------------------------------------------------------------------
  // Properties of the bucketing.

  lemma {:induction false} FirstSeenElements(ds: seq<Date>)
    ensures forall d :: d in FirstSeen(ds) <==> d in ds
  {
    if ds != [] {
      FirstSeenElements(ds[..|ds| - 1]);
      assert ds == ds[..|ds| - 1] + [ds[|ds| - 1]];
    }
  }

  /** A date has a leaf exactly when some entry carries it. */
  lemma {:induction false} BucketKeys(entries: seq<Entry>)
    ensures forall d :: d in Bucket(entries).leaves <==> exists i :: 0 <= i < |entries| && entries[i].date == d
  {
    if entries != [] {
      var init := entries[..|entries| - 1];
      BucketKeys(init);
      var ix := Bucket(init);
      forall d
        ensures d in Bucket(entries).leaves <==> exists i :: 0 <= i < |entries| && entries[i].date == d
      {
        if d in ix.leaves {
          var i :| 0 <= i < |init| && init[i].date == d;
          assert entries[i] == init[i];
        }
        if exists i :: 0 <= i < |entries| && entries[i].date == d {
          var i :| 0 <= i < |entries| && entries[i].date == d;
          if i < |init| { assert init[i] == entries[i]; }
        }
      }
    }
  }

  /** Each leaf holds exactly the records dated by it, in entry order. */
  lemma {:induction false} BucketLeaves(entries: seq<Entry>)
    ensures forall d :: d in Bucket(entries).leaves ==> Bucket(entries).leaves[d] == RecordsOn(entries, d)
  {
    if entries != [] {
      var init := entries[..|entries| - 1];
      BucketLeaves(init);
      BucketKeys(init);
      forall d | d !in Bucket(init).leaves
        ensures RecordsOn(init, d) == []
      {
        RecordsOnAbsent(init, d);
      }
    }
  }

  lemma {:induction false} RecordsOnAbsent(entries: seq<Entry>, d: Date)
    requires forall i :: 0 <= i < |entries| ==> entries[i].date != d
    ensures RecordsOn(entries, d) == []
  {
    if entries != [] {
      RecordsOnAbsent(entries[..|entries| - 1], d);
    }
  }

  /** Every record of `RecordsOn(entries, d)` is the record of an entry dated `d`. */
  lemma {:induction false} RecordsOnSource(entries: seq<Entry>, d: Date, k: int)
    requires 0 <= k < |RecordsOn(entries, d)|
    ensures exists i :: 0 <= i < |entries| && entries[i] == Entry(d, RecordsOn(entries, d)[k])
  {
    var n := |entries|;
    var init := entries[..n - 1];
    if k < |RecordsOn(init, d)| {
      RecordsOnSource(init, d, k);
      var i :| 0 <= i < n - 1 && init[i] == Entry(d, RecordsOn(init, d)[k]);
      assert entries[i] == init[i];
    } else {
      assert entries[n - 1] == Entry(d, RecordsOn(entries, d)[k]);
    }
  }

  /** The dates are listed in order of first appearance. */
  lemma {:induction false} BucketOrder(entries: seq<Entry>)
    ensures Bucket(entries).order == FirstSeen(Dates(entries))
  {
    if entries != [] {
      var init := entries[..|entries| - 1];
      var e := entries[|entries| - 1];
      BucketOrder(init);
      BucketKeys(init);
      var ds := Dates(entries);
      assert ds[..|ds| - 1] == Dates(init);
      FirstSeenElements(Dates(init));
      assert e.date in Dates(init) <==> e.date in Bucket(init).leaves by {
        if e.date in Dates(init) {
          var k :| 0 <= k < |Dates(init)| && Dates(init)[k] == e.date;
          assert init[k].date == e.date;
        }
      }
    }
  }

  /** Each record sits in the leaf of its own date, in the order the rows
      came, and the dates are listed in order of first appearance. */
  lemma BucketMatchesFilter(entries: seq<Entry>)
    ensures forall d :: d in Bucket(entries).leaves <==> exists i :: 0 <= i < |entries| && entries[i].date == d
    ensures forall d :: d in Bucket(entries).leaves ==> Bucket(entries).leaves[d] == RecordsOn(entries, d)
    ensures Bucket(entries).order == FirstSeen(Dates(entries))
  {
    BucketKeys(entries);
    BucketLeaves(entries);
    BucketOrder(entries);
  }

  lemma {:induction false} LinesUnaffected(leaves: map<Date, seq<Record>>, d: Date, v: seq<Record>, ds: seq<Date>)
    requires d !in ds
    ensures Lines(leaves[d := v], ds) == Lines(leaves, ds)
  {
    if ds != [] {
      LinesUnaffected(leaves, d, v, ds[..|ds| - 1]);
    }
  }

  lemma {:induction false} LinesUpdate(leaves: map<Date, seq<Record>>, d: Date, v: seq<Record>, ds: seq<Date>)
    requires NoDup(ds) && d in ds && d in leaves
    ensures Lines(leaves[d := v], ds) + |leaves[d]| == Lines(leaves, ds) + |v|
  {
    var init := ds[..|ds| - 1];
    if ds[|ds| - 1] == d {
      assert d !in init;
      LinesUnaffected(leaves, d, v, init);
    } else {
      assert d in init;
      LinesUpdate(leaves, d, v, init);
    }
  }

  /** Appending one entry adds exactly one record to the total. */
  lemma InsertSize(ix: Index, e: Entry)
    requires Valid(ix)
    ensures Size(Insert(ix, e)) == Size(ix) + 1
  {
    var d := e.date;
    if d in ix.leaves {
      LinesUpdate(ix.leaves, d, ix.leaves[d] + [e.record], ix.order);
    } else {
      var r := Insert(ix, e);
      assert r.order[..|r.order| - 1] == ix.order;
      LinesUnaffected(ix.leaves, d, [e.record], ix.order);
    }
  }

  /** Records are conserved: the leaves hold exactly as many records as
      there were entries. */
  lemma {:induction false} BucketSize(entries: seq<Entry>)
    ensures Size(Bucket(entries)) == |entries|
  {
    if entries != [] {
      BucketSize(entries[..|entries| - 1]);
      InsertSize(Bucket(entries[..|entries| - 1]), entries[|entries| - 1]);
    }
  }

  // ---------------------------------------------------------------------
  // The order in which the writer's three nested loops visit the leaves
  // (lines 36-38): years in order of first appearance, within a year its
  // months in order of first appearance, within a month its days.

  /** The dates satisfying `p` and the others, each in their original order. */
  function Partition(ds: seq<Date>, p: Date -> bool): (r: (seq<Date>, seq<Date>))
    ensures |r.0| + |r.1| == |ds|
    ensures forall d :: d in r.0 <==> d in ds && p(d)
    ensures forall d :: d in r.1 <==> d in ds && !p(d)
  {
    if ds == [] then ([], [])
    else
      var (a, b) := Partition(ds[..|ds| - 1], p);
      var d := ds[|ds| - 1];
      assert ds == ds[..|ds| - 1] + [d];
      if p(d) then (a + [d], b) else (a, b + [d])
  }

  function InYear(y: int): Date -> bool {
    (d: Date) => d.year == y
  }

  function InMonth(m: int): Date -> bool {
    (d: Date) => d.month == m
  }

  /** The leaves of one year, grouped by month. */
  function ByMonth(ds: seq<Date>): (r: seq<Date>)
    ensures |r| == |ds|
    ensures forall d :: d in r <==> d in ds
    decreases |ds|
  {
    if ds == [] then []
    else
      var m := ds[0].month;
      var (same, rest) := Partition(ds, InMonth(m));
      assert ds[0] in same;
      same + ByMonth(rest)
  }

  /** The leaves grouped by year, and within a year by month. */
  function IterationOrder(ds: seq<Date>): (r: seq<Date>)
    ensures |r| == |ds|
    ensures forall d :: d in r <==> d in ds
    decreases |ds|
  {
    if ds == [] then []
    else
      var y := ds[0].year;
      var (same, rest) := Partition(ds, InYear(y));
      assert ds[0] in same;
      ByMonth(same) + IterationOrder(rest)
  }

  lemma {:induction false} PartitionNoDup(ds: seq<Date>, p: Date -> bool)
    requires NoDup(ds)
    ensures NoDup(Partition(ds, p).0) && NoDup(Partition(ds, p).1)
  {
    if ds != [] {
      var init := ds[..|ds| - 1];
      PartitionNoDup(init, p);
      var d := ds[|ds| - 1];
      assert d !in init;
      NoDupAppend(Partition(init, p).0, [d]);
      NoDupAppend(Partition(init, p).1, [d]);
    }
  }

  lemma {:induction false} LinesAppend(leaves: map<Date, seq<Record>>, a: seq<Date>, b: seq<Date>)
    ensures Lines(leaves, a + b) == Lines(leaves, a) + Lines(leaves, b)
    decreases |b|
  {
    if b != [] {
      assert (a + b)[..|a + b| - 1] == a + b[..|b| - 1];
      LinesAppend(leaves, a, b[..|b| - 1]);
    } else {
      assert a + b == a;
    }
  }

  lemma {:induction false} PartitionLines(leaves: map<Date, seq<Record>>, ds: seq<Date>, p: Date -> bool)
    ensures Lines(leaves, Partition(ds, p).0) + Lines(leaves, Partition(ds, p).1) == Lines(leaves, ds)
  {
    if ds != [] {
      var init := ds[..|ds| - 1];
      var d := ds[|ds| - 1];
      PartitionLines(leaves, init, p);
      LinesAppend(leaves, Partition(init, p).0, [d]);
      LinesAppend(leaves, Partition(init, p).1, [d]);
    }
  }

  lemma {:induction false} ByMonthPreserves(leaves: map<Date, seq<Record>>, ds: seq<Date>)
    ensures NoDup(ds) ==> NoDup(ByMonth(ds))
    ensures Lines(leaves, ByMonth(ds)) == Lines(leaves, ds)
    decreases |ds|
  {
    if ds != [] {
      var m := ds[0].month;
      var p := InMonth(m);
      var (same, rest) := Partition(ds, p);
      assert ds[0] in same;
      ByMonthPreserves(leaves, rest);
      PartitionLines(leaves, ds, p);
      LinesAppend(leaves, same, ByMonth(rest));
      if NoDup(ds) {
        PartitionNoDup(ds, p);
        NoDupAppend(same, ByMonth(rest));
      }
    }
  }

  /** The nested traversal visits every leaf exactly once and so counts
      the same number of records as the first-appearance order. */
  lemma {:induction false} IterationOrderPreserves(leaves: map<Date, seq<Record>>, ds: seq<Date>)
    ensures NoDup(ds) ==> NoDup(IterationOrder(ds))
    ensures Lines(leaves, IterationOrder(ds)) == Lines(leaves, ds)
    decreases |ds|
  {
    if ds != [] {
      var y := ds[0].year;
      var p := InYear(y);
      var (same, rest) := Partition(ds, p);
      assert ds[0] in same;
      IterationOrderPreserves(leaves, rest);
      ByMonthPreserves(leaves, same);
      PartitionLines(leaves, ds, p);
      LinesAppend(leaves, ByMonth(same), IterationOrder(rest));
      if NoDup(ds) {
        PartitionNoDup(ds, p);
        NoDupAppend(ByMonth(same), IterationOrder(rest));
      }
    }
  }

  lemma {:induction false} PartitionAll(ds: seq<Date>, p: Date -> bool)
    requires forall i :: 0 <= i < |ds| ==> p(ds[i])
    ensures Partition(ds, p) == (ds, [])
  {
    if ds != [] {
      PartitionAll(ds[..|ds| - 1], p);
      assert ds[..|ds| - 1] + [ds[|ds| - 1]] == ds;
    }
  }

  /** When every leaf lies in one calendar month (one monthly extract),
      the nested traversal is plain first-appearance order. */
  lemma SingleMonthOrder(ds: seq<Date>)
    requires forall i :: 0 <= i < |ds| ==> ds[i].year == ds[0].year && ds[i].month == ds[0].month
    ensures IterationOrder(ds) == ds
  {
    if ds != [] {
      var y := ds[0].year;
      var m := ds[0].month;
      PartitionAll(ds, InYear(y));
      PartitionAll(ds, InMonth(m));
      assert IterationOrder([]) == [] && ByMonth([]) == [];
    }
  }

  /** No month is interrupted: between two dates of the same month only
      dates of that month occur. */
  predicate MonthsContiguous(ds: seq<Date>) {
    forall i, j, k :: 0 <= i < j < k < |ds| && ds[i].month == ds[k].month ==> ds[j].month == ds[i].month
  }

  /** No year is interrupted, and within a year no month is. */
  predicate Grouped(ds: seq<Date>) {
    forall i, j, k :: 0 <= i < j < k < |ds| && ds[i].year == ds[k].year ==>
      && ds[j].year == ds[i].year
      && (ds[i].month == ds[k].month ==> ds[j].month == ds[i].month)
  }

  lemma {:induction false} ByMonthContiguous(ds: seq<Date>)
    ensures MonthsContiguous(ByMonth(ds))
    decreases |ds|
  {
    if ds != [] {
      var m := ds[0].month;
      var (same, rest) := Partition(ds, InMonth(m));
      assert ds[0] in same;
      ByMonthContiguous(rest);
      var tail := ByMonth(rest);
      var r := ByMonth(ds);
      var a := |same|;
      assert r == same + tail;
      assert forall x :: 0 <= x < a ==> r[x].month == m by {
        forall x | 0 <= x < a ensures r[x].month == m {
          assert r[x] == same[x] && same[x] in same;
        }
      }
      assert forall x :: a <= x < |r| ==> r[x].month != m by {
        forall x | a <= x < |r| ensures r[x].month != m {
          assert r[x] == tail[x - a] && tail[x - a] in rest;
        }
      }
      forall i, j, k | 0 <= i < j < k < |r| && r[i].month == r[k].month
        ensures r[j].month == r[i].month
      {
        if a <= i {
          assert r[i] == tail[i - a] && r[j] == tail[j - a] && r[k] == tail[k - a];
        }
      }
    }
  }

  /** One year's dates, month by month, followed by grouped dates of
      other years, are grouped. */
  lemma GroupedAppend(head: seq<Date>, tail: seq<Date>, y: int)
    requires forall x :: 0 <= x < |head| ==> head[x].year == y
    requires forall x :: 0 <= x < |tail| ==> tail[x].year != y
    requires MonthsContiguous(head) && Grouped(tail)
    ensures Grouped(head + tail)
  {
    var r := head + tail;
    var a := |head|;
    forall i, j, k | 0 <= i < j < k < |r| && r[i].year == r[k].year
      ensures r[j].year == r[i].year
      ensures r[i].month == r[k].month ==> r[j].month == r[i].month
    {
      if k < a {
        assert r[i] == head[i] && r[j] == head[j] && r[k] == head[k];
      } else if a <= i {
        assert r[i] == tail[i - a] && r[j] == tail[j - a] && r[k] == tail[k - a];
      }
    }
  }

  /** The nested traversal keeps each year together, and each month
      together within its year: the order the writer's loops visit. */
  lemma {:induction false} IterationOrderGrouped(ds: seq<Date>)
    ensures Grouped(IterationOrder(ds))
    decreases |ds|
  {
    if ds != [] {
      var y := ds[0].year;
      var (same, rest) := Partition(ds, InYear(y));
      assert ds[0] in same;
      IterationOrderGrouped(rest);
      ByMonthContiguous(same);
      var head := ByMonth(same);
      var tail := IterationOrder(rest);
      assert forall x :: 0 <= x < |head| ==> head[x].year == y by {
        forall x | 0 <= x < |head| ensures head[x].year == y {
          assert head[x] in same;
        }
      }
      assert forall x :: 0 <= x < |tail| ==> tail[x].year != y by {
        forall x | 0 <= x < |tail| ensures tail[x].year != y {
          assert tail[x] in rest;
        }
      }
      GroupedAppend(head, tail, y);
    }
  }

  lemma PartitionSnoc(ds: seq<Date>, d: Date, p: Date -> bool)
    ensures Partition(ds + [d], p) == if p(d) then (Partition(ds, p).0 + [d], Partition(ds, p).1)
                                      else (Partition(ds, p).0, Partition(ds, p).1 + [d])
  {
    assert (ds + [d])[..|ds|] == ds;
  }

  /** The traversal can differ from first-appearance order: a year that
      reappears later is pulled forward to join its first occurrence. */
  lemma IterationOrderExample()
    ensures IterationOrder([Date(2015, 3, 1), Date(2016, 1, 1), Date(2015, 4, 1)])
            == [Date(2015, 3, 1), Date(2015, 4, 1), Date(2016, 1, 1)]
    ensures IterationOrder([Date(2015, 3, 1), Date(2016, 1, 1), Date(2015, 4, 1)])
            != [Date(2015, 3, 1), Date(2016, 1, 1), Date(2015, 4, 1)]
  {
    var a, b, c := Date(2015, 3, 1), Date(2016, 1, 1), Date(2015, 4, 1);
    ExampleYears();
    ExampleMonths();
    ExampleLastYear();
    assert ByMonth([a, c]) + IterationOrder([b]) == [a, c, b];
  }

  lemma ExampleYears()
    ensures Partition([Date(2015, 3, 1), Date(2016, 1, 1), Date(2015, 4, 1)], InYear(2015))
            == ([Date(2015, 3, 1), Date(2015, 4, 1)], [Date(2016, 1, 1)])
  {
    var a, b, c := Date(2015, 3, 1), Date(2016, 1, 1), Date(2015, 4, 1);
    assert InYear(2015)(a) && !InYear(2015)(b) && InYear(2015)(c);
    PartitionSnoc([], a, InYear(2015));
    assert [] + [a] == [a];
    assert Partition([a], InYear(2015)) == ([a], []);
    PartitionSnoc([a], b, InYear(2015));
    assert [a] + [b] == [a, b] && [] + [b] == [b];
    assert Partition([a, b], InYear(2015)) == ([a], [b]);
    PartitionSnoc([a, b], c, InYear(2015));
    assert [a, b] + [c] == [a, b, c] && [a] + [c] == [a, c];
  }

  lemma ExampleMonths()
    ensures ByMonth([Date(2015, 3, 1), Date(2015, 4, 1)]) == [Date(2015, 3, 1), Date(2015, 4, 1)]
  {
    var a, c := Date(2015, 3, 1), Date(2015, 4, 1);
    PartitionSnoc([], a, InMonth(3));
    PartitionSnoc([a], c, InMonth(3));
    assert [a] + [c] == [a, c] && [] + [c] == [c];
    PartitionSnoc([], c, InMonth(4));
  }

  lemma ExampleLastYear()
    ensures IterationOrder([Date(2016, 1, 1)]) == [Date(2016, 1, 1)]
  {
    var b := Date(2016, 1, 1);
    PartitionSnoc([], b, InYear(2016));
    PartitionSnoc([], b, InMonth(1));
  }
}
