/**
  The CSV log `object_counts.csv`: `save_counts_to_csv` appends one row per
  class, writing the header only when the file did not exist, and
  `read_csv_data` returns the six most recent data rows, newest first.

  The file is modelled by whether it is present and by its rows; dates and CSV
  quoting are not modelled, so a start time is an opaque number.
 */
module CsvLog {
  type Timestamp = int

  /** A CSV row: the header `Buah,Hasil Panen,Start Time`, or (class, count, start time). */
  datatype Row = Header | Record(cls: string, count: nat, time: Timestamp)

  /** The rows the loop `for class_name, count in class_counts.items()` writes:
      one record per (class, count) pair, in order, all stamped with `time`. */
  function Records(entries: seq<(string, nat)>, time: Timestamp): seq<Row> {
    seq(|entries|, i requires 0 <= i < |entries| => Record(entries[i].0, entries[i].1, time))
  }

  /** The file's rows after an append. */
  function Appended(present: bool, rows: seq<Row>, entries: seq<(string, nat)>, time: Timestamp): seq<Row> {
    rows + (if present then [] else [Header]) + Records(entries, time)
  }

  /** No header after the first row. */
  predicate HeaderOnlyFirst(rows: seq<Row>) {
    forall i :: 0 < i < |rows| ==> rows[i] != Header
  }

  /** An append never rewrites earlier rows, starts a new file with the
      header, and never writes a second header into an existing one. */
  lemma AppendKeepsLog(present: bool, rows: seq<Row>, entries: seq<(string, nat)>, time: Timestamp)
    requires !present ==> rows == []
    requires HeaderOnlyFirst(rows)
    ensures rows <= Appended(present, rows, entries, time)
    ensures !present ==> Appended(present, rows, entries, time)[0] == Header
    ensures HeaderOnlyFirst(Appended(present, rows, entries, time))
    ensures |Appended(present, rows, entries, time)| == |rows| + |entries| + (if present then 0 else 1)
  {
    var r := Appended(present, rows, entries, time);
    var base := rows + (if present then [] else [Header]);
    forall i | 0 < i < |r|
      ensures r[i] != Header
    {
      if i >= |base| {
        assert r[i] == Records(entries, time)[i - |base|];
      } else {
        assert r[i] == base[i];
      }
    }
  }

  /** `csv.DictReader` takes the first row as the field names. */
  function DataRows(rows: seq<Row>): seq<Row> {
    if rows == [] then [] else rows[1..]
  }

  /** Python's `s[::-1]`. */
  function Reverse<T>(s: seq<T>): seq<T> {
    seq(|s|, i requires 0 <= i < |s| => s[|s| - 1 - i])
  }

  /** Python's `s[-n:]` for n >= 1 (`s[-0:]` would be all of `s`). */
  function LastN<T>(s: seq<T>, n: nat): (r: seq<T>)
    requires n >= 1
    ensures |r| == if |s| <= n then |s| else n
    ensures forall i {:trigger r[i]} :: 0 <= i < |r| ==> r[i] == s[|s| - |r| + i]
  {
    if |s| <= n then s else s[|s| - n..]
  }

  /** `read_csv_data`: nothing when the file is missing; otherwise the last
      min(6, n) of its n data rows, the most recent first. */
  function Recent(present: bool, rows: seq<Row>): (r: seq<Row>)
    ensures !present ==> r == []
    ensures present ==> |r| == if |DataRows(rows)| <= 6 then |DataRows(rows)| else 6
    ensures present ==> forall i {:trigger r[i]} :: 0 <= i < |r| ==> r[i] == DataRows(rows)[|DataRows(rows)| - 1 - i]
  {
    if present then Reverse(LastN(DataRows(rows), 6)) else []
  }

  /** The i-th row read is the i-th data row from the end, for i below 6 and
      below the number of data rows. */
  lemma RecentIndex(a: seq<Row>, i: nat)
    requires i < 6 && i < |DataRows(a)|
    ensures i < |Recent(true, a)| && Recent(true, a)[i] == DataRows(a)[|DataRows(a)| - 1 - i]
  {
  }

  /** The i-th row from the end of data rows that end with the given records. */
  lemma NewestOfSuffix(d: seq<Row>, before: seq<Row>, entries: seq<(string, nat)>, time: Timestamp, i: nat)
    requires d == before + Records(entries, time)
    requires i < |entries|
    ensures d[|d| - 1 - i] == Record(entries[|entries| - 1 - i].0, entries[|entries| - 1 - i].1, time)
  {
    var j := |entries| - 1 - i;
    assert d[|d| - 1 - i] == Records(entries, time)[j];
  }

  /** After an append, the data rows are the earlier ones followed by the new records. */
  lemma AppendedData(present: bool, rows: seq<Row>, entries: seq<(string, nat)>, time: Timestamp)
    requires !present ==> rows == []
    requires present ==> rows != []
    ensures DataRows(Appended(present, rows, entries, time)) == DataRows(rows) + Records(entries, time)
    ensures |DataRows(Appended(present, rows, entries, time))| == |DataRows(rows)| + |entries|
  {
    var recs := Records(entries, time);
    if present {
      assert Appended(present, rows, entries, time) == rows + recs;
      assert (rows + recs)[1..] == rows[1..] + recs;
    } else {
      assert Appended(present, rows, entries, time) == [Header] + recs;
    }
  }

  /** Reading right after an append shows the appended records first, the
      last one written at the top: the i-th row read, for i below 6 and below
      the number of entries, is the i-th entry from the end. (The file, when
      present, is not empty.) */
  lemma RecentAfterAppend(present: bool, rows: seq<Row>, entries: seq<(string, nat)>, time: Timestamp, i: nat)
    requires !present ==> rows == []
    requires present ==> rows != []
    requires i < 6 && i < |entries|
    ensures i < |Recent(true, Appended(present, rows, entries, time))|
    ensures Recent(true, Appended(present, rows, entries, time))[i]
         == Record(entries[|entries| - 1 - i].0, entries[|entries| - 1 - i].1, time)
  {
    var a := Appended(present, rows, entries, time);
    AppendedData(present, rows, entries, time);
    NewestOfSuffix(DataRows(a), DataRows(rows), entries, time, i);
    RecentIndex(a, i);
  }

  /** The file as the process sees it. */
  class Log {
    var present: bool
    var rows: seq<Row>

    ghost predicate Valid()
      reads this
    {
      !present ==> rows == []
    }

    constructor (present0: bool, rows0: seq<Row>)
      requires !present0 ==> rows0 == []
      ensures Valid() && present == present0 && rows == rows0
    {
      present, rows := present0, rows0;
    }

    /** `save_counts_to_csv` with the given items and start time. */
    method Append(entries: seq<(string, nat)>, time: Timestamp)
      requires Valid()
      modifies this
      ensures Valid() && present
      ensures rows == Appended(old(present), old(rows), entries, time)
    {
      var wasPresent := present;
      present := true;  // opening in mode 'a' creates the file
      if !wasPresent {
        rows := rows + [Header];
      }
      ghost var start := rows;
      for i := 0 to |entries|
        invariant present
        invariant rows == start + Records(entries[..i], time)
      {
        assert entries[..i + 1][..i] == entries[..i];
        rows := rows + [Record(entries[i].0, entries[i].1, time)];
      }
      assert entries[..|entries|] == entries;
    }
  }
}
