/** Value model of the pandas data frames the transform stage works on. */
module Frames {

  datatype Option<+T> = None | Some(value: T)

  /** The exceptions that escape the transform stage. */
  datatype Error =
    | ReadFailed(path: string)            // pd.read_csv could not read the file
    | MissingColumns(names: seq<string>)  // selecting absent date-part columns (a KeyError)
    | InvalidDateParts                    // date parts pd.to_datetime cannot assemble

  datatype Result<+T> = Ok(value: T) | Err(error: Error)

  /** A reconstructed timestamp: a calendar date plus an offset in hours
      (pandas adds the hour column to the date as a time delta). */
  datatype DateTime = DateTime(year: int, month: int, day: int, hours: real)

  /** One cell: a number (an int64 or float64 value), a string, a missing
      value (NaN, pd.NA or NaT) or a timestamp. */
  datatype Value = Num(x: real) | Str(s: string) | Missing | Stamp(t: DateTime)

  /** A row together with its index label. */
  datatype Row = Row(index: int, cells: seq<Value>)

  datatype Frame = Frame(columns: seq<string>, rows: seq<Row>)

  /** A CSV file as pd.read_csv parses it: the header and one list of cells per record. */
  datatype CsvFile = CsvFile(header: seq<string>, records: seq<seq<Value>>)

  /** What pd.read_csv yields for each readable path. */
  type Disk = map<string, CsvFile>

  /** pd.DataFrame(): no columns, no rows. */
  const EmptyFrame := Frame([], [])

  predicate Distinct(names: seq<string>) {
    forall i, j | 0 <= i < j < |names| :: names[i] != names[j]
  }

  /** Column names are unique and every row has one cell per column. */
  predicate WellFormed(f: Frame) {
    Distinct(f.columns) && forall r <- f.rows :: |r.cells| == |f.columns|
  }

  predicate WellFormedCsv(c: CsvFile) {
    Distinct(c.header) && forall rec <- c.records :: |rec| == |c.header|
  }

  /** Every file on the disk parses to a well-formed table. */
  predicate WellFormedDisk(disk: Disk) {
    forall p | p in disk :: WellFormedCsv(disk[p])
  }

  /** The index is a fresh RangeIndex: labels 0, 1, ..., n-1. */
  predicate Renumbered(rows: seq<Row>) {
    forall i | 0 <= i < |rows| :: rows[i].index == i
  }

  /** DataFrame.empty: true when either axis has length zero. */
  predicate IsEmpty(f: Frame) {
    |f.rows| == 0 || |f.columns| == 0
  }

  /** The cells of each row, without the index labels. */
  function Cells(rows: seq<Row>): seq<seq<Value>> {
    seq(|rows|, i requires 0 <= i < |rows| => rows[i].cells)
  }

  /** Rows holding the given records, labelled 0..n-1. */
  function Labelled(records: seq<seq<Value>>): (rows: seq<Row>)
    ensures Cells(rows) == records && Renumbered(rows)
  {
    seq(|records|, i requires 0 <= i < |records| => Row(i, records[i]))
  }

  /** pd.read_csv on a readable file: the header and the records in file order, with a RangeIndex. */
  function ReadCsv(c: CsvFile): (f: Frame)
    ensures WellFormedCsv(c) ==> WellFormed(f)
    ensures f.columns == c.header && Cells(f.rows) == c.records && Renumbered(f.rows)
  {
    Frame(c.header, Labelled(c.records))
  }

  /** Position of a column name. */
  function IndexOf(names: seq<string>, n: string): (k: nat)
    requires n in names
    ensures k < |names| && names[k] == n
    ensures forall j | 0 <= j < k :: names[j] != n
  {
    if names[0] == n then 0 else 1 + IndexOf(names[1..], n)
  }

  lemma IndexOfDistinct(names: seq<string>, k: nat)
    requires Distinct(names) && k < |names|
    ensures IndexOf(names, names[k]) == k
  {
  }

  /** The cell of row i in the named column (df[name].iloc[i]). */
  function Get(f: Frame, i: nat, name: string): Value
    requires WellFormed(f) && i < |f.rows| && name in f.columns
  {
    f.rows[i].cells[IndexOf(f.columns, name)]
  }

  /** The names in xs that are not in drop, in their original order. */
  function Without(xs: seq<string>, drop: seq<string>): (ys: seq<string>)
    ensures forall y :: y in ys <==> y in xs && y !in drop
    ensures |ys| <= |xs|
  {
    if xs == [] then []
    else if xs[|xs| - 1] in drop then Without(xs[..|xs| - 1], drop)
    else Without(xs[..|xs| - 1], drop) + [xs[|xs| - 1]]
  }
}
