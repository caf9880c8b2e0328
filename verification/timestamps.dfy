/** Timestamp reconstruction: pd.to_datetime(df[['year', 'month', 'day', 'hour']])
    assigned to a new 'datetime' column, then the four part columns dropped. */
module Timestamps {
  import opened Frames

  const DateParts: seq<string> := ["year", "month", "day", "hour"]

  predicate IsLeapYear(y: int) {
    y % 4 == 0 && (y % 100 != 0 || y % 400 == 0)
  }

  function DaysInMonth(y: int, m: int): (n: int)
    requires 1 <= m <= 12
    ensures 28 <= n <= 31
    ensures n == 29 <==> m == 2 && IsLeapYear(y)
  {
    if m == 2 then (if IsLeapYear(y) then 29 else 28)
    else if m == 4 || m == 6 || m == 9 || m == 11 then 30
    else 31
  }

  /** A day of the proleptic Gregorian calendar. */
  predicate ValidDate(y: int, m: int, d: int) {
    1 <= m <= 12 && 1 <= d <= DaysInMonth(y, m)
  }

  predicate IsIntegral(v: Value) {
    v.Num? && v.x.Floor as real == v.x
  }

  /** A cell pd.to_numeric accepts: a number or a missing value. A string or a timestamp
      anywhere in a part column makes the conversion of the whole column raise. */
  predicate Coercible(v: Value) {
    v.Num? || v == Missing
  }

  /** The number pandas parses with the format %Y%m%d: year * 10000 + month * 100 + day. */
  function DateKey(y: int, m: int, d: int): int {
    y * 10000 + m * 100 + d
  }

  /** The year, month and day that the eight digits of a key spell. */
  function KeyYear(k: int): int { k / 10000 }
  function KeyMonth(k: int): int { k / 100 % 100 }
  function KeyDay(k: int): int { k % 100 }

  /** The key is eight digits spelling a calendar date. */
  predicate ValidKey(k: int) {
    10_000_000 <= k <= 99_999_999 && ValidDate(KeyYear(k), KeyMonth(k), KeyDay(k))
  }

  /** For an ordinary four-digit year, the key spells back the date it was built from. */
  lemma KeyOfDate(y: int, m: int, d: int)
    requires 1000 <= y <= 9999 && ValidDate(y, m, d)
    ensures ValidKey(DateKey(y, m, d))
    ensures KeyYear(DateKey(y, m, d)) == y && KeyMonth(DateKey(y, m, d)) == m && KeyDay(DateKey(y, m, d)) == d
  {
    var r := m * 100 + d;
    assert 0 <= r < 10000;
    var k := y * 10000 + r;
    assert k == DateKey(y, m, d);
    assert k / 10000 == y;
    assert k / 100 == y * 100 + m;
    assert (y * 100 + m) % 100 == m;
    assert k % 100 == d;
  }

  /** Days from 1970-01-01 to a date of the proleptic Gregorian calendar, counting in
      400-year eras that start on 1 March. */
  function DaysFromEpoch(y: int, m: int, d: int): int {
    var y' := if m <= 2 then y - 1 else y;
    var era := y' / 400;
    var yoe := y' - era * 400;
    var doy := (153 * (if m > 2 then m - 3 else m + 9) + 2) / 5 + d - 1;
    var doe := yoe * 365 + yoe / 4 - yoe / 100 + doy;
    era * 146097 + doe - 719468
  }

  /** The epoch is day 0; consecutive days of a month are consecutive numbers. */
  lemma DaysFromEpochSteps(y: int, m: int, d: int)
    requires ValidDate(y, m, d) && d < DaysInMonth(y, m)
    ensures DaysFromEpoch(1970, 1, 1) == 0 && DaysFromEpoch(2000, 3, 1) == 11017
    ensures DaysFromEpoch(y, m, d + 1) == DaysFromEpoch(y, m, d) + 1
  {
  }

  const NanosPerHour: int := 3_600_000_000_000
  const NanosPerDay: int := 24 * NanosPerHour
  /** 2^63 - 1. Timestamps and time deltas are int64 counts of nanoseconds, and -2^63
      stands for NaT, so both range over [-MaxNanos, MaxNanos]: timestamps from
      1677-09-21 00:12:43.145224193 to 2262-04-11 23:47:16.854775807. */
  const MaxNanos: int := 0x7FFF_FFFF_FFFF_FFFF

  predicate InNanos(x: real) {
    -(MaxNanos as real) <= x <= MaxNanos as real
  }

  /** Midnight of a date, in nanoseconds from the epoch. */
  function Midnight(y: int, m: int, d: int): int {
    DaysFromEpoch(y, m, d) * NanosPerDay
  }

  /** The date parses to a timestamp, the hours convert to a time delta, and their sum is
      again a timestamp. */
  predicate InTimestampRange(y: int, m: int, d: int, hours: real) {
    var midnight := Midnight(y, m, d) as real;
    var delta := hours * NanosPerHour as real;
    InNanos(midnight) && InNanos(delta) && InNanos(midnight + delta)
  }

  /** The four cells can be assembled: year, month and day are whole numbers whose key
      spells a calendar date, the hour is a number, and the result is a timestamp pandas
      can represent. */
  predicate ValidParts(y: Value, m: Value, d: Value, h: Value) {
    IsIntegral(y) && IsIntegral(m) && IsIntegral(d) && h.Num? &&
    var k := DateKey(y.x.Floor, m.x.Floor, d.x.Floor);
    ValidKey(k) && InTimestampRange(KeyYear(k), KeyMonth(k), KeyDay(k), h.x)
  }

  /** Year, month and day are whole numbers whose key spells a date, and midnight of that
      date is a timestamp: the parts that a row needs before its hour is looked at. */
  predicate ValidDay(y: Value, m: Value, d: Value) {
    IsIntegral(y) && IsIntegral(m) && IsIntegral(d) &&
    var k := DateKey(y.x.Floor, m.x.Floor, d.x.Floor);
    ValidKey(k) && InNanos(Midnight(KeyYear(k), KeyMonth(k), KeyDay(k)) as real)
  }

  /** t is the timestamp that exactly these four cells name: the date their key spells,
      plus the hour. */
  predicate NamedBy(t: DateTime, y: Value, m: Value, d: Value, h: Value) {
    IsIntegral(y) && IsIntegral(m) && IsIntegral(d) && h == Num(t.hours) &&
    var k := DateKey(y.x.Floor, m.x.Floor, d.x.Floor);
    ValidKey(k) && t.year == KeyYear(k) && t.month == KeyMonth(k) && t.day == KeyDay(k) &&
    InTimestampRange(t.year, t.month, t.day, t.hours)
  }

  /** pd.to_datetime on one row. A part that is neither a number nor missing makes the
      column conversion raise. A missing year, month or day gives NaT. Otherwise the key
      must spell a date whose midnight is a timestamp, else it raises; then a missing hour
      gives NaT, and an hour that leaves the timestamp range raises. */
  function Assemble(y: Value, m: Value, d: Value, h: Value): (r: Result<Value>)
    ensures r.Ok? ==> r.value == Missing || (r.value.Stamp? && NamedBy(r.value.t, y, m, d, h))
    ensures ValidParts(y, m, d, h) ==> r.Ok? && r.value.Stamp?
    ensures !(Coercible(y) && Coercible(m) && Coercible(d) && Coercible(h)) ==> r.Err?
    ensures (Coercible(y) && Coercible(m) && Coercible(d) && Coercible(h) &&
             (y == Missing || m == Missing || d == Missing)) ==> r == Ok(Missing)
    ensures y != Missing && m != Missing && d != Missing && h != Missing ==>
      (r.Ok? <==> ValidParts(y, m, d, h))
    ensures (y != Missing && m != Missing && d != Missing && h == Missing &&
             Coercible(y) && Coercible(m) && Coercible(d)) ==>
      (r.Ok? <==> ValidDay(y, m, d)) && (r.Ok? ==> r.value == Missing)
    ensures r.Err? ==> r.error == InvalidDateParts
  {
    if !(Coercible(y) && Coercible(m) && Coercible(d) && Coercible(h)) then Err(InvalidDateParts)
    else if y == Missing || m == Missing || d == Missing then Ok(Missing)
    else if !ValidDay(y, m, d) then Err(InvalidDateParts)
    else if h == Missing then Ok(Missing)
    else
      var k := DateKey(y.x.Floor, m.x.Floor, d.x.Floor);
      if !InTimestampRange(KeyYear(k), KeyMonth(k), KeyDay(k), h.x) then Err(InvalidDateParts)
      else Ok(Stamp(DateTime(KeyYear(k), KeyMonth(k), KeyDay(k), h.x)))
  }

  /** For a four-digit year naming a calendar date, the row assembles to exactly that date
      plus the hour when the result is a representable timestamp, and raises otherwise. */
  lemma AssembleDate(y: int, m: int, d: int, h: real)
    requires 1000 <= y <= 9999 && ValidDate(y, m, d)
    ensures var r := Assemble(Num(y as real), Num(m as real), Num(d as real), Num(h));
      (r.Ok? <==> InTimestampRange(y, m, d, h)) &&
      (r.Ok? ==> r.value == Stamp(DateTime(y, m, d, h)))
  {
    KeyOfDate(y, m, d);
  }

  /** The edges of the timestamp range: 1677-09-21 at midnight raises and 1677-09-22
      assembles; 2262-04-11 assembles with an hour of 23 but not of 24, when the sum
      overflows; 2262-04-12 raises, and so does 3000-01-01. */
  lemma TimestampRangeEdges()
    ensures !InTimestampRange(1677, 9, 21, 0.0) && InTimestampRange(1677, 9, 22, 0.0)
    ensures InTimestampRange(2262, 4, 11, 23.0) && !InTimestampRange(2262, 4, 11, 24.0)
    ensures !InTimestampRange(2262, 4, 12, 0.0) && !InTimestampRange(3000, 1, 1, 0.0)
  {
    assert DaysFromEpoch(1677, 9, 21) == -106752;
    assert DaysFromEpoch(2262, 4, 11) == 106751;
    assert DaysFromEpoch(3000, 1, 1) == 376200;
  }

  /** A row dated 3000-01-01 raises, as pandas cannot represent it. */
  lemma YearThreeThousandRaises()
    ensures Assemble(Num(3000.0), Num(1.0), Num(1.0), Num(0.0)) == Err(InvalidDateParts)
  {
    AssembleDate(3000, 1, 1, 0.0);
    TimestampRangeEdges();
  }

  /** All four date-part columns are present. */
  predicate HasDateParts(columns: seq<string>) {
    "year" in columns && "month" in columns && "day" in columns && "hour" in columns
  }

  /** The assembled value of row i, from that row's own four cells. */
  function RowStamp(f: Frame, i: nat): Result<Value>
    requires WellFormed(f) && HasDateParts(f.columns) && i < |f.rows|
  {
    Assemble(Get(f, i, "year"), Get(f, i, "month"), Get(f, i, "day"), Get(f, i, "hour"))
  }

  /** Assembles rows lo..hi-1; fails when one of them fails. */
  function AssembleRows(f: Frame, lo: nat, hi: nat): (r: Result<seq<Value>>)
    requires WellFormed(f) && HasDateParts(f.columns) && lo <= hi <= |f.rows|
    ensures r.Ok? <==> forall i | lo <= i < hi :: RowStamp(f, i).Ok?
    ensures r.Ok? ==> (|r.value| == hi - lo &&
      forall i | lo <= i < hi :: r.value[i - lo] == RowStamp(f, i).value)
    ensures r.Err? ==> r.error == InvalidDateParts
    decreases hi - lo
  {
    if lo == hi then Ok([])
    else match RowStamp(f, lo)
      case Err(e) => Err(e)
      case Ok(v) =>
        match AssembleRows(f, lo + 1, hi)
        case Err(e) => Err(e)
        case Ok(vs) => Ok([v] + vs)
  }

  /** pd.to_datetime(df[['year', 'month', 'day', 'hour']]): a KeyError naming the absent
      columns, else one value per row from that row's parts, else the row error. */
  function ToDatetime(f: Frame): (r: Result<seq<Value>>)
    requires WellFormed(f)
    ensures !HasDateParts(f.columns) ==> r == Err(MissingColumns(Without(DateParts, f.columns)))
    ensures HasDateParts(f.columns) ==> (r.Ok? <==> forall i | 0 <= i < |f.rows| :: RowStamp(f, i).Ok?)
    ensures r.Ok? ==> (HasDateParts(f.columns) && |r.value| == |f.rows| &&
      forall i | 0 <= i < |f.rows| :: r.value[i] == RowStamp(f, i).value)
  {
    if !HasDateParts(f.columns) then Err(MissingColumns(Without(DateParts, f.columns)))
    else AssembleRows(f, 0, |f.rows|)
  }

  /** df[name] = vals: overwrite the column in place when it exists, else append it. */
  function AssignColumn(f: Frame, name: string, vals: seq<Value>): (g: Frame)
    requires WellFormed(f) && |vals| == |f.rows|
    ensures WellFormed(g)
    ensures g.columns == if name in f.columns then f.columns else f.columns + [name]
    ensures |g.rows| == |f.rows|
    ensures forall i | 0 <= i < |f.rows| :: g.rows[i].index == f.rows[i].index
  {
    if name in f.columns then
      var k := IndexOf(f.columns, name);
      Frame(f.columns, seq(|f.rows|, i requires 0 <= i < |f.rows| =>
        Row(f.rows[i].index, f.rows[i].cells[k := vals[i]])))
    else
      Frame(f.columns + [name], seq(|f.rows|, i requires 0 <= i < |f.rows| =>
        Row(f.rows[i].index, f.rows[i].cells + [vals[i]])))
  }

  /** After df[name] = vals, row i holds vals[i] under name and its old cell under every
      other old column. */
  lemma AssignColumnGet(f: Frame, name: string, vals: seq<Value>, i: nat)
    requires WellFormed(f) && |vals| == |f.rows| && i < |f.rows|
    ensures var g := AssignColumn(f, name, vals);
      name in g.columns && Get(g, i, name) == vals[i] &&
      forall c | c in f.columns && c != name :: c in g.columns && Get(g, i, c) == Get(f, i, c)
  {
    var g := AssignColumn(f, name, vals);
    if name !in f.columns {
      forall c | c in f.columns ensures IndexOf(g.columns, c) == IndexOf(f.columns, c) {
        IndexOfDistinct(g.columns, IndexOf(f.columns, c));
      }
      IndexOfDistinct(g.columns, |f.columns|);
    }
  }

  /** The elements of xs at the positions ks. */
  function Pick<T>(xs: seq<T>, ks: seq<nat>): (ys: seq<T>)
    requires forall a | 0 <= a < |ks| :: ks[a] < |xs|
    ensures |ys| == |ks| && forall a | 0 <= a < |ks| :: ys[a] == xs[ks[a]]
  {
    seq(|ks|, a requires 0 <= a < |ks| => xs[ks[a]])
  }

  /** Positions j < n whose column is not dropped, in increasing order. */
  function KeptPositions(columns: seq<string>, drop: seq<string>, n: nat): (ks: seq<nat>)
    requires n <= |columns|
    ensures forall a | 0 <= a < |ks| :: ks[a] < n && columns[ks[a]] !in drop
    ensures forall a, b | 0 <= a < b < |ks| :: ks[a] < ks[b]
    ensures forall j | 0 <= j < n && columns[j] !in drop :: j in ks
  {
    if n == 0 then []
    else
      var ks := KeptPositions(columns, drop, n - 1);
      if columns[n - 1] in drop then ks else ks + [n - 1]
  }

  /** The names at the kept positions are the names Without keeps. */
  lemma {:induction false} PickKept(columns: seq<string>, drop: seq<string>, n: nat)
    requires n <= |columns|
    ensures Pick(columns, KeptPositions(columns, drop, n)) == Without(columns[..n], drop)
  {
    if n > 0 {
      PickKept(columns, drop, n - 1);
      WithoutPrefix(columns, drop, n);
      if columns[n - 1] !in drop {
        PickSnoc(columns, KeptPositions(columns, drop, n - 1), n - 1);
      }
    }
  }

  lemma WithoutPrefix(columns: seq<string>, drop: seq<string>, n: nat)
    requires 0 < n <= |columns|
    ensures Without(columns[..n], drop) ==
      if columns[n - 1] in drop then Without(columns[..n - 1], drop)
      else Without(columns[..n - 1], drop) + [columns[n - 1]]
  {
    var prefix := columns[..n];
    assert prefix[..n - 1] == columns[..n - 1];
  }

  lemma PickSnoc<T>(xs: seq<T>, ks: seq<nat>, k: nat)
    requires forall a | 0 <= a < |ks| :: ks[a] < |xs|
    requires k < |xs|
    ensures Pick(xs, ks + [k]) == Pick(xs, ks) + [xs[k]]
  {
    assert Pick(xs, ks + [k])[|ks|] == xs[k];
  }

  function PickRows(rows: seq<Row>, ks: seq<nat>, width: nat): (out: seq<Row>)
    requires forall r <- rows :: |r.cells| == width
    requires forall a | 0 <= a < |ks| :: ks[a] < width
    ensures |out| == |rows|
    ensures forall i | 0 <= i < |rows| :: out[i] == Row(rows[i].index, Pick(rows[i].cells, ks))
  {
    seq(|rows|, i requires 0 <= i < |rows| => Row(rows[i].index, Pick(rows[i].cells, ks)))
  }

  /** A kept column's cell is the cell at its old position. */
  lemma DropGet(f: Frame, ks: seq<nat>, g: Frame, i: nat, c: string)
    requires WellFormed(f) && WellFormed(g) && i < |f.rows| && c in g.columns
    requires forall a | 0 <= a < |ks| :: ks[a] < |f.columns|
    requires g.columns == Pick(f.columns, ks) && g.rows == PickRows(f.rows, ks, |f.columns|)
    ensures c in f.columns && Get(g, i, c) == Get(f, i, c)
  {
    var a := IndexOf(g.columns, c);
    IndexOfDistinct(f.columns, ks[a]);
  }

  /** df.drop(names, axis=1): the remaining columns keep their order and their values. */
  function DropColumns(f: Frame, drop: seq<string>): (g: Frame)
    requires WellFormed(f)
    ensures WellFormed(g)
    ensures g.columns == Without(f.columns, drop)
    ensures |g.rows| == |f.rows|
    ensures forall i | 0 <= i < |f.rows| :: g.rows[i].index == f.rows[i].index
  {
    var ks := KeptPositions(f.columns, drop, |f.columns|);
    PickKept(f.columns, drop, |f.columns|);
    assert f.columns[..|f.columns|] == f.columns;
    var g := Frame(Pick(f.columns, ks), PickRows(f.rows, ks, |f.columns|));
    assert Distinct(g.columns) by {
      forall a, b | 0 <= a < b < |ks| ensures g.columns[a] != g.columns[b] {
        assert ks[a] < ks[b];
      }
    }
    g
  }

  /** After df.drop, every remaining column of row i holds that row's old cell. */
  lemma DropColumnsGet(f: Frame, drop: seq<string>, i: nat)
    requires WellFormed(f) && i < |f.rows|
    ensures var g := DropColumns(f, drop);
      forall c | c in g.columns :: c in f.columns && Get(g, i, c) == Get(f, i, c)
  {
    var ks := KeptPositions(f.columns, drop, |f.columns|);
    var g := DropColumns(f, drop);
    forall c | c in g.columns ensures c in f.columns && Get(g, i, c) == Get(f, i, c) {
      DropGet(f, ks, g, i, c);
    }
  }

  /** The column list after reconstruction. */
  function TimestampColumns(columns: seq<string>): seq<string> {
    if "year" !in columns then columns
    else Without(if "datetime" in columns then columns else columns + ["datetime"], DateParts)
  }

  /** pipeline.py:43-45 — when a 'year' column exists, the per-row timestamps become the
      'datetime' column and the four part columns are dropped. */
  function ReconstructTimestamp(f: Frame): (r: Result<Frame>)
    requires WellFormed(f)
    ensures "year" !in f.columns ==> r == Ok(f)
    ensures r.Ok? ==> WellFormed(r.value) && r.value.columns == TimestampColumns(f.columns)
    ensures r.Ok? ==> (|r.value.rows| == |f.rows| &&
      forall i | 0 <= i < |f.rows| :: r.value.rows[i].index == f.rows[i].index)
  {
    if "year" !in f.columns then Ok(f)
    else match ToDatetime(f)
      case Err(e) => Err(e)
      case Ok(stamps) => Ok(DropColumns(AssignColumn(f, "datetime", stamps), DateParts))
  }

  /** With a 'year' column the new column list has 'datetime', none of the four parts,
      and every other old column. */
  lemma TimestampColumnsSpec(columns: seq<string>)
    requires "year" in columns
    ensures var out := TimestampColumns(columns);
      "datetime" in out && (forall p <- DateParts :: p !in out) &&
      (forall c :: c in out <==> c == "datetime" || (c in columns && c !in DateParts))
  {
    var wide := if "datetime" in columns then columns else columns + ["datetime"];
    var out := Without(wide, DateParts);
    forall c ensures c in out <==> c == "datetime" || (c in columns && c !in DateParts) {
      assert c in wide <==> c == "datetime" || c in columns;
    }
  }

  /** With a 'year' column, success means: a 'datetime' column and none of the four parts,
      every other column kept, and the same rows. */
  lemma ReconstructColumns(f: Frame)
    requires WellFormed(f) && "year" in f.columns && ReconstructTimestamp(f).Ok?
    ensures var g := ReconstructTimestamp(f).value;
      "datetime" in g.columns && (forall p <- DateParts :: p !in g.columns) &&
      (forall c :: c in g.columns <==> c == "datetime" || (c in f.columns && c !in DateParts)) &&
      HasDateParts(f.columns) && |g.rows| == |f.rows|
  {
    assert ToDatetime(f).Ok?;
    TimestampColumnsSpec(f.columns);
  }

  /** Each row's timestamp is assembled from that row's own year, month, day and hour,
      and every other kept cell is the row's old cell. */
  lemma ReconstructCells(f: Frame, i: nat)
    requires WellFormed(f) && "year" in f.columns && ReconstructTimestamp(f).Ok? && i < |f.rows|
    ensures var g := ReconstructTimestamp(f).value;
      HasDateParts(f.columns) && i < |g.rows| && "datetime" in g.columns &&
      Get(g, i, "datetime") == RowStamp(f, i).value &&
      forall c | c in g.columns && c != "datetime" :: c in f.columns && Get(g, i, c) == Get(f, i, c)
  {
    var stamps := ToDatetime(f).value;
    var a := AssignColumn(f, "datetime", stamps);
    var g := DropColumns(a, DateParts);
    assert g == ReconstructTimestamp(f).value;
    ReconstructColumns(f);
    AssignColumnGet(f, "datetime", stamps, i);
    DropColumnsGet(a, DateParts, i);
  }

  /** A row without missing values keeps none: each of its new cells is a timestamp
      or one of the row's old cells. */
  lemma ReconstructRowCells(f: Frame, i: nat)
    requires WellFormed(f) && ReconstructTimestamp(f).Ok? && i < |f.rows|
    requires Missing !in f.rows[i].cells
    ensures var g := ReconstructTimestamp(f).value;
      i < |g.rows| && forall v <- g.rows[i].cells :: v.Stamp? || v in f.rows[i].cells
  {
    if "year" in f.columns {
      var g := ReconstructTimestamp(f).value;
      ReconstructCells(f, i);
      forall v <- g.rows[i].cells ensures v.Stamp? || v in f.rows[i].cells {
        var j :| 0 <= j < |g.rows[i].cells| && g.rows[i].cells[j] == v;
        IndexOfDistinct(g.columns, j);
        var c := g.columns[j];
        if c == "datetime" {
          assert Get(f, i, "year") in f.rows[i].cells && Get(f, i, "month") in f.rows[i].cells;
          assert Get(f, i, "day") in f.rows[i].cells && Get(f, i, "hour") in f.rows[i].cells;
        } else {
          assert Get(f, i, c) in f.rows[i].cells;
        }
      }
    }
  }

  /** With a 'year' column, reconstruction fails exactly when one of month, day or hour
      is absent, or some row's parts cannot be assembled; nothing drops the bad row. */
  lemma ReconstructFails(f: Frame)
    requires WellFormed(f) && "year" in f.columns
    ensures ReconstructTimestamp(f).Err? <==>
      !HasDateParts(f.columns) || exists i | 0 <= i < |f.rows| :: RowStamp(f, i).Err?
    ensures !HasDateParts(f.columns) ==>
      ReconstructTimestamp(f) == Err(MissingColumns(Without(DateParts, f.columns)))
  {
  }
}
