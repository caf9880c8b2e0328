/** Missing-value cleaning: df.replace("NA", pd.NA) and df.dropna(). */
module Cleaning {
  import opened Frames

  /** A cell that the replace step turns into a missing value, or one that already is. */
  predicate MissingOrNA(v: Value) {
    v == Missing || v == Str("NA")
  }

  function NAToMissing(v: Value): Value {
    if v == Str("NA") then Missing else v
  }

  /** df.replace("NA", pd.NA): every cell holding exactly the string "NA" becomes
      missing; nothing else changes. */
  function ReplaceNA(f: Frame): (g: Frame)
    ensures WellFormed(f) ==> WellFormed(g)
    ensures g.columns == f.columns && |g.rows| == |f.rows|
  {
    Frame(f.columns, seq(|f.rows|, i requires 0 <= i < |f.rows| =>
      Row(f.rows[i].index, seq(|f.rows[i].cells|, j requires 0 <= j < |f.rows[i].cells| =>
        NAToMissing(f.rows[i].cells[j])))))
  }

  /** After the replacement a cell is missing exactly when it was missing or "NA" before;
      every other cell, and every label, is unchanged. */
  lemma ReplaceNACells(f: Frame)
    ensures var g := ReplaceNA(f);
      forall i | 0 <= i < |f.rows| ::
        g.rows[i].index == f.rows[i].index && |g.rows[i].cells| == |f.rows[i].cells| &&
        forall j | 0 <= j < |f.rows[i].cells| ::
          (g.rows[i].cells[j] == Missing <==> MissingOrNA(f.rows[i].cells[j])) &&
          (g.rows[i].cells[j] != Missing ==> g.rows[i].cells[j] == f.rows[i].cells[j])
  {
  }

  /** A row with no missing value in any column. */
  predicate Complete(r: Row) {
    Missing !in r.cells
  }

  /** The rows dropna keeps: exactly the complete ones, in their original order. */
  function KeepComplete(rows: seq<Row>): (kept: seq<Row>)
    ensures forall r <- kept :: r in rows && Complete(r)
    ensures forall r <- rows :: Complete(r) ==> r in kept
    ensures |kept| <= |rows|
  {
    if rows == [] then []
    else (if Complete(rows[0]) then [rows[0]] else []) + KeepComplete(rows[1..])
  }

  /** df.dropna(): drop every row with a missing value; surviving rows keep their labels. */
  function DropNA(f: Frame): (g: Frame)
    ensures WellFormed(f) ==> WellFormed(g)
    ensures g.columns == f.columns
  {
    Frame(f.columns, KeepComplete(f.rows))
  }

  /** Dropping distributes over concatenation: the kept rows of a + b are the kept
      rows of a followed by the kept rows of b. With KeepCompleteSingle this fixes
      the relative order of the survivors. */
  lemma {:induction false} KeepCompleteAppend(a: seq<Row>, b: seq<Row>)
    ensures KeepComplete(a + b) == KeepComplete(a) + KeepComplete(b)
  {
    if a == [] {
      assert a + b == b;
    } else {
      assert (a + b)[1..] == a[1..] + b;
      KeepCompleteAppend(a[1..], b);
    }
  }

  /** One row is kept exactly when it is complete. */
  lemma KeepCompleteSingle(r: Row)
    ensures KeepComplete([r]) == if Complete(r) then [r] else []
  {
    assert [r][1..] == [];
  }

  /** Rows without missing values pass through unchanged. */
  lemma {:induction false} KeepCompleteAll(rows: seq<Row>)
    requires forall r <- rows :: Complete(r)
    ensures KeepComplete(rows) == rows
  {
    if rows != [] {
      KeepCompleteAll(rows[1..]);
    }
  }

  predicate IncreasingLabels(rows: seq<Row>) {
    forall i, j | 0 <= i < j < |rows| :: rows[i].index < rows[j].index
  }

  /** Surviving rows keep their relative order: labels that increased still increase. */
  lemma {:induction false} KeepCompleteOrder(rows: seq<Row>)
    requires IncreasingLabels(rows)
    ensures IncreasingLabels(KeepComplete(rows))
  {
    if rows != [] {
      KeepCompleteOrder(rows[1..]);
      var rest := KeepComplete(rows[1..]);
      forall r <- rest ensures rows[0].index < r.index {
        var k :| 1 <= k < |rows| && rows[k] == r;
      }
    }
  }

  /** The number of rows without a missing value. */
  function CountComplete(rows: seq<Row>): nat {
    if rows == [] then 0 else (if Complete(rows[0]) then 1 else 0) + CountComplete(rows[1..])
  }

  lemma {:induction false} KeepCompleteCount(rows: seq<Row>)
    ensures |KeepComplete(rows)| == CountComplete(rows)
  {
    if rows != [] {
      KeepCompleteCount(rows[1..]);
    }
  }

  /** Rows that survive dropna on a freshly read frame keep their labels, which are their
      positions in the file, so each surviving row can be found where it was read. */
  lemma DropNALabels(f: Frame)
    requires Renumbered(f.rows)
    ensures var kept := DropNA(f).rows;
      |kept| == CountComplete(f.rows) && IncreasingLabels(kept) &&
      forall i | 0 <= i < |kept| :: 0 <= kept[i].index < |f.rows| && f.rows[kept[i].index] == kept[i]
  {
    var kept := DropNA(f).rows;
    KeepCompleteCount(f.rows);
    KeepCompleteOrder(f.rows);
    forall i | 0 <= i < |kept|
      ensures 0 <= kept[i].index < |f.rows| && f.rows[kept[i].index] == kept[i]
    {
      assert kept[i] in kept;
      var k :| 0 <= k < |f.rows| && f.rows[k] == kept[i];
    }
  }

  /** After replace then dropna, a freshly read row survives exactly when none of its
      cells is missing or the string "NA"; no surviving cell is either. */
  lemma NARowsRemoved(f: Frame)
    requires Renumbered(f.rows)
    ensures forall r <- DropNA(ReplaceNA(f)).rows, v <- r.cells :: !MissingOrNA(v)
    ensures forall i | 0 <= i < |f.rows| ::
      f.rows[i] in DropNA(ReplaceNA(f)).rows <==> forall v <- f.rows[i].cells :: !MissingOrNA(v)
  {
    var g := ReplaceNA(f);
    var h := DropNA(g);
    ReplaceNACells(f);
    forall r <- h.rows, v <- r.cells ensures !MissingOrNA(v) {
      var i :| 0 <= i < |g.rows| && g.rows[i] == r;
      var j :| 0 <= j < |r.cells| && r.cells[j] == v;
    }
    forall i | 0 <= i < |f.rows|
      ensures f.rows[i] in h.rows <==> forall v <- f.rows[i].cells :: !MissingOrNA(v)
    {
      if f.rows[i] in h.rows {
        var k :| 0 <= k < |g.rows| && g.rows[k] == f.rows[i];
        assert k == i;
        forall v <- f.rows[i].cells ensures !MissingOrNA(v) {
          var j :| 0 <= j < |f.rows[i].cells| && f.rows[i].cells[j] == v;
          assert g.rows[i].cells[j] != Missing;
        }
      }
      if forall v <- f.rows[i].cells :: !MissingOrNA(v) {
        assert g.rows[i].cells == f.rows[i].cells;
        assert g.rows[i] == f.rows[i];
      }
    }
  }
}
