/** combine_and_process_csv_files: clean each file in turn and append its rows to one table. */
module Combine {
  import opened Frames
  import opened Cleaning
  import opened Timestamps

  /** All readable files among the paths share one header (the model's stand-in for
      pd.concat's column alignment, which it does not model). */
  predicate SameHeader(paths: seq<string>, disk: Disk) {
    forall p, q | p in paths && q in paths && p in disk && q in disk :: disk[p].header == disk[q].header
  }

  /** One pass of the loop body (pipeline.py:40-45): read the file, turn "NA" into a missing
      value, drop incomplete rows, then rebuild the timestamp if there is a 'year' column. */
  function Process(path: string, disk: Disk): (r: Result<Frame>)
    requires WellFormedDisk(disk)
    ensures path !in disk ==> r == Err(ReadFailed(path))
    ensures r.Ok? ==> (path in disk && WellFormed(r.value) &&
      r.value.columns == TimestampColumns(disk[path].header))
  {
    if path !in disk then Err(ReadFailed(path))
    else ReconstructTimestamp(DropNA(ReplaceNA(ReadCsv(disk[path]))))
  }

  /** Process, step by step, for a readable file whose cleaned frame is h. */
  lemma ProcessSteps(path: string, disk: Disk, h: Frame)
    requires WellFormedDisk(disk) && path in disk
    requires h == DropNA(ReplaceNA(ReadCsv(disk[path])))
    ensures WellFormed(h)
    ensures "year" !in h.columns ==> Process(path, disk) == Ok(h)
    ensures "year" in h.columns && ToDatetime(h).Err? ==> Process(path, disk) == Err(ToDatetime(h).error)
    ensures "year" in h.columns && ToDatetime(h).Ok? ==>
      Process(path, disk) == Ok(DropColumns(AssignColumn(h, "datetime", ToDatetime(h).value), DateParts))
  {
  }

  /** pd.concat([acc, df], ignore_index=True) for frames with the same columns, or with the
      initial pd.DataFrame(): the rows of acc then those of df, relabelled 0..n-1. */
  function Concat(acc: Frame, df: Frame): (r: Frame)
    requires acc.columns == df.columns || acc == EmptyFrame
    ensures r.columns == df.columns
    ensures Cells(r.rows) == Cells(acc.rows) + Cells(df.rows) && Renumbered(r.rows)
    ensures WellFormed(acc) && WellFormed(df) ==> WellFormed(r)
  {
    var r := Frame(df.columns, Labelled(Cells(acc.rows) + Cells(df.rows)));
    assert WellFormed(acc) && WellFormed(df) ==> forall k | 0 <= k < |r.rows| :: |r.rows[k].cells| == |r.columns| by {
      if WellFormed(acc) && WellFormed(df) {
        forall k | 0 <= k < |r.rows| ensures |r.rows[k].cells| == |r.columns| {
          if k < |acc.rows| {
            assert r.rows[k].cells == acc.rows[k].cells;
          } else {
            assert r.rows[k].cells == df.rows[k - |acc.rows|].cells;
          }
        }
      }
    }
    r
  }

  /** Per-file outcomes that can be stacked: the successful ones are well formed and
      all have the same columns. */
  predicate Aligned(outs: seq<Result<Frame>>) {
    (forall o <- outs :: o.Ok? ==> WellFormed(o.value)) &&
    forall a, b | 0 <= a < |outs| && 0 <= b < |outs| && outs[a].Ok? && outs[b].Ok? ::
      outs[a].value.columns == outs[b].value.columns
  }

  lemma AlignedPrefix(outs: seq<Result<Frame>>, n: nat)
    requires Aligned(outs) && n <= |outs|
    ensures Aligned(outs[..n])
  {
    assert forall o <- outs[..n] :: o in outs;
  }

  /** The loop of pipeline.py:38-47 over the outcomes of the files, in order: the first
      failure ends it with that error, otherwise each frame's rows are appended. */
  function Fold(outs: seq<Result<Frame>>): (r: Result<Frame>)
    requires Aligned(outs)
    ensures r.Ok? && outs == [] ==> r.value == EmptyFrame
    ensures r.Ok? && outs != [] ==>
      outs[0].Ok? && WellFormed(r.value) && r.value.columns == outs[0].value.columns
  {
    if outs == [] then Ok(EmptyFrame)
    else
      var init := outs[..|outs| - 1];
      AlignedPrefix(outs, |outs| - 1);
      match Fold(init)
      case Err(e) => Err(e)
      case Ok(acc) =>
        match outs[|outs| - 1]
        case Err(e) => Err(e)
        case Ok(df) =>
          assert init != [] ==> init[0] == outs[0];
          Ok(Concat(acc, df))
  }

  /** One more outcome that fails after a successful prefix: its error is the result. */
  lemma FoldSnocErr(outs: seq<Result<Frame>>, o: Result<Frame>)
    requires Aligned(outs + [o]) && o.Err?
    ensures Aligned(outs)
    ensures Fold(outs).Ok? ==> Fold(outs + [o]) == o
  {
    AlignedPrefix(outs + [o], |outs|);
    assert (outs + [o])[..|outs|] == outs;
  }

  /** One more outcome that succeeds after a successful prefix: its rows are appended. */
  lemma FoldSnocOk(outs: seq<Result<Frame>>, acc: Frame, df: Frame)
    requires Aligned(outs + [Ok(df)]) && Aligned(outs) && Fold(outs) == Ok(acc)
    ensures acc.columns == df.columns || acc == EmptyFrame
    ensures Fold(outs + [Ok(df)]) == Ok(Concat(acc, df))
  {
    var all := outs + [Ok(df)];
    AlignedPrefix(all, |outs|);
    assert all[..|outs|] == outs;
    assert outs != [] ==> all[0] == outs[0] && all[|outs|] == Ok(df);
  }

  /** Once a prefix has failed, the whole fold fails with the same error. */
  lemma {:induction false} FoldStopsAtError(outs: seq<Result<Frame>>, n: nat)
    requires Aligned(outs) && n <= |outs|
    requires Aligned(outs[..n]) && Fold(outs[..n]).Err?
    ensures Fold(outs) == Fold(outs[..n])
  {
    if n < |outs| {
      var init := outs[..|outs| - 1];
      assert init[..n] == outs[..n];
      AlignedPrefix(outs, |outs| - 1);
      FoldStopsAtError(init, n);
    } else {
      assert outs[..n] == outs;
    }
  }

  /** The fold fails exactly when some outcome is a failure, and then with the first one. */
  lemma {:induction false} FoldErrors(outs: seq<Result<Frame>>)
    requires Aligned(outs)
    ensures Fold(outs).Err? <==> exists k | 0 <= k < |outs| :: outs[k].Err?
    ensures Fold(outs).Err? ==>
      exists k | 0 <= k < |outs| :: outs[k] == Fold(outs) && forall j | 0 <= j < k :: outs[j].Ok?
  {
    if outs != [] {
      var init := outs[..|outs| - 1];
      AlignedPrefix(outs, |outs| - 1);
      FoldErrors(init);
      assert forall k | 0 <= k < |init| :: init[k] == outs[k];
    }
  }

  /** The cells of every frame, one after the other (all outcomes are successes). */
  function Stacked(outs: seq<Result<Frame>>): seq<seq<Value>>
    requires forall o <- outs :: o.Ok?
  {
    if outs == [] then []
    else Stacked(outs[..|outs| - 1]) + Cells(outs[|outs| - 1].value.rows)
  }

  /** The sum of the row counts of the frames. */
  function TotalRows(outs: seq<Result<Frame>>): nat
    requires forall o <- outs :: o.Ok?
  {
    if outs == [] then 0
    else TotalRows(outs[..|outs| - 1]) + |outs[|outs| - 1].value.rows|
  }

  /** On success every outcome was a success, the rows are each frame's rows grouped by
      frame in order, their count is the sum of the counts, and the index is 0..n-1. */
  lemma {:induction false} FoldRows(outs: seq<Result<Frame>>)
    requires Aligned(outs) && Fold(outs).Ok?
    ensures forall o <- outs :: o.Ok?
    ensures Cells(Fold(outs).value.rows) == Stacked(outs)
    ensures |Fold(outs).value.rows| == TotalRows(outs)
    ensures Renumbered(Fold(outs).value.rows)
  {
    if outs != [] {
      var init := outs[..|outs| - 1];
      AlignedPrefix(outs, |outs| - 1);
      FoldRows(init);
      assert forall o | o in outs :: o in init || o == outs[|outs| - 1];
      var c := Fold(outs).value;
      assert |Cells(c.rows)| == |c.rows|;
    }
  }

  /** No cell is missing or the string "NA". */
  predicate Clean(f: Frame) {
    forall r <- f.rows, v <- r.cells :: !MissingOrNA(v)
  }

  /** Stacking frames free of missing and "NA" cells gives such a frame. */
  lemma {:induction false} FoldClean(outs: seq<Result<Frame>>)
    requires Aligned(outs) && Fold(outs).Ok?
    requires forall o <- outs :: o.Ok? ==> Clean(o.value)
    ensures Clean(Fold(outs).value)
  {
    if outs != [] {
      var init := outs[..|outs| - 1];
      AlignedPrefix(outs, |outs| - 1);
      assert forall o | o in init :: o in outs;
      FoldClean(init);
      var acc := Fold(init).value;
      var df := outs[|outs| - 1].value;
      var c := Fold(outs).value;
      forall r <- c.rows, v <- r.cells ensures !MissingOrNA(v) {
        var i :| 0 <= i < |c.rows| && c.rows[i] == r;
        assert Cells(c.rows)[i] == r.cells;
        if i < |acc.rows| {
          assert Cells(acc.rows)[i] == r.cells && acc.rows[i] in acc.rows;
        } else {
          assert Cells(df.rows)[i - |acc.rows|] == r.cells && df.rows[i - |acc.rows|] in df.rows;
        }
      }
    }
  }

  /** The outcome of processing each path, in order. */
  function Outcomes(paths: seq<string>, disk: Disk): (outs: seq<Result<Frame>>)
    requires WellFormedDisk(disk)
  {
    seq(|paths|, i requires 0 <= i < |paths| => Process(paths[i], disk))
  }

  /** Files with one header process to frames with one set of columns. */
  lemma OutcomesAligned(paths: seq<string>, disk: Disk)
    requires WellFormedDisk(disk) && SameHeader(paths, disk)
    ensures Aligned(Outcomes(paths, disk))
  {
    var outs := Outcomes(paths, disk);
    forall a, b | 0 <= a < |outs| && 0 <= b < |outs| && outs[a].Ok? && outs[b].Ok?
      ensures outs[a].value.columns == outs[b].value.columns
    {
      assert paths[a] in paths && paths[b] in paths;
    }
  }

  /** combine_and_process_csv_files over a file list (pipeline.py:37-47). */
  function Combined(paths: seq<string>, disk: Disk): (r: Result<Frame>)
    requires WellFormedDisk(disk) && SameHeader(paths, disk)
    ensures r.Ok? && paths == [] ==> r.value == EmptyFrame
    ensures r.Ok? && paths != [] ==> (paths[0] in disk && WellFormed(r.value) &&
      r.value.columns == TimestampColumns(disk[paths[0]].header))
  {
    OutcomesAligned(paths, disk);
    Fold(Outcomes(paths, disk))
  }

  lemma PrefixSnoc<T>(s: seq<T>, i: nat)
    requires i < |s|
    ensures s[..i + 1] == s[..i] + [s[i]]
  {
  }

  /** combine_and_process_csv_files (pipeline.py:37-47). The per-file frame is updated in
      place in the source; here the local df is reassigned at each step. */
  method CombineAndProcessCsvFiles(files: seq<string>, disk: Disk) returns (r: Result<Frame>)
    requires WellFormedDisk(disk) && SameHeader(files, disk)
    ensures r == Combined(files, disk)
  {
    ghost var outs := Outcomes(files, disk);
    OutcomesAligned(files, disk);
    var combined := EmptyFrame;
    var i := 0;
    while i < |files|
      invariant 0 <= i <= |files|
      invariant Aligned(outs[..i]) && Fold(outs[..i]) == Ok(combined)
    {
      AlignedPrefix(outs, i + 1);
      PrefixSnoc(outs, i);
      if files[i] !in disk {
        FoldSnocErr(outs[..i], outs[i]);
        FoldStopsAtError(outs, i + 1);
        return Err(ReadFailed(files[i]));
      }
      var df := ReadCsv(disk[files[i]]);
      df := ReplaceNA(df);
      df := DropNA(df);
      ProcessSteps(files[i], disk, df);
      if "year" in df.columns {
        var stamps := ToDatetime(df);
        if stamps.Err? {
          FoldSnocErr(outs[..i], outs[i]);
          FoldStopsAtError(outs, i + 1);
          return Err(stamps.error);
        }
        df := AssignColumn(df, "datetime", stamps.value);
        df := DropColumns(df, DateParts);
      }
      FoldSnocOk(outs[..i], combined, df);
      combined := Concat(combined, df);
      i := i + 1;
    }
    assert outs[..i] == outs;
    r := Ok(combined);
  }

  /** The combination fails exactly when some file fails. */
  lemma CombinedFails(paths: seq<string>, disk: Disk)
    requires WellFormedDisk(disk) && SameHeader(paths, disk)
    ensures Combined(paths, disk).Err? <==> exists k | 0 <= k < |paths| :: Process(paths[k], disk).Err?
  {
    var outs := Outcomes(paths, disk);
    OutcomesAligned(paths, disk);
    FoldErrors(outs);
    if Combined(paths, disk).Err? {
      var k :| 0 <= k < |outs| && outs[k].Err?;
      assert Process(paths[k], disk).Err?;
    }
    if exists k | 0 <= k < |paths| :: Process(paths[k], disk).Err? {
      var k :| 0 <= k < |paths| && Process(paths[k], disk).Err?;
      assert outs[k].Err?;
    }
  }

  /** A failed combination carries the error of the first file that fails. */
  lemma CombinedFirstError(paths: seq<string>, disk: Disk)
    requires WellFormedDisk(disk) && SameHeader(paths, disk) && Combined(paths, disk).Err?
    ensures exists k | 0 <= k < |paths| :: (Process(paths[k], disk) == Combined(paths, disk) &&
      forall j | 0 <= j < k :: Process(paths[j], disk).Ok?)
  {
    var outs := Outcomes(paths, disk);
    OutcomesAligned(paths, disk);
    FoldErrors(outs);
    var k :| 0 <= k < |outs| && outs[k] == Fold(outs) && forall j | 0 <= j < k :: outs[j].Ok?;
    assert Process(paths[k], disk) == Combined(paths, disk);
    forall j | 0 <= j < k ensures Process(paths[j], disk).Ok? {
      assert outs[j].Ok?;
    }
  }

  /** On success every file was processed; the rows are each file's processed rows grouped
      by file in list order, their count is the sum of the per-file counts, and the index
      is renumbered 0..n-1. */
  lemma CombinedRows(paths: seq<string>, disk: Disk)
    requires WellFormedDisk(disk) && SameHeader(paths, disk) && Combined(paths, disk).Ok?
    ensures forall p <- paths :: Process(p, disk).Ok?
    ensures var c := Combined(paths, disk).value;
      Cells(c.rows) == Stacked(Outcomes(paths, disk)) &&
      |c.rows| == TotalRows(Outcomes(paths, disk)) && Renumbered(c.rows)
  {
    var outs := Outcomes(paths, disk);
    OutcomesAligned(paths, disk);
    FoldRows(outs);
    forall p <- paths ensures Process(p, disk).Ok? {
      var k :| 0 <= k < |paths| && paths[k] == p;
      assert outs[k] in outs;
    }
  }

  /** The rows one file contributes: its complete rows after the "NA" replacement. */
  lemma ProcessRowCount(path: string, disk: Disk)
    requires WellFormedDisk(disk) && Process(path, disk).Ok?
    ensures |Process(path, disk).value.rows| == CountComplete(ReplaceNA(ReadCsv(disk[path])).rows)
  {
    KeepCompleteCount(ReplaceNA(ReadCsv(disk[path])).rows);
  }

  /** Every cell of a processed file is neither missing nor the string "NA". */
  lemma ProcessClean(path: string, disk: Disk)
    requires WellFormedDisk(disk) && Process(path, disk).Ok?
    ensures Clean(Process(path, disk).value)
  {
    var f := ReadCsv(disk[path]);
    var h := DropNA(ReplaceNA(f));
    NARowsRemoved(f);
    var g := ReconstructTimestamp(h).value;
    assert Process(path, disk).value == g;
    forall r <- g.rows, v <- r.cells ensures !MissingOrNA(v) {
      var i :| 0 <= i < |g.rows| && g.rows[i] == r;
      assert h.rows[i] in h.rows;
      ReconstructRowCells(h, i);
    }
  }

  /** No combined row holds a missing value or the string "NA". */
  lemma CombinedClean(paths: seq<string>, disk: Disk)
    requires WellFormedDisk(disk) && SameHeader(paths, disk) && Combined(paths, disk).Ok?
    ensures Clean(Combined(paths, disk).value)
  {
    var outs := Outcomes(paths, disk);
    OutcomesAligned(paths, disk);
    forall o <- outs | o.Ok? ensures Clean(o.value) {
      var k :| 0 <= k < |outs| && outs[k] == o;
      ProcessClean(paths[k], disk);
    }
    FoldClean(outs);
  }

  /** The combined frame depends only on the listed files: two disks that agree on every
      listed path give the same result. */
  lemma CombinedReadsOnlyPaths(paths: seq<string>, d1: Disk, d2: Disk)
    requires WellFormedDisk(d1) && SameHeader(paths, d1)
    requires WellFormedDisk(d2) && SameHeader(paths, d2)
    requires forall p <- paths :: (p in d1 <==> p in d2) && (p in d1 ==> d1[p] == d2[p])
    ensures Combined(paths, d1) == Combined(paths, d2)
  {
    var o1 := Outcomes(paths, d1);
    var o2 := Outcomes(paths, d2);
    forall i | 0 <= i < |paths| ensures o1[i] == o2[i] {
      assert paths[i] in paths;
    }
    assert o1 == o2;
  }
}
