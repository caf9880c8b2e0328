/** main: the Beijing air-quality files are combined, normalised and stored, then the
    inorganic-gases file is downloaded, cleaned, normalised and stored. */
module Pipeline {
  import opened Frames
  import opened Cleaning
  import opened Combine
  import opened Normalize
  import opened Paths
  import opened Sqlite

  const DataDirectory: string := "../data"
  const BeijingFolder: string := "PRSA_Data_20130301-20170228"
  const GasesUrlFolder: string :=
    "https://jeodpp.jrc.ec.europa.eu/ftp/jrc-opendata/ABCIS/InorganicGases/Ver2017-01-01"
  const GasesFile: string := "InorganicGases_2017.csv"
  const GasesUrl: string := GasesUrlFolder + "/" + GasesFile
  /** Where download_csv saves the gases file: ../data/InorganicGases_2017.csv. */
  const GasesTarget: string := DataDirectory + "/" + GasesFile
  const BeijingDb: string := "BeijingAirQuality"
  const BeijingTable: string := "combined_data"
  const GasesDb: string := "InorganicGases"
  const GasesTable: string := "data_2017"

  /** process_inorganic_gases (pipeline.py:26-35): read the file, drop every row with a
      missing value, normalise. Any exception (here: a file that cannot be read) gives None.
      Unlike the combine step there is no "NA" replacement, and the surviving rows keep
      their original labels. */
  function InorganicGases(path: string, disk: Disk, std: seq<real> -> real): (r: Option<Frame>)
    requires WellFormedDisk(disk)
    ensures r.None? <==> path !in disk
    ensures r.Some? ==> WellFormed(r.value) && r.value.columns == disk[path].header
  {
    if path !in disk then None else Some(NormalizeData(DropNA(ReadCsv(disk[path])), std))
  }

  /** The same steps as the source takes them, each one replacing the local frame. */
  method ProcessInorganicGases(filePath: string, disk: Disk, std: seq<real> -> real)
    returns (r: Option<Frame>)
    requires WellFormedDisk(disk)
    ensures r == InorganicGases(filePath, disk, std)
  {
    if filePath !in disk {
      return None;
    }
    var df := ReadCsv(disk[filePath]);
    df := DropNA(df);
    df := NormalizeData(df, std);
    r := Some(df);
  }

  /** A readable file gives a frame with the file's header and one row per complete record,
      labelled with the record's position in the file and in file order; its non-numeric
      columns hold that record's cells unchanged. An unreadable one gives None. */
  lemma InorganicGasesShape(path: string, disk: Disk, std: seq<real> -> real)
    requires WellFormedDisk(disk)
    ensures InorganicGases(path, disk, std).None? <==> path !in disk
    ensures path in disk ==>
      var f := ReadCsv(disk[path]);
      var g := InorganicGases(path, disk, std).value;
      var kept := KeepComplete(f.rows);
      WellFormed(g) && g.columns == disk[path].header &&
      |g.rows| == CountComplete(f.rows) && IncreasingLabels(g.rows) &&
      (forall i | 0 <= i < |g.rows| :: g.rows[i].index == kept[i].index &&
         0 <= kept[i].index < |f.rows| && f.rows[kept[i].index] == kept[i]) &&
      (forall i, j | 0 <= i < |g.rows| && 0 <= j < |g.columns| && !NumericColumn(DropNA(f), j) ::
         g.rows[i].cells[j] == kept[i].cells[j])
  {
    if path in disk {
      var f := ReadCsv(disk[path]);
      var h := DropNA(f);
      DropNALabels(f);
      forall j | 0 <= j < |h.columns| && !NumericColumn(h, j)
        ensures forall i | 0 <= i < |h.rows| :: NormalizeData(h, std).rows[i].cells[j] == h.rows[i].cells[j]
      {
        NormalizeKeepsOthers(h, std, j);
      }
    }
  }

  /** What os.walk lists for a directory: every directory visited under it, in walk order. */
  type Walk = string -> seq<WalkEntry>

  /** The directory main walks for the Beijing files (pipeline.py:67). */
  function BeijingDirectory(): (p: string)
    ensures p == "../data/PRSA_Data_20130301-20170228"
  {
    Join(DataDirectory, BeijingFolder)
  }

  /** The Beijing paths main collects (pipeline.py:67-68): a path is listed exactly when it
      is a directory the walk visits joined with one of that directory's '.csv' names. */
  function BeijingFiles(walk: Walk): (paths: seq<string>)
    ensures forall p <- paths :: EndsWith(p, ".csv")
    ensures forall p :: p in paths <==>
      exists e <- walk(BeijingDirectory()), f <- e.files :: EndsWith(f, ".csv") && p == Join(e.root, f)
  {
    var entries := walk(BeijingDirectory());
    assert forall p :: p in CsvFiles(entries) <==>
      exists e <- entries, f <- e.files :: EndsWith(f, ".csv") && p == Join(e.root, f) by {
      forall p ensures p in CsvFiles(entries) <==>
        exists e <- entries, f <- e.files :: EndsWith(f, ".csv") && p == Join(e.root, f) {
        CsvFilesMember(entries, p);
      }
    }
    CsvFiles(entries)
  }

  /** What the run of main leaves behind: the exception that ended it, if any, the
      databases and the files on disk. */
  datatype Outcome = Outcome(error: Option<Error>, dbs: Databases, disk: Disk)

  /** What the Beijing half of main gets to store (pipeline.py:70-71): the normalised
      combined frame, or None when the combined frame is empty. */
  function BeijingFrame(beijing: Frame, std: seq<real> -> real): (r: Option<Frame>)
    requires WellFormed(beijing)
    ensures r.None? <==> IsEmpty(beijing)
    ensures r.Some? ==> r.value.columns == beijing.columns && |r.value.rows| == |beijing.rows|
  {
    if IsEmpty(beijing) then None else Some(NormalizeData(beijing, std))
  }

  /** The Beijing half of main (pipeline.py:66-72). An exception from the combine step
      ends main; an empty combined frame is neither normalised nor saved; otherwise the
      normalised frame replaces the table combined_data of BeijingAirQuality.db. */
  function BeijingStep(dbs: Databases, walk: Walk, disk: Disk, std: seq<real> -> real,
                       writeFails: bool): (r: Result<Databases>)
    requires WellFormedDisk(disk) && SameHeader(BeijingFiles(walk), disk)
    ensures r.Err? <==> Combined(BeijingFiles(walk), disk).Err?
    ensures r.Err? ==> r.error == Combined(BeijingFiles(walk), disk).error
    ensures (Combined(BeijingFiles(walk), disk).Ok? &&
             (writeFails || IsEmpty(Combined(BeijingFiles(walk), disk).value))) ==> r == Ok(dbs)
  {
    match Combined(BeijingFiles(walk), disk)
    case Err(e) => Err(e)
    case Ok(beijing) => Ok(Saved(dbs, BeijingFrame(beijing, std), BeijingDb, BeijingTable, DataDirectory, writeFails))
  }

  /** What the gases half of main gets to store (pipeline.py:75-79): the frame
      process_inorganic_gases makes of the downloaded file, or None when the download
      failed, when it returned no path, or when the file could not be processed. */
  function DownloadedGases(disk: Disk, response: Response, std: seq<real> -> real): (r: Option<Frame>)
    requires WellFormedDisk(disk) && WellFormedResponse(response)
    ensures r.Some? <==> response.Received? && response.parsed.Some?
    ensures r.Some? ==> WellFormed(r.value) && r.value.columns == response.parsed.value.header
  {
    var d := DownloadCsv(GasesUrl, DataDirectory, response, disk);
    GasesDownloadDisk(disk, response);
    if d.path.None? || d.path.value == "" then None
    else InorganicGases(d.path.value, d.disk, std)
  }

  /** The inorganic-gases half of main (pipeline.py:74-80). response is what the HTTP
      request returned. A frame from the downloaded file replaces the table data_2017 of
      InorganicGases.db; with no frame, main does not call save_to_sqlite, which would not
      have written anything either. */
  function GasesStep(dbs: Databases, disk: Disk, response: Response, std: seq<real> -> real,
                     writeFails: bool): (o: Outcome)
    requires WellFormedDisk(disk) && WellFormedResponse(response)
    ensures o.error == None && WellFormedDisk(o.disk)
    ensures o.disk == if response.Failed? then disk else Written(disk, GasesTarget, response.parsed)
    ensures response.Failed? || response.parsed.None? || writeFails ==> o.dbs == dbs
  {
    GasesDownloadDisk(disk, response);
    Outcome(None, Saved(dbs, DownloadedGases(disk, response, std), GasesDb, GasesTable, DataDirectory, writeFails),
            DownloadCsv(GasesUrl, DataDirectory, response, disk).disk)
  }

  /** main (pipeline.py:62-80): the Beijing step, then, unless it raised, the gases step. */
  function Main(dbs: Databases, walk: Walk, disk: Disk, response: Response,
                std: seq<real> -> real, beijingWriteFails: bool, gasesWriteFails: bool): (o: Outcome)
    requires WellFormedDisk(disk) && SameHeader(BeijingFiles(walk), disk)
    requires WellFormedResponse(response)
    ensures WellFormedDisk(o.disk)
    ensures o.disk == if o.error.Some? || response.Failed? then disk else Written(disk, GasesTarget, response.parsed)
  {
    match BeijingStep(dbs, walk, disk, std, beijingWriteFails)
    case Err(e) => Outcome(Some(e), dbs, disk)
    case Ok(afterBeijing) => GasesStep(afterBeijing, disk, response, std, gasesWriteFails)
  }

  /** The Beijing half of main (pipeline.py:66-72) run against the store. */
  method BeijingHalf(store: Store, walk: Walk, disk: Disk, std: seq<real> -> real, writeFails: bool)
    returns (error: Option<Error>)
    requires WellFormedDisk(disk) && SameHeader(BeijingFiles(walk), disk)
    modifies store
    ensures var b := BeijingStep(old(store.databases), walk, disk, std, writeFails);
      (b.Err? ==> error == Some(b.error) && store.databases == old(store.databases)) &&
      (b.Ok? ==> error == None && store.databases == b.value)
  {
    var beijingDataDirectory := Join(DataDirectory, BeijingFolder);
    var allBeijingCsvFiles := CsvFiles(walk(beijingDataDirectory));
    var beijingDf := CombineAndProcessCsvFiles(allBeijingCsvFiles, disk);
    if beijingDf.Err? {
      return Some(beijingDf.error);
    }
    if !IsEmpty(beijingDf.value) {
      var normalizedBeijingDf := NormalizeData(beijingDf.value, std);
      store.SaveToSqlite(Some(normalizedBeijingDf), BeijingDb, BeijingTable, DataDirectory, writeFails);
    }
    error := None;
  }

  /** The inorganic-gases half of main (pipeline.py:74-80) run against the store. */
  method GasesHalf(store: Store, disk: Disk, response: Response, std: seq<real> -> real,
                   writeFails: bool)
    returns (diskAfter: Disk)
    requires WellFormedDisk(disk) && WellFormedResponse(response)
    modifies store
    ensures var o := GasesStep(old(store.databases), disk, response, std, writeFails);
      store.databases == o.dbs && diskAfter == o.disk
  {
    var download := DownloadCsv(GasesUrl, DataDirectory, response, disk);
    GasesDownloadDisk(disk, response);
    diskAfter := download.disk;
    if download.path.Some? && download.path.value != "" {
      var inorganicGasesDf := ProcessInorganicGases(download.path.value, download.disk, std);
      assert inorganicGasesDf == DownloadedGases(disk, response, std);
      if inorganicGasesDf.Some? {
        store.SaveToSqlite(inorganicGasesDf, GasesDb, GasesTable, DataDirectory, writeFails);
      }
    }
  }

  /** main (pipeline.py:62-80) run against the store: the exception that ends it, if any,
      the databases and the files on disk are those Main describes. */
  method RunMain(store: Store, walk: Walk, disk: Disk, response: Response,
                 std: seq<real> -> real, beijingWriteFails: bool, gasesWriteFails: bool)
    returns (error: Option<Error>, diskAfter: Disk)
    requires WellFormedDisk(disk) && SameHeader(BeijingFiles(walk), disk)
    requires WellFormedResponse(response)
    modifies store
    ensures var o := Main(old(store.databases), walk, disk, response, std, beijingWriteFails, gasesWriteFails);
      error == o.error && store.databases == o.dbs && diskAfter == o.disk
  {
    error := BeijingHalf(store, walk, disk, std, beijingWriteFails);
    if error.Some? {
      return error, disk;
    }
    diskAfter := GasesHalf(store, disk, response, std, gasesWriteFails);
  }

  /** The two databases main writes are different files. */
  lemma DbPathsDiffer()
    ensures DbPath(DataDirectory, BeijingDb) == DataDirectory + "/" + BeijingDb + ".db"
    ensures DbPath(DataDirectory, GasesDb) == DataDirectory + "/" + GasesDb + ".db"
    ensures DbPath(DataDirectory, BeijingDb) != DbPath(DataDirectory, GasesDb)
  {
    assert (BeijingDb + ".db")[0] != '/' && (GasesDb + ".db")[0] != '/';
    assert |DbPath(DataDirectory, BeijingDb)| != |DbPath(DataDirectory, GasesDb)|;
  }

  /** The file the download writes is ../data/InorganicGases_2017.csv, the URL's last
      segment inside the data directory. */
  lemma GasesDownloadTarget(parsed: Option<CsvFile>, disk: Disk)
    ensures DownloadCsv(GasesUrl, DataDirectory, Received(parsed), disk).path == Some(GasesTarget)
  {
    var prefix := GasesUrlFolder + "/";
    assert LastSlashEnd(prefix) == |prefix|;
    assert '/' !in GasesFile;
    LastSlashAppend(prefix, GasesFile);
    assert GasesUrl == prefix + GasesFile;
    assert Basename(GasesUrl) == GasesUrl[|prefix|..] == GasesFile;
  }

  /** The only file the download can write is ../data/InorganicGases_2017.csv. */
  lemma GasesDownloadDisk(disk: Disk, response: Response)
    requires WellFormedDisk(disk) && WellFormedResponse(response)
    ensures var d := DownloadCsv(GasesUrl, DataDirectory, response, disk);
      WellFormedDisk(d.disk) &&
      d.path == (if response.Failed? then None else Some(GasesTarget)) &&
      d.disk == if response.Failed? then disk else Written(disk, GasesTarget, response.parsed)
  {
    if response.Received? {
      GasesDownloadTarget(response.parsed, disk);
    }
  }

  /** With no '.csv' file under the Beijing directory the combined frame is empty, so main
      neither normalises nor saves anything for it. */
  lemma NoBeijingFiles(dbs: Databases, walk: Walk, disk: Disk, std: seq<real> -> real, writeFails: bool)
    requires WellFormedDisk(disk)
    requires forall e <- walk(BeijingDirectory()), f <- e.files :: !EndsWith(f, ".csv")
    ensures BeijingFiles(walk) == []
    ensures BeijingStep(dbs, walk, disk, std, writeFails) == Ok(dbs)
  {
    CsvFilesNone(walk(BeijingDirectory()));
    CombinedFails([], disk);
  }

  /** When the combine step raises, main stops with that exception: nothing is saved and
      nothing is downloaded. It raises exactly when some listed Beijing file fails. */
  lemma BeijingFailureStops(dbs: Databases, walk: Walk, disk: Disk, response: Response,
                            std: seq<real> -> real, bw: bool, gw: bool)
    requires WellFormedDisk(disk) && SameHeader(BeijingFiles(walk), disk)
    requires WellFormedResponse(response)
    ensures var o := Main(dbs, walk, disk, response, std, bw, gw);
      (o.error.Some? <==> exists k | 0 <= k < |BeijingFiles(walk)| :: Process(BeijingFiles(walk)[k], disk).Err?) &&
      (o.error.Some? ==> o.dbs == dbs && o.disk == disk)
  {
    CombinedFails(BeijingFiles(walk), disk);
  }

  /** The gases step writes only InorganicGases.db: every other database file keeps its
      tables. */
  lemma GasesStepElsewhere(dbs: Databases, disk: Disk, response: Response,
                           std: seq<real> -> real, writeFails: bool, path: string)
    requires WellFormedDisk(disk) && WellFormedResponse(response)
    requires path != DbPath(DataDirectory, GasesDb) && path in dbs
    ensures var o := GasesStep(dbs, disk, response, std, writeFails);
      path in o.dbs && o.dbs[path] == dbs[path]
  {
    SavedElsewhere(dbs, DownloadedGases(disk, response, std), GasesDb, GasesTable, DataDirectory, writeFails, path);
  }

  /** When every Beijing file is processed and some rows survive, and the database write
      succeeds, BeijingAirQuality.db holds the normalised combined frame as combined_data
      when main ends, whatever the gases step does. */
  lemma BeijingSaved(dbs: Databases, walk: Walk, disk: Disk, response: Response,
                     std: seq<real> -> real, gw: bool)
    requires WellFormedDisk(disk) && SameHeader(BeijingFiles(walk), disk)
    requires WellFormedResponse(response)
    requires Combined(BeijingFiles(walk), disk).Ok? && !IsEmpty(Combined(BeijingFiles(walk), disk).value)
    ensures var o := Main(dbs, walk, disk, response, std, false, gw);
      var path := DbPath(DataDirectory, BeijingDb);
      o.error == None && path in o.dbs && BeijingTable in o.dbs[path] &&
      o.dbs[path][BeijingTable] == ToTable(NormalizeData(Combined(BeijingFiles(walk), disk).value, std))
  {
    DbPathsDiffer();
    var b := NormalizeData(Combined(BeijingFiles(walk), disk).value, std);
    var afterBeijing := Saved(dbs, Some(b), BeijingDb, BeijingTable, DataDirectory, false);
    assert BeijingStep(dbs, walk, disk, std, false) == Ok(afterBeijing);
    SavedTable(dbs, b, BeijingDb, BeijingTable, DataDirectory);
    GasesStepElsewhere(afterBeijing, disk, response, std, gw, DbPath(DataDirectory, BeijingDb));
  }

  /** When the download succeeds and the write succeeds, InorganicGases.db holds, as
      data_2017, the downloaded content with its incomplete rows dropped and then
      normalised; the file is at ../data/InorganicGases_2017.csv. */
  lemma GasesSaved(dbs: Databases, walk: Walk, disk: Disk, content: CsvFile,
                   std: seq<real> -> real, bw: bool)
    requires WellFormedDisk(disk) && SameHeader(BeijingFiles(walk), disk) && WellFormedCsv(content)
    requires Combined(BeijingFiles(walk), disk).Ok?
    ensures var o := Main(dbs, walk, disk, Received(Some(content)), std, bw, false);
      var path := DbPath(DataDirectory, GasesDb);
      var target := GasesTarget;
      o.error == None && path in o.dbs && GasesTable in o.dbs[path] &&
      o.dbs[path][GasesTable] == ToTable(NormalizeData(DropNA(ReadCsv(content)), std)) &&
      target in o.disk && o.disk[target] == content
  {
    var afterBeijing := BeijingStep(dbs, walk, disk, std, bw).value;
    GasesStepSaved(afterBeijing, disk, content, std);
  }

  /** A failed request, or a body pd.read_csv cannot parse, gives nothing to store (the
      exception inside process_inorganic_gases becomes None); a parsed body gives that
      content with its incomplete rows dropped and then normalised. */
  lemma DownloadedGasesContent(disk: Disk, response: Response, std: seq<real> -> real)
    requires WellFormedDisk(disk) && WellFormedResponse(response)
    ensures response.Failed? || response.parsed.None? ==> DownloadedGases(disk, response, std) == None
    ensures response.Received? && response.parsed.Some? ==>
      DownloadedGases(disk, response, std) == Some(NormalizeData(DropNA(ReadCsv(response.parsed.value)), std))
  {
    GasesDownloadDisk(disk, response);
    if response.Received? {
      var d := DownloadCsv(GasesUrl, DataDirectory, response, disk);
      assert d.path == Some(GasesTarget) && GasesTarget != "";
      assert DownloadedGases(disk, response, std) == InorganicGases(GasesTarget, d.disk, std);
      if response.parsed.Some? {
        assert GasesTarget in d.disk && d.disk[GasesTarget] == response.parsed.value;
      } else {
        assert GasesTarget !in d.disk;
      }
    }
  }

  /** The gases step on a successful download. */
  lemma GasesStepSaved(dbs: Databases, disk: Disk, content: CsvFile, std: seq<real> -> real)
    requires WellFormedDisk(disk) && WellFormedCsv(content)
    ensures var o := GasesStep(dbs, disk, Received(Some(content)), std, false);
      var path := DbPath(DataDirectory, GasesDb);
      var target := GasesTarget;
      o.error == None && path in o.dbs && GasesTable in o.dbs[path] &&
      o.dbs[path][GasesTable] == ToTable(NormalizeData(DropNA(ReadCsv(content)), std)) &&
      target in o.disk && o.disk[target] == content
  {
    DownloadedGasesContent(disk, Received(Some(content)), std);
    SavedTable(dbs, NormalizeData(DropNA(ReadCsv(content)), std), GasesDb, GasesTable, DataDirectory);
  }

  /** Running main a second time on the same inputs, with the same outcome of every write,
      leaves the databases and the files exactly as the first run did: both tables are
      replaced by the same frames, and the download overwrites its file with the same
      content. This needs the Beijing listing not to include the downloaded file. */
  lemma MainRerun(dbs: Databases, walk: Walk, disk: Disk, response: Response,
                  std: seq<real> -> real, bw: bool, gw: bool)
    requires WellFormedDisk(disk) && SameHeader(BeijingFiles(walk), disk)
    requires WellFormedResponse(response)
    requires GasesTarget !in BeijingFiles(walk)
    ensures var o := Main(dbs, walk, disk, response, std, bw, gw);
      SameHeader(BeijingFiles(walk), o.disk) && Main(o.dbs, walk, o.disk, response, std, bw, gw) == o
  {
    var files := BeijingFiles(walk);
    var o := Main(dbs, walk, disk, response, std, bw, gw);
    if BeijingStep(dbs, walk, disk, std, bw).Ok? {
      var b1 := BeijingStep(dbs, walk, disk, std, bw).value;
      assert o == GasesStep(b1, disk, response, std, gw);
      GasesDownloadDisk(disk, response);
      CombinedReadsOnlyPaths(files, disk, o.disk);
      GasesDownloadDisk(o.disk, response);
      if response.Received? {
        WrittenTwice(disk, GasesTarget, response.parsed);
      }
      var g := DownloadedGases(disk, response, std);
      DownloadedGasesContent(disk, response, std);
      DownloadedGasesContent(o.disk, response, std);
      assert DownloadedGases(o.disk, response, std) == g;
      var c := Combined(files, disk).value;
      var n := BeijingFrame(c, std);
      assert o.dbs == Saved(b1, g, GasesDb, GasesTable, DataDirectory, gw);
      assert BeijingStep(o.dbs, walk, o.disk, std, bw) ==
        Ok(Saved(o.dbs, n, BeijingDb, BeijingTable, DataDirectory, bw));
      RerunDatabases(dbs, n, g, bw, gw);
    }
  }

  /** Saving the Beijing frame and then the gases frame a second time gives back what the
      first pair of saves gave. */
  lemma RerunDatabases(dbs: Databases, n: Option<Frame>, g: Option<Frame>, bw: bool, gw: bool)
    ensures var b1 := Saved(dbs, n, BeijingDb, BeijingTable, DataDirectory, bw);
      var o := Saved(b1, g, GasesDb, GasesTable, DataDirectory, gw);
      Saved(Saved(o, n, BeijingDb, BeijingTable, DataDirectory, bw), g, GasesDb, GasesTable, DataDirectory, gw) == o
  {
    var b1 := Saved(dbs, n, BeijingDb, BeijingTable, DataDirectory, bw);
    DbPathsDiffer();
    SavesCommute(b1, n, g, BeijingDb, BeijingTable, GasesDb, GasesTable, DataDirectory, bw, gw);
    SavedTwice(dbs, n, BeijingDb, BeijingTable, DataDirectory, bw);
    SavedTwice(b1, g, GasesDb, GasesTable, DataDirectory, gw);
  }

  /** A failed download ends main quietly: no table of InorganicGases.db is written and
      no file is added. */
  lemma DownloadFailureSkipsGases(dbs: Databases, walk: Walk, disk: Disk, std: seq<real> -> real,
                                  bw: bool, gw: bool)
    requires WellFormedDisk(disk) && SameHeader(BeijingFiles(walk), disk)
    ensures var o := Main(dbs, walk, disk, Failed, std, bw, gw);
      o.disk == disk &&
      (BeijingStep(dbs, walk, disk, std, bw).Ok? ==> o.error == None && o.dbs == BeijingStep(dbs, walk, disk, std, bw).value)
  {
  }

  /** A body that pd.read_csv cannot parse is still written to
      ../data/InorganicGases_2017.csv, which is then unreadable; process_inorganic_gases
      returns None and main saves nothing for the gases. */
  lemma UnreadableDownloadSkipsSave(dbs: Databases, walk: Walk, disk: Disk, std: seq<real> -> real,
                                    bw: bool, gw: bool)
    requires WellFormedDisk(disk) && SameHeader(BeijingFiles(walk), disk)
    ensures var o := Main(dbs, walk, disk, Received(None), std, bw, gw);
      var b := BeijingStep(dbs, walk, disk, std, bw);
      (b.Ok? ==> o.error == None && o.dbs == b.value && GasesTarget !in o.disk) &&
      (forall p | p != GasesTarget :: (p in o.disk <==> p in disk) && (p in disk ==> o.disk[p] == disk[p]))
  {
  }
}
