/** Path strings: os.path.basename and os.path.join with POSIX rules, the '.csv' filter that
    main applies to the files os.walk finds, and the file download_csv writes. */
module Paths {
  import opened Frames

  predicate EndsWith(s: string, suffix: string) {
    |suffix| <= |s| && s[|s| - |suffix|..] == suffix
  }

  lemma EndsWithTrans(s: string, t: string, suffix: string)
    requires EndsWith(s, t) && EndsWith(t, suffix)
    ensures EndsWith(s, suffix)
  {
    assert s[|s| - |suffix|..] == t[|t| - |suffix|..];
  }

  /** The position just after the last '/' of s, or 0 when s has none. */
  function LastSlashEnd(s: string): (k: nat)
    ensures k <= |s|
    ensures k > 0 ==> s[k - 1] == '/'
    ensures '/' !in s[k..]
  {
    if s == [] then 0
    else if s[|s| - 1] == '/' then |s|
    else
      var k := LastSlashEnd(s[..|s| - 1]);
      assert s[k..] == s[..|s| - 1][k..] + [s[|s| - 1]];
      k
  }

  /** os.path.basename: everything after the last '/'. */
  function Basename(p: string): (b: string)
    ensures '/' !in b && EndsWith(p, b)
    ensures LastSlashEnd(p) + |b| == |p|
    ensures '/' !in p ==> b == p
  {
    p[LastSlashEnd(p)..]
  }

  /** os.path.join(a, b) with POSIX rules: an absolute b replaces a; otherwise b is
      appended, with a '/' in between unless a is empty or already ends with one. */
  function Join(a: string, b: string): (r: string)
    ensures EndsWith(r, b)
    ensures |b| > 0 && b[0] == '/' ==> r == b
    ensures !(|b| > 0 && b[0] == '/') ==>
      var sep := if a == [] || a[|a| - 1] == '/' then 0 else 1;
      |r| == |a| + sep + |b| && r[..|a|] == a && (sep == 1 ==> r[|a|] == '/')
  {
    if |b| > 0 && b[0] == '/' then b
    else if a == [] || a[|a| - 1] == '/' then a + b
    else a + "/" + b
  }

  /** Appending text without a '/' does not move the last '/'. */
  lemma {:induction false} LastSlashAppend(a: string, b: string)
    requires '/' !in b
    ensures LastSlashEnd(a + b) == LastSlashEnd(a)
  {
    if b != [] {
      var c := b[..|b| - 1];
      assert (a + b)[..|a + b| - 1] == a + c;
      assert b[|b| - 1] in b;
      LastSlashAppend(a, c);
    } else {
      assert a + b == a;
    }
  }

  /** The base name of a joined path is the name that was joined on. */
  lemma BasenameJoin(a: string, b: string)
    requires '/' !in b
    ensures Basename(Join(a, b)) == b
  {
    if b != [] {
      assert b[0] in b;
    }
    if a == [] {
      assert Join(a, b) == b;
    } else if a[|a| - 1] == '/' {
      LastSlashAppend(a, b);
    } else {
      LastSlashAppend(a + "/", b);
      assert a + "/" + b == (a + "/") + b;
    }
  }

  /** One directory visited by os.walk: its path and the names of the files directly in it. */
  datatype WalkEntry = WalkEntry(root: string, files: seq<string>)

  /** The paths of the '.csv' files among names, joined onto root, in listing order. */
  function CsvNames(root: string, names: seq<string>): (paths: seq<string>)
    ensures |paths| <= |names|
    ensures forall p <- paths :: EndsWith(p, ".csv")
  {
    if names == [] then []
    else
      var rest := CsvNames(root, names[1..]);
      if EndsWith(names[0], ".csv") then
        EndsWithTrans(Join(root, names[0]), names[0], ".csv");
        [Join(root, names[0])] + rest
      else rest
  }

  /** The comprehension in main (pipeline.py:68): for every directory os.walk visits, in
      walk order, the '.csv' files in it, in listing order. Every path it lists ends in
      '.csv'. */
  function CsvFiles(walk: seq<WalkEntry>): (paths: seq<string>)
    ensures forall p <- paths :: EndsWith(p, ".csv")
  {
    if walk == [] then [] else CsvNames(walk[0].root, walk[0].files) + CsvFiles(walk[1..])
  }

  lemma {:induction false} CsvNamesMember(root: string, names: seq<string>, p: string)
    ensures p in CsvNames(root, names) <==> exists f <- names :: EndsWith(f, ".csv") && p == Join(root, f)
  {
    if names != [] {
      CsvNamesMember(root, names[1..], p);
      if exists f <- names :: EndsWith(f, ".csv") && p == Join(root, f) {
        var f :| f in names && EndsWith(f, ".csv") && p == Join(root, f);
        if f != names[0] {
          assert f in names[1..];
        }
      }
    }
  }

  /** A path is listed exactly when it is some visited directory joined with one of its
      '.csv' files. */
  lemma {:induction false} CsvFilesMember(walk: seq<WalkEntry>, p: string)
    ensures p in CsvFiles(walk) <==>
      exists e <- walk, f <- e.files :: EndsWith(f, ".csv") && p == Join(e.root, f)
  {
    if walk != [] {
      CsvNamesMember(walk[0].root, walk[0].files, p);
      CsvFilesMember(walk[1..], p);
      if exists e <- walk, f <- e.files :: EndsWith(f, ".csv") && p == Join(e.root, f) {
        var e, f :| e in walk && f in e.files && EndsWith(f, ".csv") && p == Join(e.root, f);
        if e != walk[0] {
          assert e in walk[1..];
        }
      }
      if p in CsvFiles(walk[1..]) {
        var e, f :| e in walk[1..] && f in e.files && EndsWith(f, ".csv") && p == Join(e.root, f);
        assert e in walk;
      }
    }
  }

  /** Listing a walk in two parts lists the first part's files before the second's. */
  lemma {:induction false} CsvFilesAppend(a: seq<WalkEntry>, b: seq<WalkEntry>)
    ensures CsvFiles(a + b) == CsvFiles(a) + CsvFiles(b)
  {
    if a == [] {
      assert a + b == b;
    } else {
      assert (a + b)[1..] == a[1..] + b;
      CsvFilesAppend(a[1..], b);
    }
  }

  /** A walk that finds no '.csv' file yields no paths. */
  lemma {:induction false} CsvFilesNone(walk: seq<WalkEntry>)
    requires forall e <- walk, f <- e.files :: !EndsWith(f, ".csv")
    ensures CsvFiles(walk) == []
  {
    if walk != [] {
      CsvFilesMember(walk, if CsvFiles(walk) == [] then [] else CsvFiles(walk)[0]);
    }
  }

  /** What requests.get gave download_csv: Failed when it raised
      requests.RequestException (raise_for_status included), otherwise the body, which
      pd.read_csv can later parse (Some) or not (None: an empty body, ragged rows, a page
      that is not CSV). */
  datatype Response = Failed | Received(parsed: Option<CsvFile>)

  predicate WellFormedResponse(r: Response) {
    r.Received? && r.parsed.Some? ==> WellFormedCsv(r.parsed.value)
  }

  /** The disk after a file is written at path: readable with the parsed content, or
      present but unreadable, which the disk records as no entry. */
  function Written(disk: Disk, path: string, parsed: Option<CsvFile>): (d: Disk)
    ensures path in d <==> parsed.Some?
    ensures parsed.Some? ==> d[path] == parsed.value
    ensures forall p | p != path :: (p in d <==> p in disk) && (p in disk ==> d[p] == disk[p])
    ensures WellFormedDisk(disk) && (parsed.Some? ==> WellFormedCsv(parsed.value)) ==> WellFormedDisk(d)
  {
    match parsed
    case Some(c) => disk[path := c]
    case None => disk - {path}
  }

  /** Writing the same content to the same file again changes nothing. */
  lemma WrittenTwice(disk: Disk, path: string, parsed: Option<CsvFile>)
    ensures Written(Written(disk, path, parsed), path, parsed) == Written(disk, path, parsed)
  {
    var once := Written(disk, path, parsed);
    assert forall p :: p in Written(once, path, parsed) <==> p in once;
  }

  /** What download_csv leaves behind: the path it returns, if any, and the files on disk. */
  datatype Download = Download(path: Option<string>, disk: Disk)

  /** download_csv (pipeline.py:6-19). The HTTP response is a parameter. On success the
      body is written verbatim to save_to joined with the URL's last segment. */
  function DownloadCsv(url: string, saveTo: string, response: Response, disk: Disk): (d: Download)
    ensures response.Failed? <==> d.path.None?
  {
    match response
    case Failed => Download(None, disk)
    case Received(parsed) =>
      var csvPath := Join(saveTo, Basename(url));
      Download(Some(csvPath), Written(disk, csvPath, parsed))
  }

  /** A failed request returns None and writes nothing. A received one returns a path in
      saveTo named after the URL's last segment, which now holds the body: readable as
      the parsed content when it parses, unreadable otherwise; no other file changes. */
  lemma DownloadCsvResult(url: string, saveTo: string, response: Response, disk: Disk)
    ensures var d := DownloadCsv(url, saveTo, response, disk);
      (response.Failed? ==> d.disk == disk) &&
      (response.Received? ==>
        d.path.Some? && Basename(d.path.value) == Basename(url) &&
        d.path.value == Join(saveTo, Basename(url)) &&
        (d.path.value in d.disk <==> response.parsed.Some?) &&
        (response.parsed.Some? ==> d.disk[d.path.value] == response.parsed.value) &&
        forall p | p != d.path.value :: (p in d.disk <==> p in disk) && (p in disk ==> d.disk[p] == disk[p]))
  {
    BasenameJoin(saveTo, Basename(url));
  }
}
