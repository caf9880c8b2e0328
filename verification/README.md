# Transform stage of the air-quality pipeline, in Dafny

This project models `project/pipeline.py`, an extract-transform-load script. The script
does two things:

- It combines the hourly Beijing air-quality CSV files (one per station) into one table.
  It drops incomplete rows, rebuilds a `datetime` column from `year`/`month`/`day`/`hour`,
  normalises every numeric column to z-scores, and stores the result in a SQLite database.
- It downloads the inorganic-gases CSV file, drops its incomplete rows, normalises it, and
  stores it in a second database.

Data frames are values: a `Frame` is a list of column names plus rows, and each row carries
its index label. The pandas calls that change a frame in place (`replace(..., inplace=True)`,
`dropna(inplace=True)`, `df[columns] = ...`) become reassignments of a local variable in
the methods that follow the source step by step. Each such method is proved equal to a
specification function, and the properties are proved about that function.

The one object that changes state is the set of SQLite databases. It is the class
`Sqlite.Store`: a map from database file to a map from table name to table.

The modules:

- `Frames`: the value model (cells, rows, frames, parsed CSV files, the disk as a map
  from path to parsed file).
- `Cleaning`: the `"NA"` replacement and `dropna`.
- `Timestamps`: `pd.to_datetime` on the four date parts, the column assignment and the
  column drop.
- `Combine`: the per-file loop of `combine_and_process_csv_files` and the fold it
  computes.
- `Normalize`: `normalize_data`, with mean and sample variance computed exactly over the
  reals.
- `Paths`: POSIX `os.path.join` and `basename`, the `.csv` filter, and `download_csv`.
- `Sqlite`: `save_to_sqlite`.
- `Pipeline`: `process_inorganic_gases` and `main`.

Behaviour of the code that is easy to miss:

- A row whose date parts are invalid is not dropped. `pd.to_datetime` raises, nothing in
  `combine_and_process_csv_files` or `main` catches it, and the run stops before the gases
  step (`Pipeline.BeijingFailureStops`).
- A column with zero standard deviation is not skipped. The division gives NaN, which the
  model writes as a missing cell (`Normalize.NormalizeConstantColumn`). The inorganic-gases
  table can therefore hold missing values even though incomplete rows were dropped first.
- `save_to_sqlite` treats only `None` as "nothing to save". An inorganic-gases frame left
  with no rows is still written. Only the Beijing frame is checked for emptiness, by
  `main`.
- Table and database names are fixed constants, not derived from file names.
- A failed write is caught inside `save_to_sqlite` and leaves the databases as they were.

## Model

| member | source | states |
|---|---|---|
| Frames.ReadCsv | project/pipeline.py:40 | a read file has the file's header as columns and its records as rows, in order, labelled 0..n-1; a well-formed file gives a well-formed frame |
| Cleaning.ReplaceNA | project/pipeline.py:41 | replacing "NA" keeps the columns and the number of rows |
| Cleaning.ReplaceNACells | project/pipeline.py:41 | every cell equal to the string "NA" becomes missing, every other cell is unchanged, labels are kept |
| Cleaning.KeepComplete | project/pipeline.py:42 | dropna keeps only complete rows, keeps every complete row, and never adds rows |
| Cleaning.DropNA | project/pipeline.py:29 | dropna keeps the columns and well-formedness |
| Cleaning.KeepCompleteAppend | project/pipeline.py:42 | dropping rows distributes over concatenation, so the survivors keep their relative order |
| Cleaning.KeepCompleteSingle | project/pipeline.py:42 | a single row survives exactly when it is complete |
| Cleaning.KeepCompleteAll | project/pipeline.py:42 | dropna leaves a frame without missing cells unchanged |
| Cleaning.KeepCompleteOrder | project/pipeline.py:42 | surviving rows keep increasing labels |
| Cleaning.KeepCompleteCount | project/pipeline.py:42 | the number of surviving rows is the number of complete rows |
| Cleaning.DropNALabels | project/pipeline.py:29 | after dropna on a freshly read file, each surviving row keeps its label, which is its position in the file, and the labels increase |
| Cleaning.NARowsRemoved | project/pipeline.py:41-42 | after replace then dropna, no cell is missing or "NA", and a read row survives exactly when none of its cells is missing or "NA" |
| Timestamps.DaysInMonth | project/pipeline.py:44 | months have 28 to 31 days, and 29 exactly for February of a Gregorian leap year |
| Timestamps.Assemble | project/pipeline.py:44 | one row's timestamp: a part that is neither a number nor missing raises; otherwise a missing year, month or day gives NaT; with a missing hour it gives NaT exactly when year, month and day are whole numbers spelling a calendar date whose midnight is a timestamp, and raises otherwise; with all four present it succeeds exactly when year, month and day are whole numbers whose key year*10000+month*100+day spells an eight-digit calendar date and the date plus the hour lies in the int64-nanosecond timestamp range, and the timestamp is exactly that date and hour |
| Timestamps.KeyOfDate | project/pipeline.py:44 | for a four-digit year naming a calendar date, the %Y%m%d key is valid and spells back that year, month and day |
| Timestamps.DaysFromEpochSteps | project/pipeline.py:44 | the day count puts 1970-01-01 at 0 and 2000-03-01 at 11017, and consecutive days of a month are consecutive numbers |
| Timestamps.AssembleDate | project/pipeline.py:44 | a row with a four-digit year naming a calendar date assembles to exactly that date plus the hour when the result is a representable timestamp, and raises otherwise |
| Timestamps.TimestampRangeEdges | project/pipeline.py:44 | the representable range starts after 1677-09-21 00:00 and ends inside 2262-04-11 (hour 23 fits, hour 24 does not); 3000-01-01 is outside it |
| Timestamps.YearThreeThousandRaises | project/pipeline.py:44 | a row dated 3000-01-01 raises |
| Timestamps.AssembleRows | project/pipeline.py:44 | assembling a range of rows succeeds exactly when every row does, with each row's value built from that row alone |
| Timestamps.ToDatetime | project/pipeline.py:44 | a KeyError naming the absent date-part columns, else one value per row from its own parts, succeeding exactly when every row does |
| Timestamps.AssignColumn | project/pipeline.py:44 | assigning a column overwrites it in place if present, else appends it; rows and labels are kept |
| Timestamps.AssignColumnGet | project/pipeline.py:44 | after the assignment each row holds its value under the new name and its old cell under every other column |
| Timestamps.DropColumns | project/pipeline.py:45 | dropping columns leaves exactly the other columns in their order, with the same rows and labels |
| Timestamps.DropColumnsGet | project/pipeline.py:45 | every remaining column of a row holds that row's old cell |
| Timestamps.ReconstructTimestamp | project/pipeline.py:43-45 | without a 'year' column the frame is unchanged; on success the columns are the reconstructed list, and the row count and labels are kept |
| Timestamps.TimestampColumnsSpec | project/pipeline.py:43-45 | with 'year' present the new columns contain 'datetime', none of the four parts, and every other old column |
| Timestamps.ReconstructColumns | project/pipeline.py:43-45 | a successful reconstruction has 'datetime', no date part, every other column, and the same number of rows |
| Timestamps.ReconstructCells | project/pipeline.py:44-45 | each row's 'datetime' is assembled from that row's own four parts, and every other cell is unchanged |
| Timestamps.ReconstructRowCells | project/pipeline.py:44-45 | a complete row gains no missing value: each new cell is a timestamp or one of its old cells |
| Timestamps.ReconstructFails | project/pipeline.py:43-44 | with 'year' present, reconstruction fails exactly when a part column is absent (a KeyError naming it) or some row cannot be assembled (a non-numeric part, a key that spells no date, or a timestamp out of range) |
| Combine.Process | project/pipeline.py:40-45 | an unreadable file is a read error; a processed file is well-formed with the reconstructed column list |
| Combine.ProcessSteps | project/pipeline.py:40-45 | the loop body's three outcomes: no 'year' keeps the cleaned frame, a failed to_datetime raises its error, otherwise the parts are replaced by 'datetime' |
| Combine.Concat | project/pipeline.py:46 | concat with ignore_index: the accumulator's rows then the new rows, relabelled 0..n-1, keeping well-formedness |
| Combine.Fold | project/pipeline.py:38-46 | folding no file gives the empty frame; otherwise the result has the first file's columns |
| Combine.FoldStopsAtError | project/pipeline.py:39-46 | once a file fails, later files do not change the result |
| Combine.FoldErrors | project/pipeline.py:39-46 | the loop fails exactly when some file fails, and then with the first failing file's error |
| Combine.FoldRows | project/pipeline.py:38-46 | the combined rows are the files' rows stacked in order, their count is the sum of the per-file counts, and the index is renumbered |
| Combine.FoldClean | project/pipeline.py:46 | stacking frames without missing or "NA" cells gives such a frame |
| Combine.OutcomesAligned | project/pipeline.py:39-45 | files sharing one header process to frames with one column list |
| Combine.Combined | project/pipeline.py:37-47 | no file gives the empty frame; otherwise the first file's reconstructed columns |
| Combine.CombineAndProcessCsvFiles | project/pipeline.py:37-47 | the loop returns exactly the fold over the files, stopping at the first error |
| Combine.CombinedFails | project/pipeline.py:39-46 | the combination raises exactly when some listed file fails |
| Combine.CombinedFirstError | project/pipeline.py:39-46 | the error raised is the first failing file's, all earlier files having succeeded |
| Combine.CombinedRows | project/pipeline.py:38-46 | on success every file succeeded, and the rows are the files' rows in order, with the count summed and the index renumbered |
| Combine.ProcessRowCount | project/pipeline.py:41-42 | one file contributes as many rows as it has complete records after the "NA" replacement |
| Combine.ProcessClean | project/pipeline.py:41-45 | no cell of a processed file is missing or "NA" |
| Combine.CombinedClean | project/pipeline.py:37-47 | no cell of the combined frame is missing or "NA" |
| Combine.CombinedReadsOnlyPaths | project/pipeline.py:39-40 | the combined frame depends only on the listed files |
| Normalize.SumSq | project/pipeline.py:23 | a sum of squared deviations is never negative |
| Normalize.SumNonNegativeZero | project/pipeline.py:23 | non-negative terms summing to zero are all zero |
| Normalize.SumAffine | project/pipeline.py:23 | the sum of (x - m) * k over a column is (sum - n * m) * k |
| Normalize.SumSqAffine | project/pipeline.py:23 | scaling by k multiplies the sum of squared deviations by k squared |
| Normalize.ZScoresMeanZero | project/pipeline.py:23 | z-scores sum to zero and have mean zero |
| Normalize.ZScoresUnitVariance | project/pipeline.py:23 | z-scores by the column's standard deviation have sample variance one |
| Normalize.VarianceZero | project/pipeline.py:23 | the sample variance is zero exactly when all values are equal |
| Normalize.StdZero | project/pipeline.py:23 | the standard deviation is zero exactly when all values are equal |
| Normalize.ZScoresFixed | project/pipeline.py:23 | z-scores have standard deviation one and are their own z-scores |
| Normalize.Standardized | project/pipeline.py:23 | one column after normalisation: all NaN when it has fewer than two values or a zero standard deviation, otherwise each value becomes (value - mean) / std |
| Normalize.StandardizedMissing | project/pipeline.py:23 | a column with fewer than two values or all values equal becomes all NaN; otherwise its standard deviation is positive and every value stays a number |
| Normalize.ColumnValues | project/pipeline.py:22 | the numbers of a numeric column, one per row, in row order |
| Normalize.NormalizeData | project/pipeline.py:21-24 | normalising keeps the columns, the row count, the labels and well-formedness |
| Normalize.NormalizeKeepsOthers | project/pipeline.py:22-23 | a column that is not int/float keeps every cell |
| Normalize.NormalizeColumnCells | project/pipeline.py:22-23 | each cell of a numeric column becomes the matching standardised value of that column |
| Normalize.NormalizeColumnValues | project/pipeline.py:23 | a numeric column with non-zero standard deviation stays numeric, each value becoming (v - mean) / std |
| Normalize.NormalizeColumn | project/pipeline.py:22-23 | a numeric column with two distinct values becomes numeric z-scores with mean 0 and sample variance 1 |
| Normalize.NormalizeConstantColumn | project/pipeline.py:23 | a numeric column with fewer than two rows or all values equal becomes all NaN |
| Normalize.SecondPassKeeps | project/pipeline.py:22-23 | a non-numeric cell is never changed by normalising |
| Normalize.NormalizeIdempotentAt | project/pipeline.py:21-24 | normalising twice gives the same cell as normalising once |
| Normalize.NormalizeIdempotent | project/pipeline.py:21-24 | normalising a normalised frame changes nothing |
| Paths.LastSlashEnd | project/pipeline.py:12 | the position after the last '/', with no '/' after it |
| Paths.Basename | project/pipeline.py:12 | the base name is everything after the last '/': it has no '/', it is the suffix of the path starting just after that '/', and a path without '/' is its own base name |
| Paths.Join | project/pipeline.py:12 | an absolute second part replaces the first; otherwise the result is the first part, then one '/' unless the first part is empty or already ends with one, then the second part |
| Paths.LastSlashAppend | project/pipeline.py:12 | appending text without '/' does not move the last '/' |
| Paths.BasenameJoin | project/pipeline.py:12 | the base name of a directory joined with a plain name is that name |
| Paths.CsvNamesMember | project/pipeline.py:68 | a path is collected from one directory exactly when it is that directory joined with one of its '.csv' names |
| Paths.CsvFilesMember | project/pipeline.py:68 | a path is collected exactly when it is some walked directory joined with one of its '.csv' files |
| Paths.CsvFiles | project/pipeline.py:68 | every collected path ends in '.csv' |
| Paths.CsvFilesAppend | project/pipeline.py:68 | the files of earlier directories come before those of later ones |
| Paths.CsvFilesNone | project/pipeline.py:68 | a walk without '.csv' files collects nothing |
| Paths.Written | project/pipeline.py:13-14 | after the write the file is readable exactly when its content parses, then as that content, and no other file changes |
| Paths.WrittenTwice | project/pipeline.py:13-14 | writing the same content to the same file again changes nothing |
| Paths.DownloadCsv | project/pipeline.py:6-19 | download_csv returns no path exactly when the request failed |
| Paths.DownloadCsvResult | project/pipeline.py:12-19 | a failed request writes nothing; a received one writes the body at save_to joined with the URL's last segment and returns that path; the file is readable exactly when the body parses, and no other file changes |
| Sqlite.ToTable | project/pipeline.py:55 | to_sql with index=False stores the columns and each row's cells in order, without the labels |
| Sqlite.DbPath | project/pipeline.py:53 | for a relative db_name the file is exactly the directory, one '/' unless the directory already ends in one, then "<db_name>.db" (its length, prefix, separator and suffix are all pinned); an absolute db_name gives "<db_name>.db"; a db_name without '/' names the file "<db_name>.db" |
| Sqlite.Saved | project/pipeline.py:49-60 | with no frame or a failing write the databases are unchanged; otherwise the database files are the old ones plus the named one |
| Sqlite.SavedSpec | project/pipeline.py:49-60 | saving None or a failing save changes nothing; otherwise the named table is exactly the frame and every other table of every database is kept |
| Sqlite.SavedTable | project/pipeline.py:55 | after a successful save the named table holds the frame |
| Sqlite.SavedElsewhere | project/pipeline.py:53-55 | a save leaves every other database file unchanged |
| Sqlite.LastSaveWins | project/pipeline.py:55 | two saves to one table leave only the second frame |
| Sqlite.SavedTwice | project/pipeline.py:55 | repeating a save changes nothing |
| Sqlite.SavesCommute | project/pipeline.py:53-55 | saves to two different database files commute |
| Sqlite.Store.SaveToSqlite | project/pipeline.py:49-60 | the store after save_to_sqlite is the specified update of the store before |
| Pipeline.BeijingDirectory | project/pipeline.py:63-67 | the walked directory is ../data/PRSA_Data_20130301-20170228 |
| Pipeline.BeijingFiles | project/pipeline.py:68 | a path is collected exactly when it is a directory the walk visits joined with one of that directory's '.csv' names, and every collected path ends in '.csv' |
| Pipeline.InorganicGases | project/pipeline.py:26-35 | None exactly for an unreadable file; otherwise a well-formed frame with the file's header |
| Pipeline.ProcessInorganicGases | project/pipeline.py:26-35 | the step-by-step read, dropna and normalise give exactly the specified frame, or None for an unreadable file |
| Pipeline.InorganicGasesShape | project/pipeline.py:26-35 | None exactly for an unreadable file; otherwise the file's header, one row per complete record under its original label and in file order, and non-numeric cells unchanged |
| Pipeline.BeijingFrame | project/pipeline.py:70-71 | nothing to store exactly when the combined frame is empty; otherwise a frame with the same columns and number of rows |
| Pipeline.BeijingStep | project/pipeline.py:66-72 | the Beijing half raises exactly when combining raises, with that error; an empty combined frame or a failing write leaves the databases unchanged |
| Pipeline.DownloadedGases | project/pipeline.py:76-79 | there is a frame to store exactly when the request succeeded and its body parses, and it has the body's header |
| Pipeline.GasesStep | project/pipeline.py:74-80 | the gases half never raises; the disk gains the written body unless the request failed; a failed request, an unparsable body or a failing write leaves the databases unchanged |
| Pipeline.Main | project/pipeline.py:62-80 | main leaves the disk unchanged when it raises or the request fails, and otherwise changes exactly the downloaded file |
| Pipeline.BeijingHalf | project/pipeline.py:66-72 | the Beijing half of main updates the store as specified, or reports the combine error and changes nothing |
| Pipeline.GasesHalf | project/pipeline.py:74-80 | the gases half of main updates the store and disk as specified |
| Pipeline.RunMain | project/pipeline.py:62-80 | main's error, databases and disk are those the specification gives |
| Pipeline.DbPathsDiffer | project/pipeline.py:72-80 | the two databases are ../data/BeijingAirQuality.db and ../data/InorganicGases.db, different files |
| Pipeline.GasesDownloadTarget | project/pipeline.py:75-76 | the gases file is saved as ../data/InorganicGases_2017.csv |
| Pipeline.GasesDownloadDisk | project/pipeline.py:76 | the download changes the disk only at ../data/InorganicGases_2017.csv |
| Pipeline.NoBeijingFiles | project/pipeline.py:68-72 | with no '.csv' file under the Beijing directory nothing is collected and nothing is saved |
| Pipeline.BeijingFailureStops | project/pipeline.py:69-76 | main raises exactly when some Beijing file fails, and then saves nothing and downloads nothing |
| Pipeline.GasesStepElsewhere | project/pipeline.py:80 | the gases step leaves every database other than InorganicGases.db unchanged |
| Pipeline.BeijingSaved | project/pipeline.py:69-72 | with a non-empty combined frame and a working write, combined_data holds the normalised combined frame when main ends |
| Pipeline.GasesSaved | project/pipeline.py:75-80 | with a successful download and write, data_2017 holds the downloaded content after dropna and normalisation, and the file is on disk |
| Pipeline.DownloadedGasesContent | project/pipeline.py:76-79 | a failed request or a body that does not parse gives nothing to store; a parsed body gives that content after dropna and normalisation |
| Pipeline.GasesStepSaved | project/pipeline.py:76-80 | the gases step after a successful download stores the processed content and leaves the file on disk |
| Pipeline.MainRerun | project/pipeline.py:62-80 | running main again on the same inputs leaves the same databases, files and outcome |
| Pipeline.RerunDatabases | project/pipeline.py:72-80 | repeating the Beijing save and the gases save gives back the databases of the first pair |
| Pipeline.DownloadFailureSkipsGases | project/pipeline.py:77 | a failed download adds no file and stores nothing beyond the Beijing step |
| Pipeline.UnreadableDownloadSkipsSave | project/pipeline.py:76-79 | a body that does not parse leaves the downloaded file unreadable, stores nothing beyond the Beijing step, and changes no other file |

## Left out

- The network request in `download_csv` is not modelled. The HTTP response is a parameter (`Paths.Response`): `Failed` when `requests` raised, otherwise the body as `pd.read_csv` would parse it, or nothing when it does not parse. The User-Agent header and `raise_for_status` are subsumed by that parameter.
- A failure of the file write inside `download_csv` (an `OSError` from `open`, which its `except requests.RequestException` does not catch) is not modelled. The disk is a map from readable path to parsed file.
- `pd.read_csv` parsing is not modelled. A readable path maps to its parsed header and records, and any parsing failure counts as an unreadable path. That includes NA-string recognition and dtype inference. A column counts as int64/float64 exactly when every cell in it is a number.
- `os.walk` is a parameter giving, for a directory, the directories visited under it with their file names.
- `os.makedirs` is not modelled; the directory is assumed to be creatable.
- SQLAlchemy, the SQLite engine and `to_sql` are not modelled beyond their effect: a table is replaced as a whole. A failing write is a boolean parameter and leaves the databases unchanged. Partial writes are not modelled.
- `print` logging is not modelled.
- Float64 arithmetic, rounding and `sqrt` are not modelled: means and variances are exact reals. The standard deviation is a parameter function. The lemmas about z-scores assume it is a non-negative square root of the sample variance (`Normalize.IsStd`), which also excludes a zero standard deviation for a column that is not constant.
- Normalize.NormalizeData: int64 and float64 columns are both numbers, so integer truncation of int64 columns is not modelled (pandas turns the result into float64 anyway).
- Timestamps.Assemble: `pd.to_numeric` coercion of numeric strings is not modelled; a string part raises. int64 and float64 part columns are both numbers, and a whole-valued key is read as the integer it equals. A key of fewer than eight digits counts as invalid, whatever pandas' format parser makes of it. Rounding of fractional hours to whole nanoseconds is not modelled at the edges of the timestamp range. The error is one kind, whichever exception pandas raises.
- Combine.SameHeader: the column union `pd.concat` builds for files with different headers is not modelled. All readable Beijing files are required to share one header.
- Pipeline.MainRerun: assumes each save fails or succeeds the same way on both runs, and that the Beijing listing does not include the downloaded gases file.
- Modelling frames as values loses aliasing between frames. It is unobservable here: every frame that `pipeline.py` mutates is local or is not used again by its caller.
- `project/test_pipeline.py` and `project/test.py` are not part of this model. The first imports functions that `pipeline.py` does not define and calls `save_to_sqlite` with three arguments. The second needs the network and the real data.
