# csv_to_mysql_import, modelled in Dafny

`csv_to_mysql_import.py` loads every `*.csv` file found below a root directory
into a MySQL table of the same name and replaces any table that already exists.
Before the write, three tables are cleaned:

- `employee_counts`: `time_recorded` is converted from epoch seconds to
  timestamps. Then only the last row for each (`company_id`, `time_recorded`)
  is kept.
- `company_specialities`: only the last row for each (`company_id`,
  `speciality`) is kept.
- `company_industries`: only the last row for each (`company_id`, `industry`)
  is kept.

Any other table is written as read.

This project models that cleaning rule. It also models how the table name comes
from the file path, the `**/*.csv` file filter, and the loop over the files.
Everything is proved in Dafny.

- `frames.dfy` (module `Frames`): a parsed table (`Frame`). It has ordered
  column names and rows, and each row maps a column name to a `Cell`. A `Cell`
  is null, an integer, a string or a timestamp. `Key` is the tuple of a row's
  values in the key columns.
- `dedup.dfy` (module `Dedup`): `KeepLast` is the row operation behind
  `drop_duplicates(subset=K, keep='last', ignore_index=True)`. `LastIndices` is
  a separate reference definition: the positions, in file order, of rows that
  no later row shares a key with.
- `paths.dfy` (module `Paths`): POSIX `os.path.basename` and
  `os.path.splitext`, the table name they give, and the filter that
  `root/**/*.csv` applies to a list of paths.
- `cleaning.dfy` (module `Cleaning`): the per-table rule as a pure function
  `Clean(tableName, frame)`. It returns a `Result`. A missing key column gives
  pandas' `KeyError` (`MissingColumns`), except on an empty frame (no rows or
  no columns): `drop_duplicates` returns such a frame as it is before it looks
  up the key columns. A missing `time_recorded` column is a `KeyError` even on
  an empty frame. A `time_recorded` cell that `pd.to_datetime(unit='s')`
  rejects gives the conversion error (`NotDatetimeConvertible`). That is a
  non-numeric string (the model rejects every string), or a number of seconds
  outside the `datetime64[ns]` range of ±9223372036 seconds (pandas'
  `OutOfBoundsDatetime`).
- `dataframe.dfy` (module `DataFrames`): the in-place DataFrame as a class.
  `ConvertTimeRecorded` converts the whole column with `ConvertColumn` and
  then overwrites it. `DropDuplicates` returns early on an empty frame.
  Otherwise it computes the kept rows with `KeepLastRows` and replaces the
  rows. `KeepLastRows` scans from the last row backwards and remembers the key
  tuples it has already seen. `Clean` does the name dispatch. Each method is
  proved against the pure functions in `Cleaning` and `Dedup`.
- `importer.dfy` (module `Importer`): the top-level `for` loop. For each file,
  in the given order, `ImportOne` derives the table name, cleans the frame in
  place and issues one replace-table write. The first error stops the run.
- `scenarios.dfy` (module `Scenarios`): worked examples on concrete rows and
  paths.

Row positions are sequence indices, so retained rows are always numbered from
0 (`ignore_index=True`). Epoch seconds become `Time(FromEpochSeconds(s))`.
That constructor is injective, which is the only property of the datetime
conversion the rule relies on.

## Model

| member | source | states |
|---|---|---|
| `Paths.Basename` | csv_to_mysql_import.py:43 | the basename has no `/`, is a suffix of the path, and is either the whole path or follows a `/` |
| `Paths.SplitExt` | csv_to_mysql_import.py:43 | root + extension gives back the name |
| `Paths.SplitExtRoundTrip` | csv_to_mysql_import.py:43 | root + extension gives back the name; the extension is empty or a single dot-led suffix without `/`; a non-empty extension leaves a non-dot character in the root's last component, so leading dots never start an extension |
| `Paths.SplitExtEmptyOnlyWithoutDot` | csv_to_mysql_import.py:43 | conversely, the extension is empty only when no dot follows a non-dot character of the last component |
| `Paths.TableName` | csv_to_mysql_import.py:43 | the table name is a prefix of the file's basename |
| `Paths.TableNameHasNoSlash` | csv_to_mysql_import.py:43 | a derived table name never contains `/` |
| `Paths.SplitExtOfCsvName` | csv_to_mysql_import.py:43 | `X.csv` with `X` non-empty, not dot-led and without `/` splits into `X` and `.csv` |
| `Paths.TableNameOfCsvBasename` | csv_to_mysql_import.py:43 | a path whose last component is `X.csv` (X non-empty, not dot-led) names table `X` |
| `Paths.MatchesCsvGlob` | csv_to_mysql_import.py:20-21 | a path the pattern `root/**/*.csv` matches ends in `.csv` |
| `Paths.ListCsvFilePaths` | csv_to_mysql_import.py:19-22 | the listed paths are exactly the given paths that `root/**/*.csv` matches (under root, no hidden component, name ending in `.csv`), never more than given |
| `Paths.CsvPathTableName` | csv_to_mysql_import.py:20-43 | every path the pattern finds names a non-empty table without `/`, and that name followed by `.csv` is the file's basename |
| `Dedup.KeepLastIsLastOccurrences` | csv_to_mysql_import.py:52 | `KeepLast` returns the input rows at strictly increasing positions, and those positions are exactly the rows that no later row shares a key with: a subsequence in original order, renumbered from 0 |
| `Dedup.KeepLastRowsFromInput` | csv_to_mysql_import.py:52 | every retained row is a row of the input |
| `Dedup.KeepLastKeepsEveryKey` | csv_to_mysql_import.py:52 | the key tuples of the result are exactly those of the input: no key is lost and none is invented |
| `Dedup.KeepLastUniqueKeys` | csv_to_mysql_import.py:52 | no two retained rows have equal values in all key columns |
| `Dedup.KeyCount` | csv_to_mysql_import.py:52 | a table has at most as many distinct keys as rows, and exactly as many when its keys are unique |
| `Dedup.KeepLastLength` | csv_to_mysql_import.py:52 | the result has one row per distinct key, so it is never longer than the input |
| `Dedup.UniqueKeysFixpoint` | csv_to_mysql_import.py:52 | a table whose keys are already unique is returned unchanged |
| `Dedup.KeepLastIdempotent` | csv_to_mysql_import.py:52 | deduplicating the result again changes nothing |
| `Dedup.KeepLastCommutesWithMap` | csv_to_mysql_import.py:49-52 | rewriting rows with a map that preserves key equality, before or after deduplication, gives the same table |
| `Cleaning.RuleForTables` | csv_to_mysql_import.py:47-64 | `RuleFor` gives a rule to exactly `employee_counts`, `company_specialities` and `company_industries` (exact name equality); every rule keys on `company_id`; only `employee_counts` converts `time_recorded`, and it also keys on it |
| `Cleaning.ConvertCellInjective` | csv_to_mysql_import.py:49 | on integer seconds and nulls, two cells convert to the same value exactly when they are equal |
| `Cleaning.ConvertRow` | csv_to_mysql_import.py:49 | the conversion keeps a row's columns, rewrites only `time_recorded`, and turns epoch seconds into a timestamp |
| `Cleaning.ConvertTimeRecorded` | csv_to_mysql_import.py:49 | the conversion fails exactly when `time_recorded` is missing or a cell is a string (every string, see Left out) or out of range; on success the columns and the number of rows are kept |
| `Cleaning.ConvertTimeRecordedTimestamps` | csv_to_mysql_import.py:49 | after the conversion every row keeps its columns and every `time_recorded` cell is a timestamp or null |
| `Cleaning.DropDuplicates` | csv_to_mysql_import.py:52 | an empty frame is returned as it is; otherwise a failure lists exactly the missing key columns; a success keeps the columns and never adds rows |
| `Cleaning.ConvertRowKeyInjective` | csv_to_mysql_import.py:49 | over a `time_recorded` column of integers and nulls, the conversion neither merges nor splits key tuples |
| `Cleaning.CleanOtherTablesUnchanged` | csv_to_mysql_import.py:64-65 | `Clean` passes a table not named `employee_counts`, `company_specialities` or `company_industries` through with rows and columns unchanged |
| `Cleaning.CleanFailsIff` | csv_to_mysql_import.py:47-62 | `Clean` fails exactly when a rule applies and either (for `employee_counts`) `time_recorded` is missing or holds a string (every string, see Left out) or an out-of-range cell, or the frame is not empty and one of the rule's key columns is missing |
| `Cleaning.CleanKeepsLastPerKey` | csv_to_mysql_import.py:47-62 | on success, `Clean` under a rule keeps the columns. A frame without columns comes back unchanged. Otherwise its rows are the keep-last dedup, by the rule's key columns, of the rows after any time conversion; keys are unique; no key is lost; the table never grows |
| `Cleaning.EmployeeCountsSameRowsAsRawSeconds` | csv_to_mysql_import.py:47-52 | `employee_counts` takes its key over the converted timestamps, yet keeps the same rows as deduplicating on the raw seconds and converting afterwards |
| `Cleaning.CleanPreservesWellFormed` | csv_to_mysql_import.py:47-65 | a well-formed frame stays well-formed, with the same columns, after cleaning |
| `Cleaning.CleanIdempotent` | csv_to_mysql_import.py:47-65 | cleaning an already cleaned frame by the same name returns it unchanged, for every name |
| `DataFrames.ConvertColumn` | csv_to_mysql_import.py:49 | converting the column row by row succeeds exactly when every `time_recorded` cell is convertible, and then yields the pure conversion of the rows |
| `DataFrames.KeepLastRows` | csv_to_mysql_import.py:52 | the backward scan with a set of seen key tuples returns exactly the keep-last dedup of the rows |
| `DataFrames.DataFrame.constructor` | csv_to_mysql_import.py:40 | the DataFrame holds the frame that reading the CSV file produced |
| `DataFrames.DataFrame.ConvertTimeRecorded` | csv_to_mysql_import.py:49 | the in-place overwrite leaves the pure conversion's result, or on an error reports it and leaves the frame unchanged |
| `DataFrames.DataFrame.DropDuplicates` | csv_to_mysql_import.py:52 | leaves an empty frame as it is; otherwise leaves exactly the keep-last dedup of the old rows and keeps the columns, or reports the missing key columns and changes nothing |
| `DataFrames.DataFrame.Clean` | csv_to_mysql_import.py:46-65 | dispatch by exact name leaves the frame that `Cleaning.Clean` computes, or reports its error |
| `Importer.ImportFile` | csv_to_mysql_import.py:40-65 | a file's write goes to the table its path names; an error names the file |
| `Importer.ImportOne` | csv_to_mysql_import.py:40-69 | one iteration of the loop, cleaning a DataFrame in place, gives exactly the result of `ImportFile` |
| `Importer.RunStep` | csv_to_mysql_import.py:35 | one more file either appends its write to those already issued or ends the run with them |
| `Importer.ImportAll` | csv_to_mysql_import.py:35-71 | the loop issues exactly the writes of `ImportPlan` and stops with its error |
| `Importer.RunWritesInOrder` | csv_to_mysql_import.py:35 | `RunUntilFailure`: the k-th write of a run is the successful result of the loop body on the k-th file |
| `Importer.RunStopsAtFirstError` | csv_to_mysql_import.py:35 | `RunUntilFailure`: a run reports an error exactly when it stops early, and that error is the loop body's error on the first file not written |
| `Importer.ImportPlanWritesInOrder` | csv_to_mysql_import.py:35-69 | the k-th table `ImportPlan` writes is named from the k-th file's path and holds that file's cleaned frame |
| `Importer.ImportPlanStopsAtFirstError` | csv_to_mysql_import.py:35-65 | `ImportPlan` ends with an error exactly when some file's cleaning fails; it reports the first such file and its error; every earlier file was written |
| `Importer.ImportedTablesNamedByFiles` | csv_to_mysql_import.py:29-69 | every table written from files the pattern found is named by the file's basename without `.csv` |
| `Scenarios.CompanySpecialitiesExample` | csv_to_mysql_import.py:54-57 | rows (1, "ai"), (1, "ai"), (2, "web") become exactly (1, "ai"), (2, "web") |
| `Scenarios.EmployeeCountsExample` | csv_to_mysql_import.py:47-52 | rows (1, 1000), (1, 1000), (2, 2000) become (1, ts 1000), (2, ts 2000) |
| `Scenarios.EmptyFrameExample` | csv_to_mysql_import.py:59-62 | a header-only `company_industries` frame without `industry` passes through; with one row it fails naming `industry` |
| `Scenarios.OutOfRangeSecondsExample` | csv_to_mysql_import.py:47-49 | an `employee_counts` cell of ten billion seconds fails the conversion |
| `Scenarios.TableNameExample` | csv_to_mysql_import.py:43 | `archive/employee_counts.csv` loads into table `employee_counts` |

## Left out

- Loading credentials with `load_dotenv` and `os.getenv` (lines 8-15): this is the process environment, not logic. The code does not check for missing variables; it builds the URL with `None`.
- Engine construction and the URL-quoted password (line 32), and the `to_sql(..., if_exists='replace')` write (lines 67-69): these are the database driver and network I/O. The model records each write as a (table, frame) pair in the order it is issued. What the database then holds is not modelled.
- Recursive globbing (line 21): which files exist, and the order the filesystem returns them in, is a parameter. `ListCsvFilePaths` filters a given list of paths; its contract states which paths it keeps, not their order. It does not model glob matching directories whose names end in `.csv`.
- `pd.read_csv` parsing and column type inference (line 40): each file arrives with the frame it parses to. The model assumes that frame is well-formed: distinct column names, and every row has exactly those columns.
- Floating-point cells, float epoch values and `.round('s')` on nanosecond datetimes (line 49): the model has only integer seconds, and rounding whole seconds to the second does nothing. A `time_recorded` cell that already holds a timestamp is kept as it is, as pandas does for a datetime column. A null becomes NaT, which the model keeps as null.
- NaN in key columns: a null cell is an ordinary value equal to itself, as pandas groups NaN keys together in `duplicated`.
- `Cleaning.ConvertTimeRecorded`: the error does not distinguish pandas' `ValueError` for strings from `OutOfBoundsDatetime` for out-of-range seconds; both are `NotDatetimeConvertible`. Every string cell is modelled as rejected. pandas instead parses a string with `float()` and turns `""`, `"NaT"`, `"nat"` and `"NAT"` into NaT, so a numeric string such as `"1000"` converts (a deprecated path in pandas 2.x). Modelling it would need a model of Python's float parsing.
- `Cleaning.CleanFailsIff`: for the same reason, its condition for `employee_counts` counts every string `time_recorded` cell as a failure, while pandas fails only on a string that is not numeric and not a NaT token.
- `Frames.Key`: a key column that a row lacks reads as null. This case never arises, because deduplication runs only after the check for missing key columns, and every row of a well-formed frame has every column.
- `DataFrames.DataFrame.Clean`: when `employee_counts` fails in deduplication after the conversion succeeded, the frame already holds the converted column. The contract allows either that state or the old one. The run aborts at that point, so the state is never observed.
- Progress output with `print` (lines 36-37, 44, 50, 53, 55, 58, 60, 63, 65, 71): console I/O only.
- Paths follow POSIX rules (`/` is the only separator).
