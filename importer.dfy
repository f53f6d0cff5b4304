/**
 * The top-level loop: for each discovered file, in the order discovery
 * returned it, derive the table name, clean the parsed frame, and hand the
 * table to the database writer. The first error aborts the run; tables
 * written before it stay written.
 *
 * Parsing is a parameter (each file comes with the frame the CSV reader
 * produced for it) and the write itself is recorded as a (table, frame)
 * pair in the order it is issued.
 */
module Importer {
  import opened Wrappers
  import opened Frames
  import opened Paths
  import opened Cleaning
  import opened DataFrames

  datatype CsvFile = CsvFile(path: string, frame: Frame)

  /** One replace-table write: the destination table and the rows written to it. */
  datatype TableWrite = TableWrite(table: string, frame: Frame)

  datatype ImportError = ImportError(path: string, error: TransformError)

  /** The writes a run issues, and the error that stopped it, if any. */
  datatype Run = Run(writes: seq<TableWrite>, failure: Option<ImportError>)

  /** One iteration of the loop: derive the table name from the path and
      clean the file's frame by that name's rule. A write goes to the table
      the path names; an error names the file. */
  function ImportFile(file: CsvFile): (r: Result<TableWrite, ImportError>)
    ensures r.Success? ==> r.value.table == TableName(file.path)
    ensures r.Failure? ==> r.error.path == file.path
  {
    var name := TableName(file.path);
    match Clean(name, file.frame)
    case Failure(e) => Failure(ImportError(file.path, e))
    case Success(g) => Success(TableWrite(name, g))
  }

  /** Apply step to the files in order, collecting the writes, and stop at the
      first file whose step fails. */
  function RunUntilFailure(step: CsvFile -> Result<TableWrite, ImportError>, files: seq<CsvFile>): (run: Run)
    ensures |run.writes| <= |files|
    decreases |files|
  {
    if files == [] then Run([], None)
    else
      match step(files[0])
      case Failure(e) => Run([], Some(e))
      case Success(w) =>
        var rest := RunUntilFailure(step, files[1..]);
        Run([w] + rest.writes, rest.failure)
  }

  /** What the importer's loop over files does. */
  function ImportPlan(files: seq<CsvFile>): Run {
    RunUntilFailure(ImportFile, files)
  }

  lemma RunFrom(step: CsvFile -> Result<TableWrite, ImportError>, files: seq<CsvFile>, i: int)
    requires 0 <= i < |files|
    ensures RunUntilFailure(step, files[i..]) ==
      match step(files[i])
      case Failure(e) => Run([], Some(e))
      case Success(w) =>
        Run([w] + RunUntilFailure(step, files[i + 1..]).writes, RunUntilFailure(step, files[i + 1..]).failure)
  {
    assert files[i..][0] == files[i] && files[i..][1..] == files[i + 1..];
  }

  /** One more file of a run: a success appends its write to those already
      issued, a failure ends the run with the writes issued so far. */
  lemma RunStep(step: CsvFile -> Result<TableWrite, ImportError>, files: seq<CsvFile>, i: int,
                writes: seq<TableWrite>, run: Run)
    requires 0 <= i < |files|
    requires run == Run(writes + RunUntilFailure(step, files[i..]).writes, RunUntilFailure(step, files[i..]).failure)
    ensures step(files[i]).Failure? ==> run == Run(writes, Some(step(files[i]).error))
    ensures step(files[i]).Success? ==>
      run == Run((writes + [step(files[i]).value]) + RunUntilFailure(step, files[i + 1..]).writes,
                 RunUntilFailure(step, files[i + 1..]).failure)
  {
    RunFrom(step, files, i);
    assert writes + [] == writes;
    if step(files[i]).Success? {
      var rest := RunUntilFailure(step, files[i + 1..]);
      assert writes + ([step(files[i]).value] + rest.writes) == (writes + [step(files[i]).value]) + rest.writes;
    }
  }

  /** One iteration of the importer's loop: load the file's frame, clean it
      in place under the table name its path gives, and issue the write. */
  method ImportOne(file: CsvFile) returns (r: Result<TableWrite, ImportError>)
    requires WellFormed(file.frame)
    ensures r == ImportFile(file)
  {
    var tableName := TableName(file.path);
    var df := new DataFrame(file.frame);
    var err := df.Clean(tableName);
    if err.Some? {
      return Failure(ImportError(file.path, err.value));
    }
    return Success(TableWrite(tableName, df.Value()));
  }

  /** The loop of the importer over the files, stopping at the first error. */
  method ImportAll(files: seq<CsvFile>) returns (writes: seq<TableWrite>, failure: Option<ImportError>)
    requires forall k :: 0 <= k < |files| ==> WellFormed(files[k].frame)
    ensures Run(writes, failure) == ImportPlan(files)
  {
    writes := [];
    var i := 0;
    while i < |files|
      invariant 0 <= i <= |files|
      invariant ImportPlan(files) ==
        Run(writes + RunUntilFailure(ImportFile, files[i..]).writes, RunUntilFailure(ImportFile, files[i..]).failure)
    {
      var r := ImportOne(files[i]);
      RunStep(ImportFile, files, i, writes, ImportPlan(files));
      if r.Failure? {
        return writes, Some(r.error);
      }
      writes := writes + [r.value];
      i := i + 1;
    }
    assert files[i..] == [];
    return writes, None;
  }

  /** The k-th write of a run is the successful step of the k-th file. */
  lemma {:induction false} RunWritesInOrder(step: CsvFile -> Result<TableWrite, ImportError>, files: seq<CsvFile>, k: int)
    requires 0 <= k < |RunUntilFailure(step, files).writes|
    ensures step(files[k]) == Success(RunUntilFailure(step, files).writes[k])
    decreases |files|
  {
    if k > 0 {
      assert files[k] == files[1..][k - 1];
      RunWritesInOrder(step, files[1..], k - 1);
    }
  }

  /** A run stops early exactly when it reports an error; the error is the
      step's error on the first file not written. */
  lemma {:induction false} RunStopsAtFirstError(step: CsvFile -> Result<TableWrite, ImportError>, files: seq<CsvFile>)
    ensures RunUntilFailure(step, files).failure.None? <==> |RunUntilFailure(step, files).writes| == |files|
    ensures RunUntilFailure(step, files).failure.Some? ==>
      var n := |RunUntilFailure(step, files).writes|;
      n < |files| && step(files[n]) == Failure(RunUntilFailure(step, files).failure.value)
    decreases |files|
  {
    if files != [] {
      var rest := RunUntilFailure(step, files[1..]);
      RunStopsAtFirstError(step, files[1..]);
      if step(files[0]).Success? && rest.failure.Some? {
        assert files[|rest.writes| + 1] == files[1..][|rest.writes|];
      }
    }
  }

  /** The importer writes the files in order, each to the table its path
      names and with its cleaned frame. */
  lemma ImportPlanWritesInOrder(files: seq<CsvFile>, k: int)
    requires 0 <= k < |ImportPlan(files).writes|
    ensures ImportPlan(files).writes[k].table == TableName(files[k].path)
    ensures Clean(TableName(files[k].path), files[k].frame) == Success(ImportPlan(files).writes[k].frame)
  {
    RunWritesInOrder(ImportFile, files, k);
  }

  /** The importer stops at the first file whose cleaning fails, reporting
      that file and its error; every file before it was written. */
  lemma ImportPlanStopsAtFirstError(files: seq<CsvFile>)
    ensures ImportPlan(files).failure.None? <==> |ImportPlan(files).writes| == |files|
    ensures ImportPlan(files).failure.Some? ==>
      var n := |ImportPlan(files).writes|;
      n < |files| &&
      ImportPlan(files).failure.value.path == files[n].path &&
      Clean(TableName(files[n].path), files[n].frame) == Failure(ImportPlan(files).failure.value.error)
  {
    RunStopsAtFirstError(ImportFile, files);
  }

  /** Every table a run writes from files the pattern root/**/*.csv found is
      named by its file's final component without ".csv". */
  lemma ImportedTablesNamedByFiles(root: string, files: seq<CsvFile>)
    requires forall k :: 0 <= k < |files| ==> MatchesCsvGlob(root, files[k].path)
    ensures forall k :: 0 <= k < |ImportPlan(files).writes| ==>
      ImportPlan(files).writes[k].table + CsvSuffix == Basename(files[k].path)
  {
    forall k | 0 <= k < |ImportPlan(files).writes|
      ensures ImportPlan(files).writes[k].table + CsvSuffix == Basename(files[k].path)
    {
      ImportPlanWritesInOrder(files, k);
      CsvPathTableName(root, files[k].path);
    }
  }
}
