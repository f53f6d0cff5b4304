/**
 * The per-table cleaning rule: a pure function of (table name, frame).
 * An exact name match selects the key columns; employee_counts first turns
 * its time_recorded column from epoch seconds into timestamps; every rule
 * then keeps the last row per key tuple. Any other name leaves the frame as it is.
 */
module Cleaning {
  import opened Wrappers
  import opened Frames
  import opened Dedup

  /** A missing column is pandas' KeyError (listing the missing names); a
      time_recorded cell the epoch-seconds conversion rejects is its
      conversion error (a ValueError for a non-numeric string, or
      OutOfBoundsDatetime for seconds outside the datetime64[ns] range).
      The model rejects every string cell. */
  datatype TransformError = MissingColumns(columns: set<string>) | NotDatetimeConvertible

  const EmployeeCounts := "employee_counts"
  const CompanySpecialities := "company_specialities"
  const CompanyIndustries := "company_industries"

  const CompanyId := "company_id"
  const TimeRecorded := "time_recorded"
  const Speciality := "speciality"
  const Industry := "industry"

  /** What a table's rule does: whether it converts time_recorded first, and its key columns. */
  datatype Rule = Rule(convertsTime: bool, subset: seq<string>)

  /** The rule selected by exact name equality, or None for any other table. */
  function RuleFor(tableName: string): Option<Rule> {
    if tableName == EmployeeCounts then Some(Rule(true, [CompanyId, TimeRecorded]))
    else if tableName == CompanySpecialities then Some(Rule(false, [CompanyId, Speciality]))
    else if tableName == CompanyIndustries then Some(Rule(false, [CompanyId, Industry]))
    else None
  }

  /** The datetime64[ns] range in whole epoch seconds: the seconds whose
      nanosecond count fits a signed 64-bit integer (the years 1677 to 2262). */
  const MinEpochSeconds := -9_223_372_036
  const MaxEpochSeconds := 9_223_372_036

  /** Cells the epoch-seconds conversion accepts: integer seconds within the
      datetime64[ns] range, nulls (which become NaT, modelled as staying
      null) and values that already are timestamps. Strings are all
      rejected here, although pandas parses numeric strings and NaT tokens. */
  predicate EpochConvertible(c: Cell) {
    match c
    case Int(s) => MinEpochSeconds <= s <= MaxEpochSeconds
    case Str(_) => false
    case _ => true
  }

  /** Epoch seconds become a timestamp; every other cell is left as it is. */
  function ConvertCell(c: Cell): (d: Cell)
    ensures EpochConvertible(c) ==> d.Time? || d.Null?
  {
    match c
    case Int(s) => Time(FromEpochSeconds(s))
    case _ => c
  }

  /** On integer seconds and nulls the conversion is injective. */
  lemma ConvertCellInjective(c1: Cell, c2: Cell)
    requires (c1.Int? || c1.Null?) && (c2.Int? || c2.Null?)
    ensures ConvertCell(c1) == ConvertCell(c2) <==> c1 == c2
  {
  }

  /** Rewrite the time_recorded cell of a row, leaving the other cells alone. */
  function ConvertRow(r: Row): (r': Row)
    ensures r'.Keys == r.Keys
    ensures forall c :: c in r && c != TimeRecorded ==> r'[c] == r[c]
    ensures TimeRecorded in r ==> r'[TimeRecorded] == ConvertCell(r[TimeRecorded])
  {
    if TimeRecorded in r then r[TimeRecorded := ConvertCell(r[TimeRecorded])] else r
  }

  function ConvertRows(rows: seq<Row>): seq<Row> {
    MapRows(ConvertRow, rows)
  }

  predicate AllEpochConvertible(rows: seq<Row>) {
    forall k :: 0 <= k < |rows| ==> EpochConvertible(Lookup(rows[k], TimeRecorded))
  }

  /** The in-place conversion of time_recorded from epoch seconds to
      timestamps, rounded to the second: it fails when the column is missing
      or holds a cell the conversion rejects; on success the columns and the
      number of rows stay the same. */
  function ConvertTimeRecorded(f: Frame): (r: Result<Frame, TransformError>)
    ensures r.Failure? <==> TimeRecorded !in f.columns || !AllEpochConvertible(f.rows)
    ensures r.Success? ==> r.value.columns == f.columns && |r.value.rows| == |f.rows|
  {
    if TimeRecorded !in f.columns then Failure(MissingColumns({TimeRecorded}))
    else if !AllEpochConvertible(f.rows) then Failure(NotDatetimeConvertible)
    else Success(Frame(f.columns, ConvertRows(f.rows)))
  }

  /** The key columns that a frame lacks. */
  function MissingColumnsOf(f: Frame, subset: seq<string>): (missing: set<string>)
    ensures forall c :: c in missing <==> c in subset && c !in f.columns
  {
    set c | c in subset && c !in f.columns
  }

  /** pandas' DataFrame.empty: no rows or no columns. */
  predicate IsEmpty(f: Frame) {
    f.rows == [] || f.columns == []
  }

  /** df.drop_duplicates(subset, keep='last', ignore_index=True). An empty
      frame is returned as it is before the key columns are looked up; any
      other frame fails with the missing key columns, if there are any, and
      otherwise keeps its columns and never grows. */
  function DropDuplicates(f: Frame, subset: seq<string>): (r: Result<Frame, TransformError>)
    ensures IsEmpty(f) ==> r == Success(f)
    ensures r.Failure? ==> !IsEmpty(f) && r.error == MissingColumns(MissingColumnsOf(f, subset))
    ensures r.Success? ==> r.value.columns == f.columns && |r.value.rows| <= |f.rows|
  {
    if IsEmpty(f) then Success(f)
    else
      var missing := MissingColumnsOf(f, subset);
      if missing != {} then Failure(MissingColumns(missing))
      else
        KeepLastLength(f.rows, subset);
        Success(Frame(f.columns, KeepLast(f.rows, subset)))
  }

  /** The cleaning branch for one table. */
  function Clean(tableName: string, f: Frame): Result<Frame, TransformError> {
    match RuleFor(tableName)
    case None => Success(f)
    case Some(rule) =>
      if rule.convertsTime then
        match ConvertTimeRecorded(f)
        case Failure(e) => Failure(e)
        case Success(g) => DropDuplicates(g, rule.subset)
      else DropDuplicates(f, rule.subset)
  }

  /** The rows the rule deduplicates: for employee_counts, those with converted time_recorded. */
  function Prepared(rule: Rule, rows: seq<Row>): seq<Row> {
    if rule.convertsTime then ConvertRows(rows) else rows
  }

  // ---------------------------------------------------------------------------
  // Properties of the cleaning rule

  /** Exactly the three named tables have a rule; every rule keys on
      company_id, and only employee_counts converts time_recorded, which it
      also keys on. */
  lemma RuleForTables(tableName: string)
    ensures RuleFor(tableName).Some? <==>
      tableName == EmployeeCounts || tableName == CompanySpecialities || tableName == CompanyIndustries
    ensures RuleFor(tableName).Some? ==>
      CompanyId in RuleFor(tableName).value.subset &&
      (RuleFor(tableName).value.convertsTime <==> tableName == EmployeeCounts)
    ensures RuleFor(tableName).Some? && RuleFor(tableName).value.convertsTime ==>
      TimeRecorded in RuleFor(tableName).value.subset
  {
  }

  /** A table without a rule passes through with its rows and columns unchanged. */
  lemma CleanOtherTablesUnchanged(tableName: string, f: Frame)
    requires tableName != EmployeeCounts && tableName != CompanySpecialities && tableName != CompanyIndustries
    ensures Clean(tableName, f) == Success(f)
  {
  }

  /** After the conversion every row keeps its columns and every time_recorded
      cell is a timestamp or null. */
  lemma ConvertTimeRecordedTimestamps(f: Frame, g: Frame)
    requires ConvertTimeRecorded(f) == Success(g)
    ensures forall k :: 0 <= k < |g.rows| ==>
      g.rows[k].Keys == f.rows[k].Keys &&
      (Lookup(g.rows[k], TimeRecorded).Time? || Lookup(g.rows[k], TimeRecorded).Null?)
  {
  }

  /** Cleaning fails exactly when a rule applies and either, for
      employee_counts, time_recorded is missing or holds a cell that is not
      convertible epoch seconds, or the frame is not empty and a key column
      is missing. */
  lemma CleanFailsIff(tableName: string, f: Frame)
    ensures Clean(tableName, f).Failure? <==>
      RuleFor(tableName).Some? &&
      ((RuleFor(tableName).value.convertsTime &&
        (TimeRecorded !in f.columns || !AllEpochConvertible(f.rows))) ||
       (!IsEmpty(f) && exists c :: c in RuleFor(tableName).value.subset && c !in f.columns))
  {
    match RuleFor(tableName)
    case None =>
    case Some(rule) =>
      if rule.convertsTime && TimeRecorded in f.columns && AllEpochConvertible(f.rows) {
        var g := ConvertTimeRecorded(f).value;
        assert IsEmpty(g) == IsEmpty(f);
      }
  }

  /** On success, a rule keeps the columns and exactly the last row of each key
      tuple of the prepared rows, in their original order: keys are unique, none
      is lost, and the table does not grow. */
  lemma CleanKeepsLastPerKey(tableName: string, f: Frame, rule: Rule, g: Frame)
    requires RuleFor(tableName) == Some(rule) && Clean(tableName, f) == Success(g)
    ensures g.columns == f.columns
    ensures f.columns == [] ==> g == f
    ensures f.columns != [] ==>
      g.rows == KeepLast(Prepared(rule, f.rows), rule.subset) &&
      UniqueKeys(g.rows, rule.subset) &&
      KeysOf(g.rows, rule.subset) == KeysOf(Prepared(rule, f.rows), rule.subset) &&
      |g.rows| == |KeysOf(Prepared(rule, f.rows), rule.subset)| <= |f.rows|
  {
    var pre := Prepared(rule, f.rows);
    KeepLastUniqueKeys(pre, rule.subset);
    KeepLastKeepsEveryKey(pre, rule.subset);
    KeepLastLength(pre, rule.subset);
  }

  /** Epoch seconds are injective into timestamps: over a time_recorded column
      of integers and nulls, converting a row changes no key equality. */
  lemma ConvertRowKeyInjective(rows: seq<Row>, subset: seq<string>)
    requires forall k :: 0 <= k < |rows| ==> Lookup(rows[k], TimeRecorded).Int? || Lookup(rows[k], TimeRecorded).Null?
    ensures KeyInjectiveOn(ConvertRow, rows, subset)
  {
    forall r1, r2 | r1 in rows && r2 in rows
      ensures Key(ConvertRow(r1), subset) == Key(ConvertRow(r2), subset) <==> Key(r1, subset) == Key(r2, subset)
    {
      if Key(ConvertRow(r1), subset) == Key(ConvertRow(r2), subset) {
        forall i | 0 <= i < |subset| ensures Lookup(r1, subset[i]) == Lookup(r2, subset[i]) {
          assert Key(ConvertRow(r1), subset)[i] == Key(ConvertRow(r2), subset)[i];
        }
      }
    }
  }

  /** employee_counts deduplicates on the converted timestamps, and because the
      conversion is injective this keeps the same rows as deduplicating on the
      raw epoch seconds and converting afterwards. */
  lemma EmployeeCountsSameRowsAsRawSeconds(f: Frame, g: Frame)
    requires forall k :: 0 <= k < |f.rows| ==> Lookup(f.rows[k], TimeRecorded).Int? || Lookup(f.rows[k], TimeRecorded).Null?
    requires Clean(EmployeeCounts, f) == Success(g)
    ensures g.rows == ConvertRows(KeepLast(f.rows, [CompanyId, TimeRecorded]))
  {
    ConvertRowKeyInjective(f.rows, [CompanyId, TimeRecorded]);
    KeepLastCommutesWithMap(ConvertRow, f.rows, [CompanyId, TimeRecorded]);
  }

  /** Converting a row that was already converted changes nothing. */
  lemma ConvertRowIdempotent(r: Row)
    ensures ConvertRow(ConvertRow(r)) == ConvertRow(r)
  {
  }

  /** A well-formed frame stays well-formed, with the same columns, when cleaned. */
  lemma CleanPreservesWellFormed(tableName: string, f: Frame, g: Frame)
    requires WellFormed(f) && Clean(tableName, f) == Success(g)
    ensures WellFormed(g) && g.columns == f.columns
  {
    match RuleFor(tableName)
    case None =>
    case Some(rule) =>
      var pre := Prepared(rule, f.rows);
      assert forall k :: 0 <= k < |pre| ==> pre[k].Keys == ColumnSet(f.columns);
      KeepLastRowsFromInput(pre, rule.subset);
      assert g.rows == pre || g.rows == KeepLast(pre, rule.subset);
      forall k | 0 <= k < |g.rows| ensures g.rows[k].Keys == ColumnSet(g.columns) {
        assert g.rows[k] in pre;
      }
  }

  /** Cleaning a cleaned frame again returns it unchanged, for every table name:
      its keys are already unique and its time_recorded cells already timestamps. */
  lemma CleanIdempotent(tableName: string, f: Frame, g: Frame)
    requires Clean(tableName, f) == Success(g)
    ensures Clean(tableName, g) == Success(g)
  {
    match RuleFor(tableName)
    case None =>
    case Some(rule) =>
      var pre := Prepared(rule, f.rows);
      KeepLastRowsFromInput(pre, rule.subset);
      KeepLastIdempotent(pre, rule.subset);
      assert IsEmpty(g) || MissingColumnsOf(g, rule.subset) == {};
      if rule.convertsTime {
        forall k | 0 <= k < |g.rows|
          ensures EpochConvertible(Lookup(g.rows[k], TimeRecorded))
          ensures ConvertRow(g.rows[k]) == g.rows[k]
        {
          assert g.rows[k] in pre;
          var i :| 0 <= i < |pre| && pre[i] == g.rows[k];
          ConvertRowIdempotent(f.rows[i]);
        }
        assert ConvertRows(g.rows) == g.rows;
      }
  }
}
