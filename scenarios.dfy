/**
 * Worked examples of the cleaning rule and the table-name derivation on
 * small concrete inputs.
 */
module Scenarios {
  import opened Wrappers
  import opened Frames
  import opened Dedup
  import opened Paths
  import opened Cleaning

  /** company_specialities with rows (1, "ai"), (1, "ai"), (2, "web") keeps
      exactly (1, "ai") and (2, "web"), in that order. */
  lemma CompanySpecialitiesExample()
    ensures
      var ai := map[CompanyId := Int(1), Speciality := Str("ai")];
      var web := map[CompanyId := Int(2), Speciality := Str("web")];
      var cols := [CompanyId, Speciality];
      Clean(CompanySpecialities, Frame(cols, [ai, ai, web])) == Success(Frame(cols, [ai, web]))
  {
    var ai := map[CompanyId := Int(1), Speciality := Str("ai")];
    var web := map[CompanyId := Int(2), Speciality := Str("web")];
    var subset := [CompanyId, Speciality];
    var rows := [ai, ai, web];
    assert Key(ai, subset) == [Int(1), Str("ai")];
    assert Key(web, subset) == [Int(2), Str("web")];
    assert !IsLast(rows, subset, 0) by {
      assert Key(rows[1], subset) == Key(rows[0], subset);
    }
    KeepLastStep(rows, subset);
    KeepLastStep(rows[1..], subset);
    KeepLastStep(rows[2..], subset);
    assert rows[1..][1..] == rows[2..] && rows[2..][1..] == [];
    assert KeepLast(rows[2..], subset) == [web];
    assert KeepLast(rows[1..], subset) == [ai, web];
    assert KeepLast(rows, subset) == [ai, web];
    assert MissingColumnsOf(Frame(subset, rows), subset) == {};
  }

  /** employee_counts with rows (1, 1000), (1, 1000), (2, 2000), the second
      column in epoch seconds, keeps (1, timestamp 1000) and (2, timestamp 2000):
      the first row for company 1 is dropped. */
  lemma EmployeeCountsExample()
    ensures
      var cols := [CompanyId, TimeRecorded];
      var r1 := map[CompanyId := Int(1), TimeRecorded := Int(1000)];
      var r2 := map[CompanyId := Int(2), TimeRecorded := Int(2000)];
      var t1 := map[CompanyId := Int(1), TimeRecorded := Time(FromEpochSeconds(1000))];
      var t2 := map[CompanyId := Int(2), TimeRecorded := Time(FromEpochSeconds(2000))];
      Clean(EmployeeCounts, Frame(cols, [r1, r1, r2])) == Success(Frame(cols, [t1, t2]))
  {
    var cols := [CompanyId, TimeRecorded];
    var r1 := map[CompanyId := Int(1), TimeRecorded := Int(1000)];
    var r2 := map[CompanyId := Int(2), TimeRecorded := Int(2000)];
    var t1 := map[CompanyId := Int(1), TimeRecorded := Time(FromEpochSeconds(1000))];
    var t2 := map[CompanyId := Int(2), TimeRecorded := Time(FromEpochSeconds(2000))];
    assert ConvertRow(r1) == t1 && ConvertRow(r2) == t2;
    var converted := [t1, t1, t2];
    assert ConvertRows([r1, r1, r2]) == converted;
    assert ConvertTimeRecorded(Frame(cols, [r1, r1, r2])) == Success(Frame(cols, converted));
    assert Key(t1, cols) == [Int(1), Time(FromEpochSeconds(1000))];
    assert Key(t2, cols) == [Int(2), Time(FromEpochSeconds(2000))];
    assert !IsLast(converted, cols, 0) by {
      assert Key(converted[1], cols) == Key(converted[0], cols);
    }
    KeepLastStep(converted, cols);
    KeepLastStep(converted[1..], cols);
    KeepLastStep(converted[2..], cols);
    assert converted[1..][1..] == converted[2..] && converted[2..][1..] == [];
    assert KeepLast(converted[2..], cols) == [t2];
    assert KeepLast(converted[1..], cols) == [t1, t2];
    assert KeepLast(converted, cols) == [t1, t2];
    assert MissingColumnsOf(Frame(cols, converted), cols) == {};
  }

  /** A header-only company_industries frame without an industry column is
      returned as it is: drop_duplicates returns before it looks up the key
      columns. With one row, the same frame fails naming the missing column. */
  lemma EmptyFrameExample()
    ensures Clean(CompanyIndustries, Frame([CompanyId], [])) == Success(Frame([CompanyId], []))
    ensures Clean(CompanyIndustries, Frame([CompanyId], [map[CompanyId := Int(1)]])) ==
      Failure(MissingColumns({Industry}))
  {
    var f := Frame([CompanyId], [map[CompanyId := Int(1)]]);
    assert Industry in MissingColumnsOf(f, [CompanyId, Industry]);
    assert MissingColumnsOf(f, [CompanyId, Industry]) == {Industry};
  }

  /** Ten billion seconds lies past the year 2262, outside datetime64[ns],
      so an employee_counts frame holding it fails to convert. */
  lemma OutOfRangeSecondsExample()
    ensures Clean(EmployeeCounts, Frame([CompanyId, TimeRecorded],
      [map[CompanyId := Int(1), TimeRecorded := Int(10_000_000_000)]])) == Failure(NotDatetimeConvertible)
  {
    var rows := [map[CompanyId := Int(1), TimeRecorded := Int(10_000_000_000)]];
    assert !EpochConvertible(Lookup(rows[0], TimeRecorded));
  }

  /** The file archive/employee_counts.csv loads into table employee_counts. */
  lemma TableNameExample()
    ensures TableName("archive/employee_counts.csv") == "employee_counts"
  {
    var p := "archive/employee_counts.csv";
    LastIndexOfIs(p, '/', 7);
    assert Basename(p) == "employee_counts" + CsvSuffix;
    TableNameOfCsvBasename(p, "employee_counts");
  }
}
