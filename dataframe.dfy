/**
 * The DataFrame the importer mutates in place: the time_recorded column is
 * overwritten and drop_duplicates(..., inplace=True) replaces the rows. Each
 * method is proved against the pure rule in Cleaning.
 */
module DataFrames {
  import opened Wrappers
  import opened Frames
  import opened Dedup
  import opened Cleaning

  /** pd.to_datetime(column, unit='s') over the time_recorded cells of rows:
      the converted rows, or None as soon as a cell is rejected. */
  method ConvertColumn(rows: seq<Row>) returns (converted: Option<seq<Row>>)
    ensures converted.Some? <==> AllEpochConvertible(rows)
    ensures converted.Some? ==> converted.value == ConvertRows(rows)
  {
    var done: seq<Row> := [];
    var i := 0;
    while i < |rows|
      invariant 0 <= i <= |rows|
      invariant |done| == i
      invariant forall k :: 0 <= k < i ==> done[k] == ConvertRow(rows[k])
      invariant forall k :: 0 <= k < i ==> EpochConvertible(Lookup(rows[k], TimeRecorded))
    {
      if !EpochConvertible(Lookup(rows[i], TimeRecorded)) {
        return None;
      }
      done := done + [ConvertRow(rows[i])];
      i := i + 1;
    }
    return Some(done);
  }

  /** The scan behind drop_duplicates(keep='last'): walk the rows from the
      end, remembering the key tuples already seen, and keep a row only when
      its key tuple is new; the result is the last row of each key tuple in
      the original order. */
  method KeepLastRows(rows: seq<Row>, subset: seq<string>) returns (kept: seq<Row>)
    ensures kept == KeepLast(rows, subset)
  {
    kept := [];
    var seen: set<seq<Cell>> := {};
    var i := |rows|;
    while i > 0
      invariant 0 <= i <= |rows|
      invariant kept == KeepLast(rows[i..], subset)
      invariant seen == KeysOf(rows[i..], subset)
    {
      i := i - 1;
      var key := Key(rows[i], subset);
      assert rows[i..][0] == rows[i] && rows[i..][1..] == rows[i + 1..];
      KeysOfCons(rows[i..], subset);
      if key !in seen {
        kept := [rows[i]] + kept;
      }
      seen := seen + {key};
    }
    assert rows[0..] == rows;
  }

  class DataFrame {
    var columns: seq<string>
    var rows: seq<Row>

    ghost predicate Valid()
      reads this
    {
      WellFormed(Frame(columns, rows))
    }

    /** The frame's current value. */
    function Value(): Frame
      reads this
    {
      Frame(columns, rows)
    }

    /** The frame pd.read_csv produced. */
    constructor (f: Frame)
      requires WellFormed(f)
      ensures Valid() && Value() == f
    {
      columns := f.columns;
      rows := f.rows;
    }

    /** Overwrite time_recorded with timestamps converted from epoch seconds.
        The whole column is converted before it is assigned, so on an error
        the frame is left unchanged. */
    method ConvertTimeRecorded() returns (err: Option<TransformError>)
      requires Valid()
      modifies this
      ensures Valid()
      ensures match Cleaning.ConvertTimeRecorded(old(Value()))
        case Success(g) => err == None && Value() == g
        case Failure(e) => err == Some(e) && Value() == old(Value())
    {
      if TimeRecorded !in columns {
        return Some(MissingColumns({TimeRecorded}));
      }
      var converted := ConvertColumn(rows);
      if converted.None? {
        return Some(NotDatetimeConvertible);
      }
      assert WellFormed(Frame(columns, converted.value)) by {
        assert forall k :: 0 <= k < |rows| ==> converted.value[k].Keys == rows[k].Keys;
      }
      rows := converted.value;
      return None;
    }

    /** Keep the last row of each key tuple, scanning from the end and
        remembering the key tuples already seen; the kept rows are
        renumbered from 0 in their original order. An empty frame is left
        as it is before the key columns are looked up. */
    method DropDuplicates(subset: seq<string>) returns (err: Option<TransformError>)
      requires Valid()
      modifies this
      ensures Valid()
      ensures match Cleaning.DropDuplicates(old(Value()), subset)
        case Success(g) => err == None && Value() == g
        case Failure(e) => err == Some(e) && Value() == old(Value())
    {
      if |rows| == 0 || |columns| == 0 {
        return None;
      }
      var missing := set c | c in subset && c !in columns;
      if missing != {} {
        assert missing == MissingColumnsOf(Value(), subset);
        return Some(MissingColumns(missing));
      }
      assert MissingColumnsOf(Value(), subset) == {};
      var kept := KeepLastRows(rows, subset);
      KeepLastRowsFromInput(rows, subset);
      forall k | 0 <= k < |kept| ensures kept[k].Keys == ColumnSet(columns) {
        assert kept[k] in rows;
      }
      rows := kept;
      return None;
    }

    /** The cleaning branch for the table named tableName. On an error the
        run stops; by then employee_counts may already hold its converted
        column. */
    method Clean(tableName: string) returns (err: Option<TransformError>)
      requires Valid()
      modifies this
      ensures Valid()
      ensures match Cleaning.Clean(tableName, old(Value()))
        case Success(g) => err == None && Value() == g
        case Failure(e) =>
          err == Some(e) &&
          (Value() == old(Value()) ||
           (tableName == EmployeeCounts && Cleaning.ConvertTimeRecorded(old(Value())) == Success(Value())))
    {
      if tableName == EmployeeCounts {
        err := ConvertTimeRecorded();
        if err.None? {
          err := DropDuplicates([CompanyId, TimeRecorded]);
        }
      } else if tableName == CompanySpecialities {
        err := DropDuplicates([CompanyId, Speciality]);
      } else if tableName == CompanyIndustries {
        err := DropDuplicates([CompanyId, Industry]);
      } else {
        err := None;
      }
    }
  }
}
