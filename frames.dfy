/**
 * The in-memory table that one CSV file is parsed into: an ordered list of
 * named columns and a list of rows, each row a map from column name to cell.
 * Row positions are the sequence indices, so they always run 0, 1, 2, ...
 */
module Frames {

  /** A second-precision timestamp. Its only constructor takes integer epoch
      seconds, so the conversion from seconds is injective by construction. */
  datatype Timestamp = FromEpochSeconds(seconds: int)

  /** One cell. A null (an empty CSV cell) is an ordinary value equal to itself. */
  datatype Cell = Null | Int(i: int) | Str(s: string) | Time(t: Timestamp)

  type Row = map<string, Cell>

  datatype Frame = Frame(columns: seq<string>, rows: seq<Row>)

  /** The columns of a frame as a set. */
  function ColumnSet(columns: seq<string>): (cs: set<string>)
    ensures forall c :: c in cs <==> c in columns
  {
    set c | c in columns
  }

  /** Column names are distinct and every row has exactly the frame's columns. */
  predicate WellFormed(f: Frame) {
    (forall i, j :: 0 <= i < j < |f.columns| ==> f.columns[i] != f.columns[j]) &&
    (forall k :: 0 <= k < |f.rows| ==> f.rows[k].Keys == ColumnSet(f.columns))
  }

  /** The cell of row r in column c; a column the row lacks reads as Null. */
  function Lookup(r: Row, c: string): Cell {
    if c in r then r[c] else Null
  }

  /** The tuple of values of row r in the key columns, in the order of the subset. */
  function Key(r: Row, subset: seq<string>): (k: seq<Cell>)
    ensures |k| == |subset|
    ensures forall i :: 0 <= i < |subset| ==> k[i] == Lookup(r, subset[i])
  {
    seq(|subset|, i requires 0 <= i < |subset| => Lookup(r, subset[i]))
  }

  /** The set of key tuples that occur in rows. */
  function KeysOf(rows: seq<Row>, subset: seq<string>): (ks: set<seq<Cell>>)
    ensures forall i :: 0 <= i < |rows| ==> Key(rows[i], subset) in ks
    ensures forall k :: k in ks ==> exists i :: 0 <= i < |rows| && Key(rows[i], subset) == k
  {
    set i | 0 <= i < |rows| :: Key(rows[i], subset)
  }

  /** No two rows share a key tuple. */
  predicate UniqueKeys(rows: seq<Row>, subset: seq<string>) {
    forall i, j :: 0 <= i < j < |rows| ==> Key(rows[i], subset) != Key(rows[j], subset)
  }
}
