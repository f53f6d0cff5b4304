/**
 * Keep-last deduplication over a subset of key columns, the row operation
 * behind drop_duplicates(subset=K, keep='last', ignore_index=True).
 *
 * KeepLast is the executable definition (it walks the rows front to back and
 * drops a row whenever a later row carries the same key tuple); LastIndices
 * is an independent reference definition (the positions, in file order, of
 * rows that no later row shares a key with). The lemmas tie the two together
 * and derive the properties the cleaning step relies on.
 */
module Dedup {
  import opened Frames

  /** Row i has no later row with the same key tuple. */
  predicate IsLast(rows: seq<Row>, subset: seq<string>, i: int)
    requires 0 <= i < |rows|
  {
    forall j :: i < j < |rows| ==> Key(rows[j], subset) != Key(rows[i], subset)
  }

  /** Keep, for each key tuple, only the row that occurs last; retained rows
      stay in input order and are renumbered from 0. */
  function KeepLast(rows: seq<Row>, subset: seq<string>): seq<Row>
    decreases |rows|
  {
    if rows == [] then []
    else if Key(rows[0], subset) in KeysOf(rows[1..], subset) then KeepLast(rows[1..], subset)
    else [rows[0]] + KeepLast(rows[1..], subset)
  }

  predicate StrictlyIncreasing(idx: seq<nat>) {
    forall a, b :: 0 <= a < b < |idx| ==> idx[a] < idx[b]
  }

  /** The positions at or after `from`, in increasing order, of rows that are
      last with their key. */
  function LastIndicesFrom(rows: seq<Row>, subset: seq<string>, from: nat): (idx: seq<nat>)
    requires from <= |rows|
    ensures StrictlyIncreasing(idx)
    ensures forall k :: 0 <= k < |idx| ==> from <= idx[k] < |rows| && IsLast(rows, subset, idx[k])
    decreases |rows| - from
  {
    if from == |rows| then []
    else (if IsLast(rows, subset, from) then [from] else []) + LastIndicesFrom(rows, subset, from + 1)
  }

  function LastIndices(rows: seq<Row>, subset: seq<string>): (idx: seq<nat>)
    ensures StrictlyIncreasing(idx)
    ensures forall k :: 0 <= k < |idx| ==> idx[k] < |rows| && IsLast(rows, subset, idx[k])
  {
    LastIndicesFrom(rows, subset, 0)
  }

  /** The rows at the given positions, in the order of the positions. */
  function Select(rows: seq<Row>, idx: seq<nat>): (s: seq<Row>)
    requires forall k :: 0 <= k < |idx| ==> idx[k] < |rows|
    ensures |s| == |idx|
    ensures forall k :: 0 <= k < |idx| ==> s[k] == rows[idx[k]]
  {
    seq(|idx|, k requires 0 <= k < |idx| => rows[idx[k]])
  }

  /** Every row that is last with its key is listed by LastIndicesFrom. */
  lemma {:induction false} LastIndicesFromComplete(rows: seq<Row>, subset: seq<string>, from: nat, i: int)
    requires from <= i < |rows| && IsLast(rows, subset, i)
    ensures i in LastIndicesFrom(rows, subset, from)
    decreases |rows| - from
  {
    if from < i {
      LastIndicesFromComplete(rows, subset, from + 1, i);
    }
  }

  /** A row is kept by the suffix walk exactly when no later row shares its key. */
  lemma KeyLaterIffNotLast(rows: seq<Row>, subset: seq<string>, i: int)
    requires 0 <= i < |rows|
    ensures Key(rows[i], subset) in KeysOf(rows[i + 1..], subset) <==> !IsLast(rows, subset, i)
  {
    var later := rows[i + 1..];
    if Key(rows[i], subset) in KeysOf(later, subset) {
      var j :| 0 <= j < |later| && Key(later[j], subset) == Key(rows[i], subset);
      assert rows[i + 1 + j] == later[j];
    }
    if !IsLast(rows, subset, i) {
      var j :| i < j < |rows| && Key(rows[j], subset) == Key(rows[i], subset);
      assert later[j - i - 1] == rows[j];
    }
  }

  lemma {:induction false} KeepLastSuffix(rows: seq<Row>, subset: seq<string>, from: nat)
    requires from <= |rows|
    ensures KeepLast(rows[from..], subset) == Select(rows, LastIndicesFrom(rows, subset, from))
    decreases |rows| - from
  {
    if from < |rows| {
      var s := rows[from..];
      assert s[0] == rows[from];
      assert s[1..] == rows[from + 1..];
      KeyLaterIffNotLast(rows, subset, from);
      KeepLastSuffix(rows, subset, from + 1);
    }
  }

  /** KeepLast keeps exactly the rows that are last with their key, in input
      order: its result is the input restricted to LastIndices, which are
      increasing positions containing every last occurrence and nothing else. */
  lemma KeepLastIsLastOccurrences(rows: seq<Row>, subset: seq<string>)
    ensures KeepLast(rows, subset) == Select(rows, LastIndices(rows, subset))
    ensures forall i :: 0 <= i < |rows| ==> (i in LastIndices(rows, subset) <==> IsLast(rows, subset, i))
  {
    KeepLastSuffix(rows, subset, 0);
    assert rows[0..] == rows;
    forall i | 0 <= i < |rows| && IsLast(rows, subset, i)
      ensures i in LastIndices(rows, subset)
    {
      LastIndicesFromComplete(rows, subset, 0, i);
    }
  }

  /** Every retained row is a row of the input. */
  lemma KeepLastRowsFromInput(rows: seq<Row>, subset: seq<string>)
    ensures forall r :: r in KeepLast(rows, subset) ==> r in rows
  {
    KeepLastIsLastOccurrences(rows, subset);
  }

  lemma KeysOfCons(rows: seq<Row>, subset: seq<string>)
    requires rows != []
    ensures KeysOf(rows, subset) == {Key(rows[0], subset)} + KeysOf(rows[1..], subset)
  {
    var tail := rows[1..];
    forall k | k in KeysOf(rows, subset)
      ensures k in {Key(rows[0], subset)} + KeysOf(tail, subset)
    {
      var i :| 0 <= i < |rows| && Key(rows[i], subset) == k;
      if i > 0 {
        assert tail[i - 1] == rows[i];
      }
    }
    forall k | k in KeysOf(tail, subset)
      ensures k in KeysOf(rows, subset)
    {
      var i :| 0 <= i < |tail| && Key(tail[i], subset) == k;
      assert rows[i + 1] == tail[i];
    }
  }

  /** No key tuple is lost and none is invented. */
  lemma {:induction false} KeepLastKeepsEveryKey(rows: seq<Row>, subset: seq<string>)
    ensures KeysOf(KeepLast(rows, subset), subset) == KeysOf(rows, subset)
    decreases |rows|
  {
    if rows != [] {
      KeepLastKeepsEveryKey(rows[1..], subset);
      KeysOfCons(rows, subset);
      var rest := KeepLast(rows[1..], subset);
      if Key(rows[0], subset) !in KeysOf(rows[1..], subset) {
        KeysOfCons([rows[0]] + rest, subset);
        assert ([rows[0]] + rest)[1..] == rest;
      }
    }
  }

  /** Putting a row whose key is new in front of rows with unique keys keeps them unique. */
  lemma UniqueKeysCons(r: Row, rest: seq<Row>, subset: seq<string>)
    requires UniqueKeys(rest, subset) && Key(r, subset) !in KeysOf(rest, subset)
    ensures UniqueKeys([r] + rest, subset)
  {
    var out := [r] + rest;
    forall i, j | 0 <= i < j < |out|
      ensures Key(out[i], subset) != Key(out[j], subset)
    {
      assert out[j] == rest[j - 1];
      if i > 0 {
        assert out[i] == rest[i - 1];
      }
    }
  }

  /** After keep-last deduplication no two rows share a key tuple. */
  lemma {:induction false} KeepLastUniqueKeys(rows: seq<Row>, subset: seq<string>)
    ensures UniqueKeys(KeepLast(rows, subset), subset)
    decreases |rows|
  {
    if rows != [] {
      var tail := rows[1..];
      KeepLastUniqueKeys(tail, subset);
      if Key(rows[0], subset) !in KeysOf(tail, subset) {
        KeepLastKeepsEveryKey(tail, subset);
        UniqueKeysCons(rows[0], KeepLast(tail, subset), subset);
      }
    }
  }

  /** A table has at most as many distinct keys as rows, exactly as many when
      its keys are unique. */
  lemma {:induction false} KeyCount(rows: seq<Row>, subset: seq<string>)
    ensures |KeysOf(rows, subset)| <= |rows|
    ensures UniqueKeys(rows, subset) ==> |KeysOf(rows, subset)| == |rows|
    decreases |rows|
  {
    if rows == [] {
      assert KeysOf(rows, subset) == {};
    } else {
      KeysOfCons(rows, subset);
      KeyCount(rows[1..], subset);
      if UniqueKeys(rows, subset) {
        assert UniqueKeys(rows[1..], subset) by {
          forall i, j | 0 <= i < j < |rows[1..]|
            ensures Key(rows[1..][i], subset) != Key(rows[1..][j], subset)
          {
            assert rows[1..][i] == rows[i + 1] && rows[1..][j] == rows[j + 1];
          }
        }
        KeyLaterIffNotLast(rows, subset, 0);
        assert rows[0 + 1..] == rows[1..];
      }
    }
  }

  /** The deduplicated table has one row per distinct key, so it is never
      longer than its input. */
  lemma KeepLastLength(rows: seq<Row>, subset: seq<string>)
    ensures |KeepLast(rows, subset)| == |KeysOf(rows, subset)| <= |rows|
  {
    KeepLastKeepsEveryKey(rows, subset);
    KeepLastUniqueKeys(rows, subset);
    KeyCount(KeepLast(rows, subset), subset);
    KeyCount(rows, subset);
  }

  /** A table whose keys are already unique is left as it is. */
  lemma {:induction false} UniqueKeysFixpoint(rows: seq<Row>, subset: seq<string>)
    requires UniqueKeys(rows, subset)
    ensures KeepLast(rows, subset) == rows
    decreases |rows|
  {
    if rows != [] {
      assert UniqueKeys(rows[1..], subset) by {
        forall i, j | 0 <= i < j < |rows[1..]|
          ensures Key(rows[1..][i], subset) != Key(rows[1..][j], subset)
        {
          assert rows[1..][i] == rows[i + 1] && rows[1..][j] == rows[j + 1];
        }
      }
      UniqueKeysFixpoint(rows[1..], subset);
      KeyLaterIffNotLast(rows, subset, 0);
      assert rows[0 + 1..] == rows[1..];
    }
  }

  /** Deduplicating a deduplicated table changes nothing. */
  lemma KeepLastIdempotent(rows: seq<Row>, subset: seq<string>)
    ensures KeepLast(KeepLast(rows, subset), subset) == KeepLast(rows, subset)
  {
    KeepLastUniqueKeys(rows, subset);
    UniqueKeysFixpoint(KeepLast(rows, subset), subset);
  }

  /** Rewrite every row with f. */
  function MapRows(f: Row -> Row, rows: seq<Row>): (out: seq<Row>)
    ensures |out| == |rows|
    ensures forall i :: 0 <= i < |rows| ==> out[i] == f(rows[i])
  {
    seq(|rows|, i requires 0 <= i < |rows| => f(rows[i]))
  }

  lemma MapRowsCons(f: Row -> Row, r: Row, rest: seq<Row>)
    ensures MapRows(f, [r] + rest) == [f(r)] + MapRows(f, rest)
  {
    var lhs, rhs := MapRows(f, [r] + rest), [f(r)] + MapRows(f, rest);
    assert |lhs| == |rhs|;
    forall i | 0 <= i < |lhs| ensures lhs[i] == rhs[i] {
      if i > 0 {
        assert ([r] + rest)[i] == rest[i - 1];
      }
    }
  }

  /** f neither merges nor splits the key tuples of the given rows. */
  predicate KeyInjectiveOn(f: Row -> Row, rows: seq<Row>, subset: seq<string>) {
    forall r1, r2 :: r1 in rows && r2 in rows ==>
      (Key(f(r1), subset) == Key(f(r2), subset) <==> Key(r1, subset) == Key(r2, subset))
  }

  /** Under a key-injective f, a row is last with its key before the rewrite
      exactly when it is afterwards. */
  lemma MapRowsIsLast(f: Row -> Row, rows: seq<Row>, subset: seq<string>, i: int)
    requires KeyInjectiveOn(f, rows, subset) && 0 <= i < |rows|
    ensures IsLast(MapRows(f, rows), subset, i) <==> IsLast(rows, subset, i)
  {
    var mapped := MapRows(f, rows);
    if !IsLast(rows, subset, i) {
      var j :| i < j < |rows| && Key(rows[j], subset) == Key(rows[i], subset);
      assert Key(mapped[j], subset) == Key(mapped[i], subset);
    }
    if !IsLast(mapped, subset, i) {
      var j :| i < j < |mapped| && Key(mapped[j], subset) == Key(mapped[i], subset);
      assert Key(rows[j], subset) == Key(rows[i], subset);
    }
  }

  /** One step of KeepLast, phrased with IsLast instead of the key set. */
  lemma KeepLastStep(rows: seq<Row>, subset: seq<string>)
    requires rows != []
    ensures KeepLast(rows, subset) ==
      (if IsLast(rows, subset, 0) then [rows[0]] else []) + KeepLast(rows[1..], subset)
  {
    KeyLaterIffNotLast(rows, subset, 0);
    assert rows[0 + 1..] == rows[1..];
  }

  /** Rewriting rows with a key-injective f before or after deduplication
      yields the same table: the same rows are kept. */
  lemma {:induction false} KeepLastCommutesWithMap(f: Row -> Row, rows: seq<Row>, subset: seq<string>)
    requires KeyInjectiveOn(f, rows, subset)
    ensures KeepLast(MapRows(f, rows), subset) == MapRows(f, KeepLast(rows, subset))
    decreases |rows|
  {
    if rows != [] {
      var mapped := MapRows(f, rows);
      var tail := rows[1..];
      var rest := KeepLast(tail, subset);
      assert mapped[1..] == MapRows(f, tail);
      KeepLastCommutesWithMap(f, tail, subset);
      KeepLastStep(rows, subset);
      KeepLastStep(mapped, subset);
      MapRowsIsLast(f, rows, subset, 0);
      if IsLast(rows, subset, 0) {
        MapRowsCons(f, rows[0], rest);
      }
    }
  }
}
