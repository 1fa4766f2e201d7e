/**
 * Description dictionaries as the result of a sequence of writes
 * `descriptions[path] = value`, in order. Both the schema flattener and the
 * CSV upload build their dictionary this way, so a later write to a path
 * replaces an earlier one.
 */
module Descriptions {
  import opened SchemaFields

  /** The dictionary left by writing `ps` in order into an empty dictionary. */
  function Assign(ps: seq<Entry>): Mapping
  {
    if ps == [] then map[] else Assign(ps[..|ps| - 1])[ps[|ps| - 1].0 := ps[|ps| - 1].1]
  }

  /** One more write updates the dictionary at that path. */
  lemma AssignSnoc(ps: seq<Entry>, e: Entry)
    ensures Assign(ps + [e]) == Assign(ps)[e.0 := e.1]
  {
    assert (ps + [e])[..|ps|] == ps;
  }

  /** The keys are exactly the written paths. */
  lemma {:induction false} AssignKeys(ps: seq<Entry>)
    ensures forall k :: k in Assign(ps) <==> exists e :: e in ps && e.0 == k
  {
    if ps != [] {
      var init, last := ps[..|ps| - 1], ps[|ps| - 1];
      AssignKeys(init);
      assert ps == init + [last];
      forall k | exists e :: e in ps && e.0 == k
        ensures k in Assign(ps)
      {
        var e :| e in ps && e.0 == k;
        if e != last {
          assert e in init;
        }
      }
    }
  }

  /** Every stored value was written under its key. */
  lemma {:induction false} AssignSound(ps: seq<Entry>, k: string)
    requires k in Assign(ps)
    ensures (k, Assign(ps)[k]) in ps
  {
    var init, last := ps[..|ps| - 1], ps[|ps| - 1];
    assert ps == init + [last];
    if k != last.0 {
      AssignSound(init, k);
    }
  }

  /** The last write to a path is the one that stays. */
  lemma {:induction false} AssignLastWins(ps: seq<Entry>, i: nat)
    requires i < |ps|
    requires forall j :: i < j < |ps| ==> ps[j].0 != ps[i].0
    ensures ps[i].0 in Assign(ps) && Assign(ps)[ps[i].0] == ps[i].1
  {
    if i < |ps| - 1 {
      AssignLastWins(ps[..|ps| - 1], i);
    }
  }

  /** When no path is written with two different values, every write survives. */
  lemma AssignFunctional(ps: seq<Entry>)
    requires forall e, e' :: e in ps && e' in ps && e.0 == e'.0 ==> e.1 == e'.1
    ensures forall e :: e in ps ==> e.0 in Assign(ps) && Assign(ps)[e.0] == e.1
  {
    AssignKeys(ps);
    forall e | e in ps
      ensures e.0 in Assign(ps) && Assign(ps)[e.0] == e.1
    {
      AssignSound(ps, e.0);
    }
  }

  /** When no path is written with two different values, the order of the writes does not matter. */
  lemma AssignReordered(ps: seq<Entry>, qs: seq<Entry>)
    requires multiset(ps) == multiset(qs)
    requires forall e, e' :: e in ps && e' in ps && e.0 == e'.0 ==> e.1 == e'.1
    ensures Assign(ps) == Assign(qs)
  {
    forall e | e in qs ensures e in ps {
      assert e in multiset(qs);
    }
    forall e | e in ps ensures e in qs {
      assert e in multiset(ps);
    }
    AssignKeys(ps);
    AssignKeys(qs);
    AssignFunctional(ps);
    AssignFunctional(qs);
    forall k | k in Assign(ps)
      ensures k in Assign(qs) && Assign(ps)[k] == Assign(qs)[k]
    {
      AssignSound(ps, k);
    }
  }

  /** A sequence with distinct paths holds each entry at most once. */
  lemma {:induction false} DistinctPathsCount(ps: seq<Entry>, e: Entry)
    requires DistinctPaths(ps)
    ensures multiset(ps)[e] <= 1
  {
    if ps != [] {
      var init, last := ps[..|ps| - 1], ps[|ps| - 1];
      assert ps == init + [last];
      DistinctPathsCount(init, e);
      if last == e {
        forall k | 0 <= k < |init| ensures init[k] != e {
          assert init[k] == ps[k];
        }
        assert e !in init;
      }
    }
  }

  /** An entry at two positions occurs twice in the multiset. */
  lemma TwoPositions(ps: seq<Entry>, i: nat, j: nat)
    requires i < j < |ps|
    ensures ps[i] == ps[j] ==> multiset(ps)[ps[i]] >= 2
  {
    assert ps == ps[..j] + [ps[j]] + ps[j + 1..];
    assert ps[..j][i] == ps[i];
  }

  /** In a sequence with distinct paths, entries with the same path are the same entry. */
  lemma DistinctPathsMembers(ps: seq<Entry>, e: Entry, e': Entry)
    requires DistinctPaths(ps) && e in ps && e' in ps
    ensures e.0 == e'.0 ==> e == e'
  {
    var i :| 0 <= i < |ps| && ps[i] == e;
    var j :| 0 <= j < |ps| && ps[j] == e';
  }

  /** Distinct paths survive any reordering of the writes. */
  lemma DistinctPathsReordered(ps: seq<Entry>, qs: seq<Entry>)
    requires multiset(ps) == multiset(qs)
    requires DistinctPaths(ps)
    ensures DistinctPaths(qs)
  {
    forall i, j | 0 <= i < j < |qs|
      ensures qs[i].0 != qs[j].0
    {
      var e, e' := qs[i], qs[j];
      assert e in multiset(qs) && e' in multiset(qs);
      TwoPositions(qs, i, j);
      DistinctPathsCount(ps, e);
      DistinctPathsMembers(ps, e, e');
    }
  }

  // ---------------------------------------------------------------------------
  // Rows of the two-column description file

  /** Python's IndexError on `row[1]`, raised by the first row that has fewer than two columns. */
  datatype RowError = IndexError(row: nat)

  datatype Result<+T> = Success(value: T) | Failure(error: RowError)

  /** The index of the first row with fewer than two columns, or `|rows|` if there is none. */
  function FirstShortRow(rows: seq<seq<string>>): (k: nat)
    ensures k <= |rows|
    ensures k < |rows| ==> |rows[k]| < 2
    ensures forall i :: 0 <= i < k ==> |rows[i]| >= 2
  {
    if rows == [] then 0
    else if |rows[0]| < 2 then 0
    else 1 + FirstShortRow(rows[1..])
  }

  /** The writes `row[0] -> row[1]`, one per row, in file order. */
  function RowWrites(rows: seq<seq<string>>): (ps: seq<Entry>)
    requires forall i :: 0 <= i < |rows| ==> |rows[i]| >= 2
    ensures |ps| == |rows|
  {
    seq(|rows|, i requires 0 <= i < |rows| => (rows[i][0], Some(rows[i][1])))
  }

  /**
   * The dictionary comprehension `{row[0]: row[1] for row in rows}`: every row
   * (the first one included) is written in order; a row with fewer than two
   * columns aborts the whole comprehension.
   */
  function RowsToMapping(rows: seq<seq<string>>): (r: Result<Mapping>)
    ensures r.Failure? <==> exists i :: 0 <= i < |rows| && |rows[i]| < 2
    ensures r.Failure? ==> r.error.row < |rows| && |rows[r.error.row]| < 2
    ensures r.Failure? ==> forall i :: 0 <= i < r.error.row ==> |rows[i]| >= 2
  {
    var k := FirstShortRow(rows);
    if k < |rows| then Failure(IndexError(k)) else Success(Assign(RowWrites(rows)))
  }

  /** The paths of the result are exactly the first columns of the rows, header row included. */
  lemma RowsToMappingKeys(rows: seq<seq<string>>)
    requires RowsToMapping(rows).Success?
    ensures forall i :: 0 <= i < |rows| ==> rows[i][0] in RowsToMapping(rows).value
    ensures forall k :: k in RowsToMapping(rows).value ==> exists i :: 0 <= i < |rows| && rows[i][0] == k
  {
    var ps := RowWrites(rows);
    AssignKeys(ps);
    forall i | 0 <= i < |rows| ensures rows[i][0] in RowsToMapping(rows).value {
      assert ps[i] in ps;
    }
    forall k | k in RowsToMapping(rows).value
      ensures exists i :: 0 <= i < |rows| && rows[i][0] == k
    {
      var e :| e in ps && e.0 == k;
      var i :| 0 <= i < |ps| && ps[i] == e;
      assert rows[i][0] == k;
    }
  }

  /** A path maps to the second column of the last row that names it. */
  lemma RowsToMappingLaterWins(rows: seq<seq<string>>, i: nat)
    requires RowsToMapping(rows).Success?
    requires i < |rows|
    requires forall j :: i < j < |rows| ==> rows[j][0] != rows[i][0]
    ensures rows[i][0] in RowsToMapping(rows).value
    ensures RowsToMapping(rows).value[rows[i][0]] == Some(rows[i][1])
  {
    AssignLastWins(RowWrites(rows), i);
  }
}
