/**
 * The bulk mutation of updateRow and deleteRow: the fetched row handles are visited in
 * ascending index order, one remote write at a time, and the first write that throws
 * ends the loop with nothing undone.
 *
 * A handle holds the values the store keeps for its row and whether the row has been
 * deleted. What the sheet holds is the values of the handles not deleted, in snapshot
 * order, so the row numbers the client library shifts after each delete are not tracked.
 * Whether a write throws is given by `fails`, the snapshot indices whose write throws.
 */
module Mutation {
  import opened JsValues
  import opened Matching

  datatype RowHandle = RowHandle(values: Row, deleted: bool)

  /** How a loop ended: every write done, or the write of a row threw. */
  datatype Outcome = Completed | Aborted(row: nat)

  /** The handles `getRows()` returns for the given rows. */
  function Fetch(rows: seq<Row>): (r: seq<RowHandle>)
    ensures |r| == |rows|
    ensures forall i :: 0 <= i < |rows| ==> r[i] == RowHandle(rows[i], false)
  {
    seq(|rows|, i requires 0 <= i < |rows| => RowHandle(rows[i], false))
  }

  /** The rows the store holds after the handles' writes, in order. */
  function Stored(handles: seq<RowHandle>): (rows: seq<Row>)
  {
    if handles == [] then []
    else
      var last := |handles| - 1;
      Stored(handles[..last]) + (if handles[last].deleted then [] else [handles[last].values])
  }

  /** Fetching the handles and writing nothing leaves the sheet's rows as they were. */
  lemma {:induction false} FetchStoresRows(rows: seq<Row>)
    ensures Stored(Fetch(rows)) == rows
  {
    if rows != [] {
      var last := |rows| - 1;
      FetchStoresRows(rows[..last]);
      assert Fetch(rows)[..last] == Fetch(rows[..last]);
      assert rows == rows[..last] + [rows[last]];
    }
  }

  /** Position in `targets` of the first write that throws, or |targets| if none does. */
  function FirstFailure(targets: seq<nat>, fails: set<nat>): (k: nat)
    ensures k <= |targets|
    ensures forall j :: 0 <= j < k ==> targets[j] !in fails
    ensures k < |targets| ==> targets[k] in fails
  {
    if targets == [] || targets[0] in fails then 0 else 1 + FirstFailure(targets[1..], fails)
  }

  /** The handles after `assign(patch)` and a successful `save()` on each of `done`. */
  function Patched(handles: seq<RowHandle>, done: seq<nat>, patch: Row): (r: seq<RowHandle>)
    ensures |r| == |handles|
  {
    seq(|handles|, i requires 0 <= i < |handles| =>
      if i in done then handles[i].(values := Assign(handles[i].values, patch)) else handles[i])
  }

  /** The handles after a successful `delete()` on each of `done`. */
  function Removed(handles: seq<RowHandle>, done: seq<nat>): (r: seq<RowHandle>)
    ensures |r| == |handles|
  {
    seq(|handles|, i requires 0 <= i < |handles| =>
      if i in done then handles[i].(deleted := true) else handles[i])
  }

  /**
   * The loop of updateRow: for each target in order, assign the patch and save the row.
   * `writes` lists the saves issued, the one that threw included.
   */
  method UpdateMatched(sheetData: array<RowHandle>, targets: seq<nat>, patch: Row, fails: set<nat>)
    returns (outcome: Outcome, writes: seq<nat>)
    requires Ascending(targets, sheetData.Length)
    modifies sheetData
    ensures var k := FirstFailure(targets, fails);
      && sheetData[..] == Patched(old(sheetData[..]), targets[..k], patch)
      && writes == (if k < |targets| then targets[..k + 1] else targets)
      && outcome == (if k < |targets| then Aborted(targets[k]) else Completed)
  {
    ghost var before := sheetData[..];
    writes := [];
    for k := 0 to |targets|
      invariant forall j :: 0 <= j < k ==> targets[j] !in fails
      invariant sheetData[..] == Patched(before, targets[..k], patch)
      invariant writes == targets[..k]
    {
      var index := targets[k];
      assert index !in targets[..k];
      var staged := Assign(sheetData[index].values, patch);
      writes := writes + [index];
      if index in fails {
        assert targets[..k + 1] == writes;
        return Aborted(index), writes;
      }
      sheetData[index] := sheetData[index].(values := staged);
      assert targets[..k + 1] == targets[..k] + [index];
    }
    assert targets[..|targets|] == targets;
    outcome := Completed;
  }

  /**
   * The loop of deleteRow: for each target in order, delete the row.
   * `writes` lists the deletes issued, the one that threw included.
   */
  method DeleteMatched(sheetData: array<RowHandle>, targets: seq<nat>, fails: set<nat>)
    returns (outcome: Outcome, writes: seq<nat>)
    requires Ascending(targets, sheetData.Length)
    modifies sheetData
    ensures var k := FirstFailure(targets, fails);
      && sheetData[..] == Removed(old(sheetData[..]), targets[..k])
      && writes == (if k < |targets| then targets[..k + 1] else targets)
      && outcome == (if k < |targets| then Aborted(targets[k]) else Completed)
  {
    ghost var before := sheetData[..];
    writes := [];
    for k := 0 to |targets|
      invariant forall j :: 0 <= j < k ==> targets[j] !in fails
      invariant sheetData[..] == Removed(before, targets[..k])
      invariant writes == targets[..k]
    {
      var index := targets[k];
      assert index !in targets[..k];
      writes := writes + [index];
      if index in fails {
        assert targets[..k + 1] == writes;
        return Aborted(index), writes;
      }
      sheetData[index] := sheetData[index].(deleted := true);
      assert targets[..k + 1] == targets[..k] + [index];
    }
    assert targets[..|targets|] == targets;
    outcome := Completed;
  }

  // ---------------------------------------------------------------------------
  // The same effects stated on the rows of the sheet.

  /** The sheet after the patch was saved to the rows at the positions in `done`. */
  function UpdatedRows(rows: seq<Row>, done: seq<nat>, patch: Row): (r: seq<Row>)
    ensures |r| == |rows|
  {
    seq(|rows|, i requires 0 <= i < |rows| => if i in done then Assign(rows[i], patch) else rows[i])
  }

  /** The sheet after the rows at the positions in `done` were deleted. */
  function RemainingRows(rows: seq<Row>, done: seq<nat>): (r: seq<Row>)
  {
    if rows == [] then []
    else
      var last := |rows| - 1;
      RemainingRows(rows[..last], done) + (if last in done then [] else [rows[last]])
  }

  /** The rows that do not match, in order. */
  function Unmatched(rows: seq<Row>, where: Where): (r: seq<Row>)
  {
    if rows == [] then []
    else
      var last := |rows| - 1;
      Unmatched(rows[..last], where) + (if Matches(rows[last], where) then [] else [rows[last]])
  }

  /** After the update loop the sheet holds the patched rows; no row leaves the sheet. */
  lemma {:induction false} StoredAfterUpdate(rows: seq<Row>, done: seq<nat>, patch: Row)
    ensures Stored(Patched(Fetch(rows), done, patch)) == UpdatedRows(rows, done, patch)
  {
    if rows != [] {
      var last := |rows| - 1;
      StoredAfterUpdate(rows[..last], done, patch);
      assert Patched(Fetch(rows), done, patch)[..last] == Patched(Fetch(rows[..last]), done, patch);
      assert UpdatedRows(rows, done, patch) == UpdatedRows(rows[..last], done, patch) + [UpdatedRows(rows, done, patch)[last]];
    }
  }

  /** After the delete loop the sheet holds the rows not deleted, in order. */
  lemma {:induction false} StoredAfterDelete(rows: seq<Row>, done: seq<nat>)
    ensures Stored(Removed(Fetch(rows), done)) == RemainingRows(rows, done)
  {
    if rows != [] {
      var last := |rows| - 1;
      StoredAfterDelete(rows[..last], done);
      assert Removed(Fetch(rows), done)[..last] == Removed(Fetch(rows[..last]), done);
    }
  }

  /** Which rows remain depends only on which positions of the sheet were deleted. */
  lemma {:induction false} RemainingRowsSamePositions(rows: seq<Row>, done: seq<nat>, done': seq<nat>)
    requires forall i :: 0 <= i < |rows| ==> (i in done <==> i in done')
    ensures RemainingRows(rows, done) == RemainingRows(rows, done')
  {
    if rows != [] {
      RemainingRowsSamePositions(rows[..|rows| - 1], done, done');
    }
  }

  /** Deleting distinct positions of the sheet removes exactly that many rows. */
  lemma {:induction false} RemainingRowsLength(rows: seq<Row>, done: seq<nat>)
    requires Ascending(done, |rows|)
    ensures |RemainingRows(rows, done)| == |rows| - |done|
  {
    if rows != [] {
      var last := |rows| - 1;
      if last in done {
        var done' := done[..|done| - 1];
        assert done[|done| - 1] == last;
        RemainingRowsSamePositions(rows[..last], done, done');
        RemainingRowsLength(rows[..last], done');
      } else {
        RemainingRowsLength(rows[..last], done);
      }
    }
  }

  /** When every delete succeeds, exactly the rows that do not match remain, in order. */
  lemma {:induction false} DeleteAllLeavesUnmatched(rows: seq<Row>, where: Where)
    ensures RemainingRows(rows, MatchingIndices(rows, where)) == Unmatched(rows, where)
  {
    if rows != [] {
      var last := |rows| - 1;
      var prefix := rows[..last];
      RemainingRowsSamePositions(prefix, MatchingIndices(rows, where), MatchingIndices(prefix, where));
      DeleteAllLeavesUnmatched(prefix, where);
    }
  }

  /**
   * When the k-th write aborts the loop, the targets before it have been written and
   * the targets from it on, like every row that is not a target, are as they were.
   */
  lemma AbortedUpdateSplits(rows: seq<Row>, targets: seq<nat>, patch: Row, k: nat)
    requires Ascending(targets, |rows|) && k <= |targets|
    ensures forall j :: 0 <= j < k ==> UpdatedRows(rows, targets[..k], patch)[targets[j]] == Assign(rows[targets[j]], patch)
    ensures forall j :: k <= j < |targets| ==> UpdatedRows(rows, targets[..k], patch)[targets[j]] == rows[targets[j]]
    ensures forall i :: 0 <= i < |rows| && i !in targets ==> UpdatedRows(rows, targets[..k], patch)[i] == rows[i]
  {
  }

  /** An aborted delete loop has removed exactly the k rows before the failing target. */
  lemma AbortedDeleteCount(rows: seq<Row>, targets: seq<nat>, k: nat)
    requires Ascending(targets, |rows|) && k <= |targets|
    ensures |RemainingRows(rows, targets[..k])| == |rows| - k
  {
    RemainingRowsLength(rows, targets[..k]);
  }

  lemma AssignTwice(row: Row, patch: Row)
    ensures Assign(Assign(row, patch), patch) == Assign(row, patch)
  {
  }

  /**
   * Running a fully successful update a second time changes nothing: the rows the second
   * run matches were all patched by the first, and assigning a patch twice is assigning it once.
   */
  lemma UpdateIdempotent(rows: seq<Row>, where: Where, patch: Row)
    ensures var once := UpdatedRows(rows, MatchingIndices(rows, where), patch);
      UpdatedRows(once, MatchingIndices(once, where), patch) == once
  {
    var first := MatchingIndices(rows, where);
    var once := UpdatedRows(rows, first, patch);
    var second := MatchingIndices(once, where);
    forall i | 0 <= i < |once|
      ensures UpdatedRows(once, second, patch)[i] == once[i]
    {
      if i in first {
        AssignTwice(rows[i], patch);
      } else {
        assert once[i] == rows[i];
        assert i !in second;
      }
    }
  }
}
