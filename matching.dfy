/**
 * Rows as field-to-value records, the `where` test, and the in-memory selection that
 * getRow, updateRow and deleteRow perform on a fetched snapshot.
 */
module Matching {
  import opened JsValues

  /** A row as `toObject()` gives it; a header with no entry reads as undefined. */
  type Row = map<string, Value>

  /** The expected value of each named field. */
  type Where = map<string, Value>

  /** `row[key]`: a missing field reads as undefined, exactly as a field holding undefined. */
  function Get(row: Row, key: string): (v: Value)
    ensures v.Undefined? <==> key !in row || row[key].Undefined?
    ensures !v.Undefined? ==> key in row && row[key] == v
  {
    if key in row then row[key] else Undefined
  }

  /**
   * `Object.entries(where).every(([key, value]) => row[key] == value)`: every entry of
   * `where` holds of the row under loose equality. An empty `where` matches every row,
   * and a matching row lacks a field only where `where` expects undefined.
   */
  function Matches(row: Row, where: Where): (m: bool)
    ensures where == map[] ==> m
    ensures m ==> forall key :: key in where ==> (key in row || where[key].Undefined?)
  {
    forall key :: key in where ==> LooseEq(Get(row, key), where[key])
  }

  /** `assign(patch)`: every field named in the patch is overwritten, the others are kept. */
  function Assign(row: Row, patch: Row): (r: Row)
    ensures r.Keys == row.Keys + patch.Keys
    ensures forall key :: key in patch ==> Get(r, key) == patch[key]
    ensures forall key :: key !in patch ==> Get(r, key) == Get(row, key)
  {
    row + patch
  }

  /** Indices strictly ascending and below n. */
  predicate Ascending(indices: seq<nat>, n: nat)
  {
    && (forall j :: 0 <= j < |indices| ==> indices[j] < n)
    && (forall j1, j2 :: 0 <= j1 < j2 < |indices| ==> indices[j1] < indices[j2])
  }

  /**
   * The index computation of updateRow and deleteRow: the positions of the matching
   * rows, in snapshot order.
   */
  function MatchingIndices(rows: seq<Row>, where: Where): (r: seq<nat>)
    ensures Ascending(r, |rows|)
    ensures forall i :: 0 <= i < |rows| ==> (i in r <==> Matches(rows[i], where))
  {
    if rows == [] then []
    else
      var last := |rows| - 1;
      MatchingIndices(rows[..last], where) + (if Matches(rows[last], where) then [last] else [])
  }

  /** The filter of getRow: the matching rows themselves. */
  function Filter(rows: seq<Row>, where: Where): (r: seq<Row>)
    ensures |r| <= |rows|
    ensures forall j :: 0 <= j < |r| ==> Matches(r[j], where)
  {
    if rows == [] then []
    else
      var last := |rows| - 1;
      Filter(rows[..last], where) + (if Matches(rows[last], where) then [rows[last]] else [])
  }

  /** The rows at the given positions, in the order of the positions. */
  function Pick(rows: seq<Row>, indices: seq<nat>): (r: seq<Row>)
    requires forall j :: 0 <= j < |indices| ==> indices[j] < |rows|
    ensures |r| == |indices|
  {
    seq(|indices|, j requires 0 <= j < |indices| => rows[indices[j]])
  }

  lemma PickAppend(rows: seq<Row>, before: seq<nat>, extra: seq<nat>)
    requires forall j :: 0 <= j < |before| ==> before[j] < |rows|
    requires forall j :: 0 <= j < |extra| ==> extra[j] < |rows|
    ensures Pick(rows, before + extra) == Pick(rows, before) + Pick(rows, extra)
  {
  }

  lemma PickExtend(rows: seq<Row>, n: nat, indices: seq<nat>)
    requires n <= |rows|
    requires forall j :: 0 <= j < |indices| ==> indices[j] < n
    ensures Pick(rows[..n], indices) == Pick(rows, indices)
  {
  }

  /**
   * getRow returns exactly the rows updateRow and deleteRow would target, in the
   * snapshot's order.
   */
  lemma {:induction false} FilterPicksMatchingIndices(rows: seq<Row>, where: Where)
    ensures Filter(rows, where) == Pick(rows, MatchingIndices(rows, where))
  {
    if rows != [] {
      var last := |rows| - 1;
      var prefix := rows[..last];
      var before := MatchingIndices(prefix, where);
      var extra := if Matches(rows[last], where) then [last] else [];
      assert MatchingIndices(rows, where) == before + extra;
      assert Filter(rows, where) == Filter(prefix, where) + Pick(rows, extra);
      FilterPicksMatchingIndices(prefix, where);
      PickExtend(rows, last, before);
      PickAppend(rows, before, extra);
    }
  }

  /** An empty `where` matches every row: getRow returns the snapshot, and every index is targeted. */
  lemma {:induction false} EmptyWhereSelectsAll(rows: seq<Row>)
    ensures MatchingIndices(rows, map[]) == seq(|rows|, i => i)
    ensures Filter(rows, map[]) == rows
  {
    if rows != [] {
      var last := |rows| - 1;
      EmptyWhereSelectsAll(rows[..last]);
      assert rows[..last] + [rows[last]] == rows;
    }
  }
}
