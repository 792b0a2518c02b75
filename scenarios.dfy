/**
 * A worked example: three rows whose `id` cells hold text, selected with the number 1.
 */
module Scenarios {
  import opened JsValues
  import opened Matching
  import opened Mutation

  function People(): (rows: seq<Row>)
  {
    [ map["id" := Str("1"), "name" := Str("a")],
      map["id" := Str("2"), "name" := Str("b")],
      map["id" := Str("1"), "name" := Str("c")] ]
  }

  /** `{id: 1}` selects rows 0 and 2, whose id cells read "1"; getRow returns both in order. */
  lemma PeopleWithIdOne()
    ensures MatchingIndices(People(), map["id" := Num(1)]) == [0, 2]
    ensures Filter(People(), map["id" := Num(1)]) == [People()[0], People()[2]]
  {
    var rows := People();
    var where := map["id" := Num(1)];
    assert Matches(rows[0], where) && Matches(rows[2], where) by {
      assert DigitsToNat("1") == 1 by { assert "1"[..0] == ""; }
    }
    assert !Matches(rows[1], where) by {
      assert DigitsToNat("2") == 2 by { assert "2"[..0] == ""; }
      assert where["id"] == Num(1) && Get(rows[1], "id") == Str("2");
    }
    FilterPicksMatchingIndices(rows, where);
  }

  /** Updating the name of rows 0 and 2 leaves row 1 as it was. */
  lemma PeopleRenamed()
    ensures UpdatedRows(People(), [0, 2], map["name" := Str("z")])
         == [map["id" := Str("1"), "name" := Str("z")], People()[1], map["id" := Str("1"), "name" := Str("z")]]
  {
    var updated := UpdatedRows(People(), [0, 2], map["name" := Str("z")]);
    assert updated[0] == map["id" := Str("1"), "name" := Str("z")];
    assert updated[2] == map["id" := Str("1"), "name" := Str("z")];
  }

  /** Deleting rows 0 and 2 leaves row 1 alone. */
  lemma PeopleDeleted()
    ensures RemainingRows(People(), [0, 2]) == [People()[1]]
  {
    var rows := People();
    assert rows[..2][..1] == rows[..1];
    assert rows[..1][..0] == [];
    assert RemainingRows(rows[..1], [0, 2]) == [];
    assert RemainingRows(rows[..2], [0, 2]) == [rows[1]];
  }

  /**
   * With rows 0 and 2 targeted and the save of row 2 throwing, the loop stops after its
   * second save: row 0 is renamed, and rows 1 and 2 are as they were.
   */
  lemma SecondSaveFails()
    ensures var targets := MatchingIndices(People(), map["id" := Num(1)]);
      var k := FirstFailure(targets, {2});
      && k == 1 && targets[k] == 2 && targets[..k + 1] == targets
      && UpdatedRows(People(), targets[..k], map["name" := Str("z")])
         == [map["id" := Str("1"), "name" := Str("z")], People()[1], People()[2]]
  {
    PeopleWithIdOne();
    assert FirstFailure([0, 2], {2}) == 1;
    assert [0, 2][..1] == [0];
    var patch := map["name" := Str("z")];
    assert UpdatedRows(People(), [0], patch)[0] == map["id" := Str("1"), "name" := Str("z")];
  }
}
