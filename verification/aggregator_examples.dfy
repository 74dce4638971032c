/** The grouped aggregates of a small table, as the aggregate operator's
    tests expect them. */
module AggregatorExamples {
  import opened Common
  import opened Types
  import opened Aggregators

  /** (group, value) rows: (1,2) (1,4) (1,6) (3,2) (3,4) (3,6) (5,7). */
  function SampleRows(): seq<seq<Field>>
  {
    [Row(1, 2), Row(1, 4), Row(1, 6), Row(3, 2), Row(3, 4), Row(3, 6), Row(5, 7)]
  }

  function Row(group: int, value: int): seq<Field>
  {
    [IntField(group), IntField(value)]
  }

  /** The values the sample table holds for each group key. */
  function SampleGroupValues(key: Field): seq<int>
  {
    if key == IntField(1) || key == IntField(3) then [2, 4, 6]
    else if key == IntField(5) then [7]
    else []
  }

  /** The sample values of each group, and the groups, row by row. */
  lemma SampleValues(key: Field)
    ensures AllFit(GroupOn(0), 1, SampleRows())
    ensures ValuesIn(GroupOn(0), 1, SampleRows(), key) == SampleGroupValues(key)
    ensures GroupsOf(GroupOn(0), SampleRows()) == {IntField(1), IntField(3), IntField(5)}
  {
    var g := GroupOn(0);
    var p1 := [Row(1, 2)];
    var p2 := p1 + [Row(1, 4)];
    var p3 := p2 + [Row(1, 6)];
    var p4 := p3 + [Row(3, 2)];
    var p5 := p4 + [Row(3, 4)];
    var p6 := p5 + [Row(3, 6)];
    var p7 := p6 + [Row(5, 7)];
    assert p7 == SampleRows();
    assert AllFit(g, 1, []);
    ValuesInSnoc(g, 1, [], Row(1, 2), key);
    GroupsOfSnoc(g, [], Row(1, 2));
    assert [] + [Row(1, 2)] == p1;
    ValuesInSnoc(g, 1, p1, Row(1, 4), key);
    GroupsOfSnoc(g, p1, Row(1, 4));
    ValuesInSnoc(g, 1, p2, Row(1, 6), key);
    GroupsOfSnoc(g, p2, Row(1, 6));
    ValuesInSnoc(g, 1, p3, Row(3, 2), key);
    GroupsOfSnoc(g, p3, Row(3, 2));
    ValuesInSnoc(g, 1, p4, Row(3, 4), key);
    GroupsOfSnoc(g, p4, Row(3, 4));
    ValuesInSnoc(g, 1, p5, Row(3, 6), key);
    GroupsOfSnoc(g, p5, Row(3, 6));
    ValuesInSnoc(g, 1, p6, Row(5, 7), key);
    GroupsOfSnoc(g, p6, Row(5, 7));
    if key == IntField(1) || key == IntField(3) {
      assert [] + [2] + [4] + [6] == [2, 4, 6];
    }
  }

  /** What the tests expect for each operator and group: groups 1 and 3
      hold 2, 4, 6 and group 5 holds 7. */
  function Expected(op: Op, key: Field): int
  {
    var small := key == IntField(5);
    match op
    case Sum => if small then 7 else 12
    case Avg => if small then 7 else 4
    case Min => if small then 7 else 2
    case Max => if small then 7 else 6
    case Count => if small then 1 else 3
  }

  /** The folds of the two value lists; AVG folds to the sum. */
  lemma SampleFolds(op: Op)
    ensures Fold(op, [2, 4, 6]) == if op == Avg then 12 else Expected(op, IntField(1))
    ensures Fold(op, [7]) == Expected(op, IntField(5))
  {
    assert [2, 4, 6][..2] == [2, 4];
    assert [2, 4][..1] == [2];
    assert [2][..0] == [];
    assert [7][..0] == [];
    var one := Fold(op, [2]);
    assert one == Step(op, DefaultValue(op), 2);
    var two := Fold(op, [2, 4]);
    assert two == Step(op, one, 4);
    assert Fold(op, [2, 4, 6]) == Step(op, two, 6);
    match op
    case Sum => assert one == 2 && two == 6;
    case Avg => assert one == 2 && two == 6;
    case Count => assert one == 1 && two == 2;
    case Min => assert one == 2 && two == 2;
    case Max => assert one == 2 && two == 4;
  }

  /** Grouping the sample table on its first field and aggregating its
      second reports, for groups 1, 3 and 5: SUM 12, 12, 7; AVG 4, 4, 7;
      MIN 2, 2, 7; MAX 6, 6, 7; COUNT 3, 3, 1. */
  lemma SampleResult(op: Op, key: Field)
    requires key == IntField(1) || key == IntField(3) || key == IntField(5)
    ensures GroupResult(op, GroupOn(0), 1, SampleRows(), key) == Ok(Expected(op, key))
  {
    SampleValues(key);
    SampleFolds(op);
    if op == Avg {
      assert Wrap32(3) == 3 && Wrap32(1) == 1;
    }
  }
}

/** The string aggregator's COUNT over a small table, merge by merge, as its
    tests expect it. */
module StringAggregatorExamples {
  import opened Common
  import opened Types
  import opened Aggregators
  import TD = TupleDesc

  function Row(group: int, value: string): seq<Field>
  {
    [IntField(group), StringField(value)]
  }

  /** One more row of group `group` raises that group's count from `n` to
      `n + 1` and leaves the other groups alone. */
  lemma CountedOnce(counts: map<Field, int>, group: int, value: string, n: nat)
    requires CountOf(counts, IntField(group)) == n < 3
    ensures var k := GroupKey(GroupOn(0), Row(group, value));
            counts[k := Wrap32(CountOf(counts, k) + 1)] == counts[IntField(group) := n + 1]
  {
    assert GroupKey(GroupOn(0), Row(group, value)) == IntField(group);
    assert IsInt32(n + 1);
  }

  /** Merging the row (group, value) into an aggregator grouped on the first
      field raises that group's count by one. */
  method MergeRow(agg: StringAggregator, group: int, value: string) returns (counts: map<Field, int>)
    requires agg.Valid() && agg.grouping == GroupOn(0) && 0 <= CountOf(agg.counter.counts, IntField(group)) < 3
    modifies agg.counter
    ensures agg.Valid()
    ensures counts == agg.counter.counts
    ensures counts == old(agg.counter.counts)[IntField(group) := CountOf(old(agg.counter.counts), IntField(group)) + 1]
  {
    CountedOnce(agg.counter.counts, group, value, CountOf(agg.counter.counts, IntField(group)));
    agg.MergeTupleIntoGroup(Row(group, value));
    counts := agg.counter.counts;
  }

  /** Counting (1,a) (1,b) (1,c) (3,d) grouped on the first field: after each
      merge the counts are {1: 1}, {1: 2}, {1: 3}, then {1: 3, 3: 1}. */
  method CountProgress() returns (steps: seq<map<Field, int>>)
    ensures steps == [map[IntField(1) := 1], map[IntField(1) := 2], map[IntField(1) := 3],
                      map[IntField(1) := 3, IntField(3) := 1]]
  {
    var agg := new StringAggregator(GroupOn(0));
    var c1 := MergeRow(agg, 1, "a");
    assert c1 == map[IntField(1) := 1];
    var c2 := MergeRow(agg, 1, "b");
    assert c2 == map[IntField(1) := 2];
    var c3 := MergeRow(agg, 1, "c");
    assert c3 == map[IntField(1) := 3];
    var c4 := MergeRow(agg, 3, "d");
    assert c4 == map[IntField(1) := 3, IntField(3) := 1];
    steps := [c1, c2, c3, c4];
  }

  /** (1,a) (1,b) (1,c) (3,d) (3,e) (3,f) (5,g). */
  function LetterRows(): seq<seq<Field>>
  {
    [Row(1, "a"), Row(1, "b"), Row(1, "c"), Row(3, "d"), Row(3, "e"), Row(3, "f"), Row(5, "g")]
  }

  /** The letter rows fall into groups 1, 3 and 5. */
  lemma LetterGroups()
    ensures AllHaveGroupField(GroupOn(0), LetterRows())
    ensures GroupsOf(GroupOn(0), LetterRows()) == {IntField(1), IntField(3), IntField(5)}
  {
    var g := GroupOn(0);
    var p1 := [Row(1, "a")];
    var p2 := p1 + [Row(1, "b")];
    var p3 := p2 + [Row(1, "c")];
    var p4 := p3 + [Row(3, "d")];
    var p5 := p4 + [Row(3, "e")];
    var p6 := p5 + [Row(3, "f")];
    var p7 := p6 + [Row(5, "g")];
    assert p7 == LetterRows();
    GroupsOfSnoc(g, [], Row(1, "a"));
    assert [] + [Row(1, "a")] == p1;
    GroupsOfSnoc(g, p1, Row(1, "b"));
    GroupsOfSnoc(g, p2, Row(1, "c"));
    GroupsOfSnoc(g, p3, Row(3, "d"));
    GroupsOfSnoc(g, p4, Row(3, "e"));
    GroupsOfSnoc(g, p5, Row(3, "f"));
    GroupsOfSnoc(g, p6, Row(5, "g"));
  }

  /** The test's loop: merge every row, in order. */
  method MergeAll(agg: StringAggregator, rows: seq<seq<Field>>)
    requires agg.Valid() && agg.counter.merged == [] && agg.grouping == GroupOn(0)
    requires forall i :: 0 <= i < |rows| ==> |rows[i]| == 2
    modifies agg.counter
    ensures agg.Valid() && agg.counter.merged == rows
  {
    var i := 0;
    while i < |rows|
      invariant 0 <= i <= |rows|
      invariant agg.Valid() && agg.counter.merged == rows[..i]
    {
      assert rows[..i + 1] == rows[..i] + [rows[i]];
      agg.MergeTupleIntoGroup(rows[i]);
      i := i + 1;
    }
    assert rows[..i] == rows;
  }

  /** Merging all the letter rows, then listing the groups, yields three
      tuples, one for each of groups 1, 3 and 5. */
  method CountAllGroups(desc: TD.TupleDesc) returns (tuples: seq<TD.Tuple>)
    ensures |tuples| == 3
    ensures forall i :: 0 <= i < |tuples| ==>
              |tuples[i].fields| == 2 && tuples[i].fields[0] in {IntField(1), IntField(3), IntField(5)}
  {
    var rows := LetterRows();
    var agg := new StringAggregator(GroupOn(0));
    MergeAll(agg, rows);
    LetterGroups();
    ghost var groups := {IntField(1), IntField(3), IntField(5)};
    assert agg.counter.counts.Keys == groups;
    assert |groups| == 3;
    tuples := agg.GetTuples(desc);
  }
}
