/** Group-by aggregation: the per-group tuple counter, the aggregator over
    integer fields (SUM, COUNT, MIN, MAX, AVG) and the aggregator over string
    fields (COUNT only). Tuples are rows of field values; a group is named by
    the value of its group-by field, or by one fixed key without grouping. */
module Aggregators {
  import opened Common
  import opened Types
  import TD = TupleDesc

  /** The aggregation operators the aggregators switch over. */
  datatype Op = Min | Max | Sum | Avg | Count

  /** Which field, if any, groups the tuples (`NO_GROUPING` is `NoGrouping`). */
  datatype Grouping = NoGrouping | GroupOn(index: nat)

  /** The key every tuple counts under when there is no grouping. */
  const NO_GROUPING_KEY: Field := StringField("No grouping")

  /** The tuple has the group-by field the grouping reads. */
  predicate HasGroupField(g: Grouping, row: seq<Field>)
  {
    g.GroupOn? ==> g.index < |row|
  }

  predicate AllHaveGroupField(g: Grouping, rows: seq<seq<Field>>)
  {
    forall i :: 0 <= i < |rows| ==> HasGroupField(g, rows[i])
  }

  /** `getGroupByField`: the group-by field's value, or the fixed key. */
  function GroupKey(g: Grouping, row: seq<Field>): (key: Field)
    requires HasGroupField(g, row)
    ensures g.GroupOn? ==> key == row[g.index]
    ensures g.NoGrouping? ==> key == NO_GROUPING_KEY
  {
    if g.GroupOn? then row[g.index] else NO_GROUPING_KEY
  }

  /** The number of rows that fall into group `key`. */
  function CountIn(g: Grouping, rows: seq<seq<Field>>, key: Field): (n: nat)
    requires AllHaveGroupField(g, rows)
    ensures n <= |rows|
  {
    if rows == [] then 0
    else CountIn(g, rows[..|rows| - 1], key) + (if GroupKey(g, rows[|rows| - 1]) == key then 1 else 0)
  }

  /** The groups the rows fall into. */
  function GroupsOf(g: Grouping, rows: seq<seq<Field>>): set<Field>
    requires AllHaveGroupField(g, rows)
  {
    if rows == [] then {} else GroupsOf(g, rows[..|rows| - 1]) + {GroupKey(g, rows[|rows| - 1])}
  }

  lemma CountInSnoc(g: Grouping, rows: seq<seq<Field>>, row: seq<Field>, key: Field)
    requires AllHaveGroupField(g, rows) && HasGroupField(g, row)
    ensures AllHaveGroupField(g, rows + [row])
    ensures CountIn(g, rows + [row], key) == CountIn(g, rows, key) + (if GroupKey(g, row) == key then 1 else 0)
  {
    assert (rows + [row])[..|rows|] == rows;
  }

  lemma GroupsOfSnoc(g: Grouping, rows: seq<seq<Field>>, row: seq<Field>)
    requires AllHaveGroupField(g, rows) && HasGroupField(g, row)
    ensures AllHaveGroupField(g, rows + [row])
    ensures GroupsOf(g, rows + [row]) == GroupsOf(g, rows) + {GroupKey(g, row)}
  {
    assert (rows + [row])[..|rows|] == rows;
  }

  /** The groups are the group keys of the rows. */
  lemma {:induction false} GroupsOfRows(g: Grouping, rows: seq<seq<Field>>, key: Field)
    requires AllHaveGroupField(g, rows)
    ensures key in GroupsOf(g, rows) <==> exists i :: 0 <= i < |rows| && GroupKey(g, rows[i]) == key
    decreases |rows|
  {
    if rows != [] {
      var front := rows[..|rows| - 1];
      GroupsOfRows(g, front, key);
      if key in GroupsOf(g, front) {
        var i :| 0 <= i < |front| && GroupKey(g, front[i]) == key;
        assert rows[i] == front[i];
      }
      if i :| 0 <= i < |rows| && GroupKey(g, rows[i]) == key {
        if i < |rows| - 1 {
          assert front[i] == rows[i];
        }
      }
    }
  }

  /** A group has tuples exactly when some row falls into it. */
  lemma {:induction false} CountPositiveIffSeen(g: Grouping, rows: seq<seq<Field>>, key: Field)
    requires AllHaveGroupField(g, rows)
    ensures CountIn(g, rows, key) > 0 <==> key in GroupsOf(g, rows)
    decreases |rows|
  {
    if rows != [] {
      CountPositiveIffSeen(g, rows[..|rows| - 1], key);
    }
  }

  /** Without grouping every row counts under the one key. */
  lemma {:induction false} UngroupedCountIsTotal(rows: seq<seq<Field>>)
    ensures AllHaveGroupField(NoGrouping, rows)
    ensures CountIn(NoGrouping, rows, NO_GROUPING_KEY) == |rows|
    decreases |rows|
  {
    if rows != [] {
      UngroupedCountIsTotal(rows[..|rows| - 1]);
    }
  }

  /** Every group seen has an entry holding its number of tuples, as a
      32-bit `int`, and no other group has one. */
  ghost predicate CountsMatch(g: Grouping, rows: seq<seq<Field>>, counts: map<Field, int>)
  {
    && AllHaveGroupField(g, rows)
    && counts.Keys == GroupsOf(g, rows)
    && (forall k | k in counts :: counts[k] == Wrap32(CountIn(g, rows, k)))
  }

  /** A group without an entry has no tuples. */
  lemma UnseenCountsZero(g: Grouping, rows: seq<seq<Field>>, counts: map<Field, int>, key: Field)
    ensures CountsMatch(g, rows, counts) && key !in counts ==> CountIn(g, rows, key) == 0
  {
    if CountsMatch(g, rows, counts) {
      CountPositiveIffSeen(g, rows, key);
    }
  }

  /** A group's entry in the counts, 0 for a group never seen. */
  function CountOf(counts: map<Field, int>, k: Field): int
  {
    if k in counts then counts[k] else 0
  }

  /** After one more row, group `k` counts one more exactly when the row
      falls into it. */
  lemma CountStepAt(g: Grouping, rows: seq<seq<Field>>, counts: map<Field, int>, row: seq<Field>, k: Field)
    requires CountsMatch(g, rows, counts) && HasGroupField(g, row)
    requires k == GroupKey(g, row) || k in counts
    ensures AllHaveGroupField(g, rows + [row])
    ensures Wrap32(CountIn(g, rows + [row], k))
         == if k == GroupKey(g, row) then Wrap32(CountOf(counts, k) + 1) else CountOf(counts, k)
  {
    CountInSnoc(g, rows, row, k);
    UnseenCountsZero(g, rows, counts, k);
    Wrap32Add(CountIn(g, rows, k), 1);
  }

  /** Counting one more tuple in its group keeps the counts right. */
  lemma CountStep(g: Grouping, rows: seq<seq<Field>>, counts: map<Field, int>, row: seq<Field>)
    requires CountsMatch(g, rows, counts) && HasGroupField(g, row)
    ensures var key := GroupKey(g, row);
            CountsMatch(g, rows + [row], counts[key := Wrap32(CountOf(counts, key) + 1)])
  {
    var key := GroupKey(g, row);
    var counts' := counts[key := Wrap32(CountOf(counts, key) + 1)];
    GroupsOfSnoc(g, rows, row);
    assert counts'.Keys == counts.Keys + {key};
    forall k | k in counts'
      ensures counts'[k] == Wrap32(CountIn(g, rows + [row], k))
    {
      CountStepAt(g, rows, counts, row, k);
    }
  }

  /** The per-group tuple counter. */
  class CountingAggregator {
    const grouping: Grouping
    var counts: map<Field, int>
    /** The tuples counted so far, in order. */
    ghost var merged: seq<seq<Field>>

    ghost predicate Valid()
      reads this
    {
      CountsMatch(grouping, merged, counts)
    }

    constructor (grouping: Grouping)
      ensures this.grouping == grouping && counts == map[] && merged == [] && Valid()
    {
      this.grouping := grouping;
      counts := map[];
      merged := [];
    }

    /** `getCount(group)`: the group's entry, 0 for a group never seen. */
    function GetCount(group: Field): (n: int)
      reads this
      ensures Valid() ==> n == Wrap32(CountIn(grouping, merged, group))
    {
      UnseenCountsZero(grouping, merged, counts, group);
      CountOf(counts, group)
    }

    /** `getCount()`: the count under the ungrouped key, which without
        grouping is the number of tuples counted. */
    function GetUngroupedCount(): (n: int)
      reads this
      ensures Valid() && grouping == NoGrouping ==> n == Wrap32(|merged|)
    {
      UngroupedCountIsTotal(merged);
      GetCount(NO_GROUPING_KEY)
    }

    /** `getCounts`: a copy of the map, keyed by the groups seen. */
    method GetCounts() returns (m: map<Field, int>)
      requires Valid()
      ensures m == counts
      ensures m.Keys == GroupsOf(grouping, merged)
    {
      m := counts;
    }

    /** `countTuple`: one more tuple in its group; no other group changes. */
    method CountTuple(row: seq<Field>)
      requires Valid() && HasGroupField(grouping, row)
      modifies this
      ensures merged == old(merged) + [row]
      ensures counts == old(counts)[GroupKey(grouping, row) := Wrap32(CountOf(old(counts), GroupKey(grouping, row)) + 1)]
      ensures Valid()
    {
      var g := GroupKey(grouping, row);
      var c := counts[g := Wrap32(CountOf(counts, g) + 1)];
      ghost var rows := merged + [row];
      CountStep(grouping, merged, counts, row);
      assert CountsMatch(grouping, rows, c);
      counts := c;
      merged := rows;
    }
  }

  /** The tuple has the group-by field and an integer aggregate field. */
  predicate Fits(g: Grouping, a: nat, row: seq<Field>)
  {
    HasGroupField(g, row) && a < |row| && row[a].IntField?
  }

  predicate AllFit(g: Grouping, a: nat, rows: seq<seq<Field>>)
  {
    AllHaveGroupField(g, rows) && forall i :: 0 <= i < |rows| ==> Fits(g, a, rows[i])
  }

  /** The aggregate field's values of the rows in group `key`, in order. */
  function ValuesIn(g: Grouping, a: nat, rows: seq<seq<Field>>, key: Field): (vs: seq<int>)
    requires AllFit(g, a, rows)
  {
    if rows == [] then []
    else
      var front := ValuesIn(g, a, rows[..|rows| - 1], key);
      var last := rows[|rows| - 1];
      if GroupKey(g, last) == key then front + [last[a].intValue] else front
  }

  /** A group has one value per tuple. */
  lemma {:induction false} ValuesInLength(g: Grouping, a: nat, rows: seq<seq<Field>>, key: Field)
    ensures AllFit(g, a, rows) ==> |ValuesIn(g, a, rows, key)| == CountIn(g, rows, key)
    decreases |rows|
  {
    if rows != [] && AllFit(g, a, rows) {
      ValuesInLength(g, a, rows[..|rows| - 1], key);
    }
  }

  lemma ValuesInSnoc(g: Grouping, a: nat, rows: seq<seq<Field>>, row: seq<Field>, key: Field)
    requires AllFit(g, a, rows) && Fits(g, a, row)
    ensures AllFit(g, a, rows + [row])
    ensures ValuesIn(g, a, rows + [row], key)
         == if GroupKey(g, row) == key then ValuesIn(g, a, rows, key) + [row[a].intValue] else ValuesIn(g, a, rows, key)
  {
    assert (rows + [row])[..|rows|] == rows;
  }

  /** `getDefaultValue`: the value of a group before its first tuple. */
  function DefaultValue(op: Op): (v: int)
    ensures IsInt32(v)
  {
    match op
    case Avg | Count | Sum => 0
    case Min => INT_MAX
    case Max => INT_MIN
  }

  /** The merge step of one tuple value into a group's value, in 32-bit
      `int` arithmetic. */
  function Step(op: Op, previous: int, value: int): (r: int)
    ensures IsInt32(previous) && IsInt32(value) ==> IsInt32(r)
    ensures op == Min ==> r <= previous && r <= value && (r == previous || r == value)
    ensures op == Max ==> r >= previous && r >= value && (r == previous || r == value)
    ensures op == Count ==> r == Wrap32(previous + 1)
  {
    match op
    case Avg | Sum => Wrap32(previous + value)
    case Count => Wrap32(previous + 1)
    case Min => if previous < value then previous else value
    case Max => if previous > value then previous else value
  }

  /** The default is where every group starts: the first merge of an int
      value gives that value, except for COUNT, whose first merge gives 1. */
  lemma DefaultValueIsStart(op: Op, x: int)
    requires IsInt32(x)
    ensures Step(op, DefaultValue(op), x) == if op == Count then 1 else x
  {
  }

  /** A group's value after merging its values in order. */
  function Fold(op: Op, vs: seq<int>): int
  {
    if vs == [] then DefaultValue(op) else Step(op, Fold(op, vs[..|vs| - 1]), vs[|vs| - 1])
  }

  function SumOf(vs: seq<int>): int
  {
    if vs == [] then 0 else SumOf(vs[..|vs| - 1]) + vs[|vs| - 1]
  }

  /** SUM and AVG accumulate the exact sum, wrapped to 32 bits. */
  lemma {:induction false} FoldSumWraps(op: Op, vs: seq<int>)
    requires op == Sum || op == Avg
    ensures Fold(op, vs) == Wrap32(SumOf(vs))
    decreases |vs|
  {
    if vs != [] {
      var front := vs[..|vs| - 1];
      FoldSumWraps(op, front);
      Wrap32Add(SumOf(front), vs[|vs| - 1]);
    }
  }

  /** COUNT accumulates the number of values, wrapped to 32 bits. */
  lemma {:induction false} FoldCountIsLength(vs: seq<int>)
    ensures Fold(Count, vs) == Wrap32(|vs|)
    decreases |vs|
  {
    if vs != [] {
      FoldCountIsLength(vs[..|vs| - 1]);
      Wrap32Add(|vs| - 1, 1);
    }
  }

  /** MIN is at most every value and is one of them, or the starting
      `Integer.MAX_VALUE`; for a non-empty group of `int` values it is the
      least of them. */
  lemma {:induction false} FoldMinIsLeast(vs: seq<int>)
    ensures forall i :: 0 <= i < |vs| ==> Fold(Min, vs) <= vs[i]
    ensures Fold(Min, vs) == INT_MAX || Fold(Min, vs) in vs
    ensures vs != [] && (forall i :: 0 <= i < |vs| ==> vs[i] <= INT_MAX) ==> Fold(Min, vs) in vs
    decreases |vs|
  {
    if vs != [] {
      var front := vs[..|vs| - 1];
      FoldMinIsLeast(front);
      assert vs == front + [vs[|vs| - 1]];
    }
  }

  /** MAX is at least every value and is one of them, or the starting
      `Integer.MIN_VALUE`; for a non-empty group of `int` values it is the
      greatest of them. */
  lemma {:induction false} FoldMaxIsGreatest(vs: seq<int>)
    ensures forall i :: 0 <= i < |vs| ==> vs[i] <= Fold(Max, vs)
    ensures Fold(Max, vs) == INT_MIN || Fold(Max, vs) in vs
    ensures vs != [] && (forall i :: 0 <= i < |vs| ==> INT_MIN <= vs[i]) ==> Fold(Max, vs) in vs
    decreases |vs|
  {
    if vs != [] {
      var front := vs[..|vs| - 1];
      FoldMaxIsGreatest(front);
      assert vs == front + [vs[|vs| - 1]];
    }
  }

  /** Every group seen holds the fold of its values, and no other group
      has an entry. */
  ghost predicate ValuesMatch(op: Op, g: Grouping, a: nat, rows: seq<seq<Field>>, values: map<Field, int>)
  {
    && AllFit(g, a, rows)
    && values.Keys == GroupsOf(g, rows)
    && (forall k | k in values :: values[k] == Fold(op, ValuesIn(g, a, rows, k)))
  }

  /** A group without an entry has no values. */
  lemma UnseenHasNoValues(op: Op, g: Grouping, a: nat, rows: seq<seq<Field>>, values: map<Field, int>, key: Field)
    ensures ValuesMatch(op, g, a, rows, values) && key !in values ==> ValuesIn(g, a, rows, key) == []
  {
    if ValuesMatch(op, g, a, rows, values) {
      CountPositiveIffSeen(g, rows, key);
      ValuesInLength(g, a, rows, key);
    }
  }

  /** A group's value before the next tuple: its entry, or the default. */
  function Previous(op: Op, values: map<Field, int>, k: Field): int
  {
    if k in values then values[k] else DefaultValue(op)
  }

  lemma FoldSnoc(op: Op, vs: seq<int>, v: int)
    ensures Fold(op, vs + [v]) == Step(op, Fold(op, vs), v)
  {
    assert (vs + [v])[..|vs|] == vs;
  }

  /** After one more row, group `k` holds the step from its previous value. */
  lemma MergeStepAt(op: Op, g: Grouping, a: nat, rows: seq<seq<Field>>, values: map<Field, int>, row: seq<Field>, k: Field)
    requires ValuesMatch(op, g, a, rows, values) && Fits(g, a, row)
    requires k == GroupKey(g, row) || k in values
    ensures AllFit(g, a, rows + [row])
    ensures Fold(op, ValuesIn(g, a, rows + [row], k))
         == if k == GroupKey(g, row) then Step(op, Previous(op, values, k), row[a].intValue) else Previous(op, values, k)
  {
    ValuesInSnoc(g, a, rows, row, k);
    UnseenHasNoValues(op, g, a, rows, values, k);
    if k == GroupKey(g, row) {
      FoldSnoc(op, ValuesIn(g, a, rows, k), row[a].intValue);
    }
  }

  /** Merging one more value into its group keeps the values right. */
  lemma MergeStep(op: Op, g: Grouping, a: nat, rows: seq<seq<Field>>, values: map<Field, int>, row: seq<Field>)
    requires ValuesMatch(op, g, a, rows, values) && Fits(g, a, row)
    ensures var key := GroupKey(g, row);
            ValuesMatch(op, g, a, rows + [row], values[key := Step(op, Previous(op, values, key), row[a].intValue)])
  {
    var key := GroupKey(g, row);
    var values' := values[key := Step(op, Previous(op, values, key), row[a].intValue)];
    GroupsOfSnoc(g, rows, row);
    ValuesInSnoc(g, a, rows, row, key);
    assert values'.Keys == values.Keys + {key};
    forall k | k in values'
      ensures values'[k] == Fold(op, ValuesIn(g, a, rows + [row], k))
    {
      MergeStepAt(op, g, a, rows, values, row, k);
    }
  }

  /** What the integer aggregator reports for group `key` after the rows:
      the folded value, and for AVG that value divided, as Java divides
      `int`s, by the group's 32-bit count (a zero count raises
      `ArithmeticException`). */
  function GroupResult(op: Op, g: Grouping, a: nat, rows: seq<seq<Field>>, key: Field): Result<int>
    requires AllFit(g, a, rows)
  {
    var vs := ValuesIn(g, a, rows, key);
    if op != Avg then Ok(Fold(op, vs))
    else if Wrap32(|vs|) == 0 then Err(Arithmetic)
    else Ok(JavaDiv(Fold(op, vs), Wrap32(|vs|)))
  }

  /** Each group's reported value, for the groups whose value is
      defined. */
  function GroupResults(op: Op, g: Grouping, a: nat, rows: seq<seq<Field>>): map<Field, int>
    requires AllFit(g, a, rows)
  {
    map k | k in GroupsOf(g, rows) && GroupResult(op, g, a, rows, k).Ok? :: GroupResult(op, g, a, rows, k).value
  }

  /** AVG is the group's sum divided by its size, truncated toward zero,
      whenever neither the sum nor the size overflows an `int`. */
  lemma AvgIsTruncatedMean(g: Grouping, a: nat, rows: seq<seq<Field>>, key: Field)
    requires AllFit(g, a, rows)
    requires var vs := ValuesIn(g, a, rows, key); vs != [] && |vs| <= INT_MAX && IsInt32(SumOf(vs))
    ensures var vs := ValuesIn(g, a, rows, key);
            GroupResult(Avg, g, a, rows, key) == Ok(TruncDiv(SumOf(vs), |vs|))
  {
    var vs := ValuesIn(g, a, rows, key);
    FoldSumWraps(Avg, vs);
    JavaDivExact(SumOf(vs), |vs|);
  }

  /** Ungrouped AVG over no tuples divides by a zero count. */
  lemma UngroupedAvgOfNothingFails(a: nat)
    ensures GroupResult(Avg, NoGrouping, a, [], NO_GROUPING_KEY) == Err(Arithmetic)
  {
  }

  /** One output tuple for a group: the group and its value, under the
      given schema, with no record id. */
  predicate IsGroupTuple(t: TD.Tuple, desc: TD.TupleDesc, values: map<Field, int>)
  {
    && t.desc == desc && t.rid == None && |t.fields| == 2
    && t.fields[0] in values && t.fields[1] == IntField(values[t.fields[0]])
  }

  /** Grouped output: exactly one tuple per group, pairing it with its
      value. */
  predicate OnePerGroup(tuples: seq<TD.Tuple>, desc: TD.TupleDesc, values: map<Field, int>)
  {
    && |tuples| == |values|
    && (forall i :: 0 <= i < |tuples| ==> IsGroupTuple(tuples[i], desc, values))
    && (forall i, j :: 0 <= i < j < |tuples| ==> tuples[i].fields != tuples[j].fields)
  }

  /** The tuples listed so far, one per group of `done`. */
  predicate ListedSoFar(tuples: seq<TD.Tuple>, desc: TD.TupleDesc, values: map<Field, int>, done: set<Field>)
  {
    && |tuples| == |done|
    && (forall i :: 0 <= i < |tuples| ==> IsGroupTuple(tuples[i], desc, values) && tuples[i].fields[0] in done)
    && (forall i, j :: 0 <= i < j < |tuples| ==> tuples[i].fields != tuples[j].fields)
  }

  lemma ListOneMore(tuples: seq<TD.Tuple>, desc: TD.TupleDesc, values: map<Field, int>, done: set<Field>, k: Field)
    requires ListedSoFar(tuples, desc, values, done) && k in values && k !in done
    ensures ListedSoFar(tuples + [TD.Tuple(desc, [k, IntField(values[k])], None)], desc, values, done + {k})
  {
  }

  lemma ListedMore(tuples: seq<TD.Tuple>, desc: TD.TupleDesc, values: map<Field, int>, k: Field, v: int)
    requires ListedSoFar(tuples, desc, values, values.Keys) && k !in values
    ensures ListedSoFar(tuples + [TD.Tuple(desc, [k, IntField(v)], None)], desc, values[k := v], values[k := v].Keys)
  {
    var tuples' := tuples + [TD.Tuple(desc, [k, IntField(v)], None)];
    var values' := values[k := v];
    forall i | 0 <= i < |tuples'|
      ensures IsGroupTuple(tuples'[i], desc, values') && tuples'[i].fields[0] in values'.Keys
    {
      if i < |tuples| {
        assert tuples'[i] == tuples[i];
      }
    }
  }

  /** A map holding the reported value of every group, and nothing else, is
      the map of group results. */
  lemma ResultsAreGroupResults(op: Op, g: Grouping, a: nat, rows: seq<seq<Field>>, m: map<Field, int>)
    requires AllFit(g, a, rows) && m.Keys == GroupsOf(g, rows)
    requires forall k | k in m :: GroupResult(op, g, a, rows, k) == Ok(m[k])
    ensures m == GroupResults(op, g, a, rows)
  {
  }

  lemma ListedAll(tuples: seq<TD.Tuple>, desc: TD.TupleDesc, values: map<Field, int>)
    requires ListedSoFar(tuples, desc, values, values.Keys)
    ensures OnePerGroup(tuples, desc, values)
  {
  }

  /** The invariant of the grouped `getTuples` loop: the groups are split
      into those still `remaining` and those whose value is in `results`,
      each of them the group's result and listed once in `tuples`. */
  ghost predicate Collected(op: Op, g: Grouping, a: nat, rows: seq<seq<Field>>, desc: TD.TupleDesc,
                            remaining: set<Field>, results: map<Field, int>, tuples: seq<TD.Tuple>)
    requires AllFit(g, a, rows)
  {
    && remaining + results.Keys == GroupsOf(g, rows) && remaining !! results.Keys
    && (forall k | k in results :: GroupResult(op, g, a, rows, k) == Ok(results[k]))
    && ListedSoFar(tuples, desc, results, results.Keys)
  }

  /** Listing one more group's value keeps the invariant. */
  lemma CollectedStep(op: Op, g: Grouping, a: nat, rows: seq<seq<Field>>, desc: TD.TupleDesc,
                      remaining: set<Field>, results: map<Field, int>, tuples: seq<TD.Tuple>, k: Field, v: int)
    requires AllFit(g, a, rows) && Collected(op, g, a, rows, desc, remaining, results, tuples)
    requires k in remaining && GroupResult(op, g, a, rows, k) == Ok(v)
    ensures Collected(op, g, a, rows, desc, remaining - {k}, results[k := v], tuples + [TD.Tuple(desc, [k, IntField(v)], None)])
    ensures |remaining - {k}| < |remaining|
  {
    ListedMore(tuples, desc, results, k, v);
    var results' := results[k := v];
    assert (remaining - {k}) + results'.Keys == remaining + results.Keys;
    forall j | j in results'
      ensures GroupResult(op, g, a, rows, j) == Ok(results'[j])
    {
      if j != k {
        assert j in results && results'[j] == results[j];
      }
    }
    assert |remaining - {k}| == |remaining| - 1;
  }

  /** With nothing remaining, the results are every group's result, each
      listed once. */
  lemma CollectedAll(op: Op, g: Grouping, a: nat, rows: seq<seq<Field>>, desc: TD.TupleDesc,
                     results: map<Field, int>, tuples: seq<TD.Tuple>)
    requires AllFit(g, a, rows) && Collected(op, g, a, rows, desc, {}, results, tuples)
    ensures forall k :: k in GroupsOf(g, rows) ==> GroupResult(op, g, a, rows, k).Ok?
    ensures OnePerGroup(tuples, desc, GroupResults(op, g, a, rows))
  {
    ResultsAreGroupResults(op, g, a, rows, results);
    ListedAll(tuples, desc, results);
  }

  /** The aggregator over integer fields. */
  class IntegerAggregator {
    const grouping: Grouping
    const aggregateField: nat
    const op: Op
    const counter: CountingAggregator
    var aggregateValues: map<Field, int>
    /** The tuples merged so far, in order. */
    ghost var merged: seq<seq<Field>>

    /** The counter has counted the same tuples, and every group seen holds
        the fold of its values. */
    ghost predicate Valid()
      reads this, counter
    {
      && counter.grouping == grouping && counter.Valid() && counter.merged == merged
      && ValuesMatch(op, grouping, aggregateField, merged, aggregateValues)
    }

    constructor (grouping: Grouping, aggregateField: nat, op: Op)
      ensures this.grouping == grouping && this.aggregateField == aggregateField && this.op == op
      ensures aggregateValues == map[] && merged == [] && fresh(counter) && Valid()
    {
      this.grouping := grouping;
      this.aggregateField := aggregateField;
      this.op := op;
      aggregateValues := map[];
      merged := [];
      counter := new CountingAggregator(grouping);
    }

    /** `getAggregateValue`: the group's value, or the default for a group
        never seen; it is the fold of the group's values. */
    function GetAggregateValue(key: Field): (v: int)
      reads this, counter
      ensures Valid() ==> v == Fold(op, ValuesIn(grouping, aggregateField, merged, key))
    {
      UnseenHasNoValues(op, grouping, aggregateField, merged, aggregateValues, key);
      Previous(op, aggregateValues, key)
    }

    /** `mergeTupleIntoGroup`: the tuple's group takes one more value and
        the counter one more tuple; no other group changes. */
    method MergeTupleIntoGroup(row: seq<Field>)
      requires Valid() && Fits(grouping, aggregateField, row)
      modifies this, counter
      ensures merged == old(merged) + [row]
      ensures aggregateValues
           == old(aggregateValues)[GroupKey(grouping, row) :=
                Step(op, Previous(op, old(aggregateValues), GroupKey(grouping, row)), row[aggregateField].intValue)]
      ensures counter.counts
           == old(counter.counts)[GroupKey(grouping, row) := Wrap32(CountOf(old(counter.counts), GroupKey(grouping, row)) + 1)]
      ensures Valid()
    {
      var g := GroupKey(grouping, row);
      var previous := Previous(op, aggregateValues, g);
      MergeStep(op, grouping, aggregateField, merged, aggregateValues, row);
      ghost var merged' := merged + [row];
      counter.CountTuple(row);
      assert counter.Valid() && counter.merged == merged';
      var value := row[aggregateField].intValue;
      aggregateValues := aggregateValues[g := Step(op, previous, value)];
      merged := merged';
      assert ValuesMatch(op, grouping, aggregateField, merged, aggregateValues);
    }

    /** What `getTuples` reports for one group: the group's value, divided
        for AVG by the group's count, which fails when the count is 0. */
    function Report(key: Field): (r: Result<int>)
      reads this, counter
      ensures Valid() ==> r == GroupResult(op, grouping, aggregateField, merged, key)
    {
      ValuesInLength(grouping, aggregateField, merged, key);
      var value := GetAggregateValue(key);
      if op != Avg then Ok(value)
      else
        var count := counter.GetCount(key);
        if count == 0 then Err(Arithmetic) else Ok(JavaDiv(value, count))
    }

    /** `getTuples`: with grouping, one (group, value) tuple per group seen,
        in the map's order; without grouping, the single value. AVG fails
        with `ArithmeticException` on a zero count. */
    method GetTuples(desc: TD.TupleDesc) returns (r: Result<seq<TD.Tuple>>)
      requires Valid()
      ensures grouping.GroupOn? ==>
                && (r.Ok? <==> forall k :: k in GroupsOf(grouping, merged) ==> GroupResult(op, grouping, aggregateField, merged, k).Ok?)
                && (r.Err? ==> r.error == Arithmetic)
                && (r.Ok? ==> OnePerGroup(r.value, desc, GroupResults(op, grouping, aggregateField, merged)))
      ensures grouping.NoGrouping? ==>
                r == match GroupResult(op, grouping, aggregateField, merged, NO_GROUPING_KEY)
                     case Ok(v) => Ok([TD.Tuple(desc, [IntField(v)], None)])
                     case Err(e) => Err(e)
    {
      if grouping.NoGrouping? {
        var value := Report(NO_GROUPING_KEY);
        if value.Err? {
          return Err(value.error);
        }
        return Ok([TD.Tuple(desc, [IntField(value.value)], None)]);
      }
      forall k
        ensures Report(k) == GroupResult(op, grouping, aggregateField, merged, k)
      {
      }
      r := GroupTuples(desc);
    }

    /** What the grouped branch of `getTuples` needs: the groups are the
        keys of the value map, and each group's report is its result. */
    ghost predicate ReportsReady()
      reads this, counter
    {
      && AllFit(grouping, aggregateField, merged)
      && aggregateValues.Keys == GroupsOf(grouping, merged)
      && forall k :: Report(k) == GroupResult(op, grouping, aggregateField, merged, k)
    }

    /** The grouped branch of `getTuples`. */
    method GroupTuples(desc: TD.TupleDesc) returns (r: Result<seq<TD.Tuple>>)
      requires ReportsReady()
      ensures r.Ok? <==> forall k :: k in GroupsOf(grouping, merged) ==> GroupResult(op, grouping, aggregateField, merged, k).Ok?
      ensures r.Err? ==> r.error == Arithmetic
      ensures r.Ok? ==> OnePerGroup(r.value, desc, GroupResults(op, grouping, aggregateField, merged))
    {
      ghost var results: map<Field, int> := map[];
      var tuples: seq<TD.Tuple> := [];
      var remaining := aggregateValues.Keys;
      while remaining != {}
        invariant Collected(op, grouping, aggregateField, merged, desc, remaining, results, tuples)
        decreases |remaining|
      {
        var k :| k in remaining;
        var value := Report(k);
        if value.Err? {
          return Err(value.error);
        }
        CollectedStep(op, grouping, aggregateField, merged, desc, remaining, results, tuples, k, value.value);
        tuples := tuples + [TD.Tuple(desc, [k, IntField(value.value)], None)];
        results := results[k := value.value];
        remaining := remaining - {k};
      }
      CollectedAll(op, grouping, aggregateField, merged, desc, results, tuples);
      r := Ok(tuples);
    }
  }

  /** The aggregator over string fields: it counts tuples and nothing
      else. */
  class StringAggregator {
    const grouping: Grouping
    const counter: CountingAggregator

    ghost predicate Valid()
      reads this, counter
    {
      counter.grouping == grouping && counter.Valid()
    }

    constructor (grouping: Grouping)
      ensures this.grouping == grouping && fresh(counter) && counter.merged == [] && counter.counts == map[]
      ensures Valid()
    {
      this.grouping := grouping;
      counter := new CountingAggregator(grouping);
    }

    /** The constructor's check: any operator but COUNT is unsupported. */
    static method Create(grouping: Grouping, what: Op) returns (r: Result<StringAggregator>)
      ensures what != Count ==> r == Err(Unsupported)
      ensures what == Count ==>
                && r.Ok? && fresh(r.value) && fresh(r.value.counter)
                && r.value.grouping == grouping && r.value.counter.merged == [] && r.value.Valid()
    {
      if what != Count {
        return Err(Unsupported);
      }
      var agg := new StringAggregator(grouping);
      r := Ok(agg);
    }

    /** `mergeTupleIntoGroup`: the tuple is counted in its group. */
    method MergeTupleIntoGroup(row: seq<Field>)
      requires Valid() && HasGroupField(grouping, row)
      modifies counter
      ensures counter.merged == old(counter.merged) + [row]
      ensures counter.counts
           == old(counter.counts)[GroupKey(grouping, row) := Wrap32(CountOf(old(counter.counts), GroupKey(grouping, row)) + 1)]
      ensures Valid()
    {
      counter.CountTuple(row);
    }

    /** `getTuples`: with grouping, one (group, count) tuple per group seen;
        without grouping, the single total. */
    method GetTuples(desc: TD.TupleDesc) returns (r: seq<TD.Tuple>)
      requires Valid()
      ensures grouping.GroupOn? ==>
                OnePerGroup(r, desc, counter.counts) && counter.counts.Keys == GroupsOf(grouping, counter.merged)
      ensures grouping.NoGrouping? ==> r == [TD.Tuple(desc, [IntField(Wrap32(|counter.merged|))], None)]
    {
      if grouping.NoGrouping? {
        var count := counter.GetUngroupedCount();
        return [TD.Tuple(desc, [IntField(count)], None)];
      }
      var counts := counter.GetCounts();
      var tuples: seq<TD.Tuple> := [];
      var remaining := counts.Keys;
      ghost var done: set<Field> := {};
      while remaining != {}
        invariant remaining + done == counts.Keys && remaining !! done
        invariant ListedSoFar(tuples, desc, counts, done)
        decreases |remaining|
      {
        var k :| k in remaining;
        var count := counter.GetCount(k);
        ListOneMore(tuples, desc, counts, done, k);
        tuples := tuples + [TD.Tuple(desc, [k, IntField(count)], None)];
        remaining := remaining - {k};
        done := done + {k};
      }
      ListedAll(tuples, desc, counts);
      r := tuples;
    }
  }
}
