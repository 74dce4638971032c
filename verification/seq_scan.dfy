/** The sequential scan operator's schema handling: the table's schema with
    every field name prefixed by the scan's alias, and `reset`, which points
    the scan at another table. */
module SeqScan {
  import opened Common
  import opened Ids
  import opened Types
  import TD = TupleDesc

  /** `representPossiblyNullString`: a null string is rendered as "null". */
  function Represent(s: Option<string>): (r: string)
    ensures s.Some? ==> r == s.value
    ensures s.None? ==> r == "null"
  {
    if s.None? then "null" else s.value
  }

  /** The name a field takes in the scan's schema: alias, a dot, field name. */
  function PrefixedName(alias: Option<string>, name: Option<string>): (r: string)
    ensures |r| == |Represent(alias)| + 1 + |Represent(name)|
    ensures r[|Represent(alias)|] == '.'
  {
    Represent(alias) + "." + Represent(name)
  }

  /** The first `c` in `s`, if any. */
  function IndexOf(s: string, c: char): (r: Option<nat>)
    ensures r.Some? ==> r.value < |s| && s[r.value] == c && c !in s[..r.value]
    ensures r.None? ==> c !in s
  {
    if s == [] then None
    else if s[0] == c then Some(0)
    else
      var rest := IndexOf(s[1..], c);
      if rest.None? then None else Some(rest.value + 1)
  }

  /** A `c` at index k puts the first `c` at k or before. */
  lemma {:induction false} IndexOfAtMost(s: string, c: char, k: nat)
    requires k < |s| && s[k] == c
    ensures IndexOf(s, c).Some? && IndexOf(s, c).value <= k
  {
    if s[0] != c {
      IndexOfAtMost(s[1..], c, k - 1);
    }
  }

  /** No `c` before index k puts the first `c`, if any, at k or after. */
  lemma {:induction false} IndexOfAtLeast(s: string, c: char, k: nat)
    requires k <= |s| && forall j :: 0 <= j < k ==> s[j] != c
    ensures IndexOf(s, c).None? || IndexOf(s, c).value >= k
  {
    if s != [] && k > 0 {
      IndexOfAtLeast(s[1..], c, k - 1);
    }
  }

  /** When the alias has no dot, the alias and the field name can be read
      back from a prefixed name: the alias is what precedes the first dot. */
  lemma SplitPrefixedName(alias: Option<string>, name: Option<string>)
    requires '.' !in Represent(alias)
    ensures var r := PrefixedName(alias, name);
            IndexOf(r, '.') == Some(|Represent(alias)|)
            && r[..|Represent(alias)|] == Represent(alias)
            && r[|Represent(alias)| + 1..] == Represent(name)
  {
    var a := Represent(alias);
    var r := PrefixedName(alias, name);
    assert r[..|a|] == a;
    assert r[|a| + 1..] == Represent(name);
    forall j | 0 <= j < |a|
      ensures r[j] != '.'
    {
      assert r[j] == a[j];
    }
    IndexOfAtMost(r, '.', |a|);
    IndexOfAtLeast(r, '.', |a|);
  }

  /** Under one alias, distinct field names stay distinct, except that a
      null name and the name "null" are both rendered "alias.null". */
  lemma PrefixedNamesDistinct(alias: Option<string>, n1: Option<string>, n2: Option<string>)
    ensures PrefixedName(alias, n1) == PrefixedName(alias, n2) <==> Represent(n1) == Represent(n2)
  {
    var a := Represent(alias) + ".";
    if PrefixedName(alias, n1) == PrefixedName(alias, n2) {
      assert Represent(n1) == PrefixedName(alias, n1)[|a|..];
      assert Represent(n2) == PrefixedName(alias, n2)[|a|..];
    }
  }

  /** `getPrefixedTupleDesc`, given the table's schema: the same number of
      fields with the same type at each index, each named
      `alias.fieldName`. */
  method PrefixedTupleDesc(underlying: TD.TupleDesc, alias: Option<string>) returns (td: TD.TupleDesc)
    ensures TD.NumFields(td) == TD.NumFields(underlying)
    ensures forall i :: 0 <= i < TD.NumFields(td) ==>
              && td.items[i].fieldType == underlying.items[i].fieldType
              && td.items[i].fieldName == Some(PrefixedName(alias, underlying.items[i].fieldName))
  {
    var aliasText := Represent(alias);
    var size := TD.NumFields(underlying);
    var newTypes := new FieldType[size](_ => IntType);
    var newFieldNames := new Option<string>[size](_ => None);
    for i := 0 to size
      invariant forall j :: 0 <= j < i ==>
                  && newTypes[j] == underlying.items[j].fieldType
                  && newFieldNames[j] == Some(PrefixedName(alias, underlying.items[j].fieldName))
    {
      var fieldType := underlying.items[i].fieldType;
      var fieldName := underlying.items[i].fieldName;
      newTypes[i] := fieldType;
      newFieldNames[i] := Some(aliasText + "." + Represent(fieldName));
    }
    var r := TD.FromArrays(newTypes[..], newFieldNames[..]);
    td := r.value;
  }

  /** The table iterator a scan reads from: the one the table's file hands
      out for the scan's transaction. */
  datatype FileScan = FileScan(tableId: int, tid: Tid)

  /** A sequential scan over one table, under one alias. */
  class SeqScan {
    const transactionId: Tid
    var tupleDesc: TD.TupleDesc
    var fileIterator: FileScan
    var tableId: int
    var tableAlias: Option<string>

    /** The schema is the table's schema under the alias, and the iterator
        reads the table for the scan's transaction. */
    ghost predicate ScansTable(underlying: TD.TupleDesc)
      reads this
    {
      && TD.NumFields(tupleDesc) == TD.NumFields(underlying)
      && (forall i :: 0 <= i < TD.NumFields(tupleDesc) ==>
            && tupleDesc.items[i].fieldType == underlying.items[i].fieldType
            && tupleDesc.items[i].fieldName == Some(PrefixedName(tableAlias, underlying.items[i].fieldName)))
      && fileIterator == FileScan(tableId, transactionId)
    }

    /** The scan of table `tableId`, whose schema is `underlying`. */
    constructor (tid: Tid, tableId: int, tableAlias: Option<string>, underlying: TD.TupleDesc)
      ensures transactionId == tid && this.tableId == tableId && this.tableAlias == tableAlias
      ensures ScansTable(underlying)
    {
      transactionId := tid;
      this.tableId := tableId;
      this.tableAlias := tableAlias;
      tupleDesc := TD.TupleDesc([]);
      fileIterator := FileScan(tableId, tid);
      new;
      Reset(tableId, tableAlias, underlying);
    }

    /** `reset`: the table id, the alias, the schema and the iterator are
        replaced together; the transaction stays. */
    method Reset(tid: int, alias: Option<string>, underlying: TD.TupleDesc)
      modifies this
      ensures tableId == tid && tableAlias == alias
      ensures ScansTable(underlying)
    {
      tableId := tid;
      tableAlias := alias;
      tupleDesc := PrefixedTupleDesc(underlying, alias);
      fileIterator := FileScan(tid, transactionId);
    }

    /** `getAlias`. */
    function GetAlias(): (a: Option<string>)
      reads this
      ensures a == tableAlias
    {
      tableAlias
    }
  }
}
