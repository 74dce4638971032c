/** The schema of a tuple (the `simpledb.TupleDesc` of the engine): an ordered
    list of (type, possibly null name) items, and the tuples that follow it. */
module TupleDesc {
  import opened Common
  import opened Ids
  import opened Types

  /** One field of a schema; the name may be null. */
  datatype TDItem = TDItem(fieldType: FieldType, fieldName: Option<string>)

  /** `TDItem.equals(Object)`: null-safe name comparison and the same type. */
  predicate ItemEquals(a: TDItem, other: Option<TDItem>)
    ensures ItemEquals(a, other) <==> other == Some(a)
  {
    && other.Some?
    && (if a.fieldName.None? then other.value.fieldName.None?
        else other.value.fieldName == a.fieldName)
    && a.fieldType == other.value.fieldType
  }

  datatype TupleDesc = TupleDesc(items: seq<TDItem>)

  /** `TDItem.getListFrom` behind the two-array constructor: one item per
      type, named by the name at the same index; a names array shorter than
      the types array runs off its end. */
  function FromArrays(types: seq<FieldType>, names: seq<Option<string>>): (r: Result<TupleDesc>)
    ensures r.Ok? <==> |names| >= |types|
    ensures r.Ok? ==> NumFields(r.value) == |types| &&
                      forall i :: 0 <= i < |types| ==>
                        r.value.items[i].fieldType == types[i] && r.value.items[i].fieldName == names[i]
  {
    if |names| < |types| then Err(IndexOutOfBounds)
    else Ok(TupleDesc(seq(|types|, i requires 0 <= i < |types| => TDItem(types[i], names[i]))))
  }

  /** The one-array constructor: every field unnamed. */
  function Anonymous(types: seq<FieldType>): (td: TupleDesc)
    ensures NumFields(td) == |types|
    ensures forall i :: 0 <= i < |types| ==> td.items[i] == TDItem(types[i], None)
  {
    FromArrays(types, seq(|types|, _ => None)).value
  }

  function NumFields(td: TupleDesc): nat
  {
    |td.items|
  }

  /** Bytes occupied by a tuple of these items: the sum of the field widths. */
  function SizeOf(items: seq<TDItem>): nat
  {
    if items == [] then 0 else SizeOf(items[..|items| - 1]) + TypeLen(items[|items| - 1].fieldType)
  }

  function Size(td: TupleDesc): nat
  {
    SizeOf(td.items)
  }

  /** The size of a concatenation is the sum of the sizes. */
  lemma {:induction false} SizeOfAppend(a: seq<TDItem>, b: seq<TDItem>)
    ensures SizeOf(a + b) == SizeOf(a) + SizeOf(b)
    decreases |b|
  {
    if b == [] {
      assert a + b == a;
    } else {
      var last := b[|b| - 1];
      assert (a + b)[..|a + b| - 1] == a + b[..|b| - 1];
      SizeOfAppend(a, b[..|b| - 1]);
    }
  }

  /** A schema with at least one field has a positive size; every field
      counts. */
  lemma {:induction false} SizeOfBounds(items: seq<TDItem>)
    ensures SizeOf(items) >= |items|
    ensures |items| > 0 ==> SizeOf(items) > 0
  {
    if items != [] {
      SizeOfBounds(items[..|items| - 1]);
    }
  }

  /** The size loop of the constructor: the sum of the field widths. */
  method ComputeSize(items: seq<TDItem>) returns (size: nat)
    ensures size == SizeOf(items)
  {
    size := 0;
    for i := 0 to |items|
      invariant size == SizeOf(items[..i])
    {
      assert items[..i + 1][..i] == items[..i];
      size := size + TypeLen(items[i].fieldType);
    }
    assert items[..|items|] == items;
  }

  /** `getFieldName(i)`: the (possibly null) name of field i, or
      NoSuchElement when i is not a field index. */
  function GetFieldName(td: TupleDesc, i: int): (r: Result<Option<string>>)
    ensures r.Ok? <==> 0 <= i < NumFields(td)
    ensures r.Ok? ==> r.value == td.items[i].fieldName
    ensures r.Err? ==> r.error == NoSuchElement
  {
    if 0 <= i < NumFields(td) then Ok(td.items[i].fieldName) else Err(NoSuchElement)
  }

  /** `getFieldType(i)`: the type of field i, or NoSuchElement. */
  function GetFieldType(td: TupleDesc, i: int): (r: Result<FieldType>)
    ensures r.Ok? <==> 0 <= i < NumFields(td)
    ensures r.Ok? ==> r.value == td.items[i].fieldType
    ensures r.Err? ==> r.error == NoSuchElement
  {
    if 0 <= i < NumFields(td) then Ok(td.items[i].fieldType) else Err(NoSuchElement)
  }

  /** The first index whose (non-null) name equals `name`, if any. */
  function FirstIndexOfName(items: seq<TDItem>, name: string): (r: Option<nat>)
    ensures r.Some? ==> r.value < |items| && items[r.value].fieldName == Some(name)
    ensures r.Some? ==> forall j :: 0 <= j < r.value ==> items[j].fieldName != Some(name)
    ensures r.None? ==> forall j :: 0 <= j < |items| ==> items[j].fieldName != Some(name)
  {
    if items == [] then None
    else if items[0].fieldName == Some(name) then Some(0)
    else match FirstIndexOfName(items[1..], name)
         case None => None
         case Some(k) => Some(k + 1)
  }

  /** `merge(td1, td2)`: td1's fields followed by td2's. */
  function Merge(td1: TupleDesc, td2: TupleDesc): (td: TupleDesc)
    ensures NumFields(td) == NumFields(td1) + NumFields(td2)
    ensures Size(td) == Size(td1) + Size(td2)
    ensures forall i :: 0 <= i < NumFields(td1) ==> td.items[i] == td1.items[i]
    ensures forall i :: 0 <= i < NumFields(td2) ==> td.items[NumFields(td1) + i] == td2.items[i]
  {
    SizeOfAppend(td1.items, td2.items);
    TupleDesc(td1.items + td2.items)
  }

  /** `List.equals` over the item lists, with ItemEquals on each pair. */
  predicate ItemListEquals(a: seq<TDItem>, b: seq<TDItem>)
    ensures ItemListEquals(a, b) <==> a == b
  {
    |a| == |b| && forall i :: 0 <= i < |a| ==> ItemEquals(a[i], Some(b[i]))
  }

  /** `equals(Object)`: false for null, otherwise the item lists compared. */
  predicate Equals(td: TupleDesc, other: Option<TupleDesc>)
    ensures Equals(td, other) ==> other == Some(td)
    ensures other == Some(td) ==> Equals(td, other)
  {
    other.Some? && ItemListEquals(td.items, other.value.items)
  }

  /** Schema equality compares names as well as types: it is value
      equality. */
  lemma EqualsIsValueEquality(td: TupleDesc, other: TupleDesc)
    ensures Equals(td, Some(other)) <==> td == other
    ensures !Equals(td, None)
  {
    if Equals(td, Some(other)) {
      assert forall i :: 0 <= i < |td.items| ==> td.items[i] == other.items[i];
      assert td.items == other.items;
    }
  }

  /** A row of field values follows a schema: one value per field, of the
      field's type (the engine's `Tuple` always holds `numFields()` slots). */
  predicate Conforms(td: TupleDesc, row: seq<Field>)
  {
    |row| == NumFields(td) && forall i :: 0 <= i < |row| ==> TypeOf(row[i]) == td.items[i].fieldType
  }

  /** A tuple: its schema, its field values and its (possibly null) record
      id. */
  datatype Tuple = Tuple(desc: TupleDesc, fields: seq<Field>, rid: Option<RecordId>)

  /** The schema object's name lookup with its memo table
      (`fieldNameToIndex` and `nameToIdMap`). */
  class NameIndex {
    const desc: TupleDesc
    var nameToIdMap: map<string, nat>

    /** Every memoised name maps to its first index in the schema. */
    ghost predicate Valid()
      reads this
    {
      forall n :: n in nameToIdMap ==> FirstIndexOfName(desc.items, n) == Some(nameToIdMap[n])
    }

    constructor (desc: TupleDesc)
      ensures this.desc == desc && nameToIdMap == map[] && Valid()
    {
      this.desc := desc;
      nameToIdMap := map[];
    }

    /** The index of the first field named `name`; a null name never
        matches, and a miss is NoSuchElement. A found index is memoised. */
    method FieldNameToIndex(name: Option<string>) returns (r: Result<nat>)
      requires Valid()
      modifies this
      ensures Valid()
      ensures name.None? ==> r == Err(NoSuchElement)
      ensures name.Some? ==> r == (match FirstIndexOfName(desc.items, name.value)
                                   case Some(i) => Ok(i)
                                   case None => Err(NoSuchElement))
      ensures nameToIdMap == if r.Ok? then old(nameToIdMap)[name.value := r.value] else old(nameToIdMap)
    {
      if name.Some? && name.value in nameToIdMap {
        return Ok(nameToIdMap[name.value]);
      }
      var i := 0;
      while i < NumFields(desc)
        invariant 0 <= i <= NumFields(desc)
        invariant forall j :: 0 <= j < i ==> name.None? || desc.items[j].fieldName != name
      {
        var field := GetFieldName(desc, i).value;
        if field.Some? && Some(field.value) == name {
          nameToIdMap := nameToIdMap[name.value := i];
          return Ok(i);
        }
        i := i + 1;
      }
      return Err(NoSuchElement);
    }
  }
}
