/** The older schema class used by the catalog (`src/simpledb/TupleDesc`):
    parallel arrays of types and names, with names compared by reference in
    the name lookup. */
module LegacyTupleDesc {
  import opened Common
  import opened Types

  /** A Java String object: its identity and its characters. Two objects with
      the same identity always hold the same characters. */
  datatype Str = Str(ref: nat, text: string)

  function TextOf(s: Option<Str>): Option<string>
  {
    if s.None? then None else Some(s.value.text)
  }

  /** The type array and the (possibly longer) name array of a schema. */
  datatype TupleDesc = TupleDesc(types: seq<FieldType>, names: seq<Option<Str>>)

  /** What the constructor leaves behind: building the string form reads one
      name per type, so a names array shorter than the types array fails
      construction. */
  predicate Constructed(td: TupleDesc)
  {
    |td.names| >= |td.types|
  }

  /** The two-array constructor. */
  function Create(types: seq<FieldType>, names: seq<Option<Str>>): (r: Result<TupleDesc>)
    ensures r.Ok? <==> |names| >= |types|
    ensures r.Ok? ==> Constructed(r.value) && r.value.types == types && r.value.names == names
  {
    if |names| < |types| then Err(IndexOutOfBounds) else Ok(TupleDesc(types, names))
  }

  /** The one-array constructor: every name null. */
  function CreateAnonymous(types: seq<FieldType>): (td: TupleDesc)
    ensures Constructed(td) && NumFields(td) == |types|
    ensures forall i :: 0 <= i < |types| ==> GetFieldName(td, i) == Ok(None)
  {
    Create(types, seq(|types|, _ => None)).value
  }

  function NumFields(td: TupleDesc): nat
  {
    |td.types|
  }

  /** Sum of the widths of the types. */
  function SizeOfTypes(types: seq<FieldType>): nat
  {
    if types == [] then 0 else SizeOfTypes(types[..|types| - 1]) + TypeLen(types[|types| - 1])
  }

  function GetSize(td: TupleDesc): nat
  {
    SizeOfTypes(td.types)
  }

  lemma {:induction false} SizeOfTypesAppend(a: seq<FieldType>, b: seq<FieldType>)
    ensures SizeOfTypes(a + b) == SizeOfTypes(a) + SizeOfTypes(b)
    decreases |b|
  {
    if b == [] {
      assert a + b == a;
    } else {
      assert (a + b)[..|a + b| - 1] == a + b[..|b| - 1];
      SizeOfTypesAppend(a, b[..|b| - 1]);
    }
  }

  /** The constructor's size loop. */
  method ComputeSize(types: seq<FieldType>) returns (size: nat)
    ensures size == SizeOfTypes(types)
  {
    size := 0;
    for i := 0 to |types|
      invariant size == SizeOfTypes(types[..i])
    {
      assert types[..i + 1][..i] == types[..i];
      size := size + TypeLen(types[i]);
    }
    assert types[..|types|] == types;
  }

  /** `combine(td1, td2)`: both arrays concatenated. */
  function Combine(td1: TupleDesc, td2: TupleDesc): (td: TupleDesc)
    requires Constructed(td1) && Constructed(td2)
    ensures Constructed(td)
    ensures NumFields(td) == NumFields(td1) + NumFields(td2)
    ensures GetSize(td) == GetSize(td1) + GetSize(td2)
    ensures forall i :: 0 <= i < NumFields(td1) ==> GetType(td, i) == GetType(td1, i) && GetFieldName(td, i) == GetFieldName(td1, i)
    ensures forall i :: 0 <= i < NumFields(td2) ==> GetType(td, NumFields(td1) + i) == GetType(td2, i)
    ensures td.types == td1.types + td2.types && td.names == td1.names + td2.names
  {
    SizeOfTypesAppend(td1.types, td2.types);
    TupleDesc(td1.types + td2.types, td1.names + td2.names)
  }

  /** The names of td2 stay with td2's fields only when td1 has exactly one
      name per field; a longer names array shifts them. */
  lemma CombineKeepsNamesAligned(td1: TupleDesc, td2: TupleDesc, i: int)
    requires Constructed(td1) && Constructed(td2) && |td1.names| == |td1.types|
    requires 0 <= i < NumFields(td2)
    ensures GetFieldName(Combine(td1, td2), NumFields(td1) + i) == GetFieldName(td2, i)
  {
  }

  /** When td1 carries more names than fields, its first surplus name lands
      on td2's first field in the combination. */
  lemma CombineShiftsSurplusName(td1: TupleDesc, td2: TupleDesc)
    requires Constructed(td1) && Constructed(td2) && |td1.names| > |td1.types|
    requires NumFields(td2) > 0
    ensures GetFieldName(Combine(td1, td2), NumFields(td1)) == Ok(td1.names[NumFields(td1)])
  {
  }

  /** A schema of one INT field named "a" with a surplus name "b", combined
      with one INT field named "c": the combination calls its second field
      "b", not "c". */
  lemma CombineSurplusNameExample()
    ensures var td1 := TupleDesc([IntType], [Some(Str(1, "a")), Some(Str(2, "b"))]);
            var td2 := TupleDesc([IntType], [Some(Str(3, "c"))]);
            && GetFieldName(Combine(td1, td2), 1) == Ok(Some(Str(2, "b")))
            && GetFieldName(td2, 0) == Ok(Some(Str(3, "c")))
  {
    var td1 := TupleDesc([IntType], [Some(Str(1, "a")), Some(Str(2, "b"))]);
    var td2 := TupleDesc([IntType], [Some(Str(3, "c"))]);
    CombineShiftsSurplusName(td1, td2);
  }

  /** `getFieldName(i)`: NoSuchElement outside [0, numFields). */
  function GetFieldName(td: TupleDesc, i: int): (r: Result<Option<Str>>)
    requires Constructed(td)
    ensures r.Ok? <==> 0 <= i < NumFields(td)
    ensures r.Ok? ==> r.value == td.names[i]
    ensures r.Err? ==> r.error == NoSuchElement
  {
    if 0 <= i < NumFields(td) then Ok(td.names[i]) else Err(NoSuchElement)
  }

  /** `getType(i)`: NoSuchElement outside [0, numFields). */
  function GetType(td: TupleDesc, i: int): (r: Result<FieldType>)
    ensures r.Ok? <==> 0 <= i < NumFields(td)
    ensures r.Ok? ==> r.value == td.types[i]
    ensures r.Err? ==> r.error == NoSuchElement
  {
    if 0 <= i < NumFields(td) then Ok(td.types[i]) else Err(NoSuchElement)
  }

  /** `equals(Object)`: a schema (not null) with as many fields and the same
      type at every position; names are not compared. */
  predicate Equals(td: TupleDesc, other: Option<TupleDesc>)
    ensures Equals(td, other) <==> other.Some? && td.types == other.value.types
  {
    && other.Some?
    && (TypesAgreeIsEquality(td, other.value);
        && NumFields(td) == NumFields(other.value)
        && forall i :: 0 <= i < NumFields(td) ==> GetType(td, i) == GetType(other.value, i))
  }

  /** Field-by-field type agreement is equality of the type arrays. */
  lemma TypesAgreeIsEquality(td: TupleDesc, other: TupleDesc)
    ensures (&& NumFields(td) == NumFields(other)
             && forall i :: 0 <= i < NumFields(td) ==> GetType(td, i) == GetType(other, i))
            <==> td.types == other.types
  {
    if NumFields(td) == NumFields(other) && forall i :: 0 <= i < NumFields(td) ==> GetType(td, i) == GetType(other, i) {
      forall i | 0 <= i < |td.types|
        ensures td.types[i] == other.types[i]
      {
        assert GetType(td, i) == GetType(other, i);
      }
    }
  }

  lemma EqualsIsTypeEquality(td: TupleDesc, other: TupleDesc)
    ensures Equals(td, Some(other)) <==> td.types == other.types
  {
  }

  /** Schema equality is an equivalence relation. */
  lemma EqualsIsEquivalence(a: TupleDesc, b: TupleDesc, c: TupleDesc)
    ensures Equals(a, Some(a))
    ensures Equals(a, Some(b)) ==> Equals(b, Some(a))
    ensures Equals(a, Some(b)) && Equals(b, Some(c)) ==> Equals(a, Some(c))
  {
    EqualsIsTypeEquality(a, a);
    EqualsIsTypeEquality(a, b);
    EqualsIsTypeEquality(b, a);
    EqualsIsTypeEquality(b, c);
    EqualsIsTypeEquality(a, c);
  }

  /** The first field index below numFields whose name is the very same
      String object as `name` (both null counts as a match). */
  function FirstIndexOfRef(names: seq<Option<Str>>, bound: nat, name: Option<Str>): (r: Option<nat>)
    requires bound <= |names|
    ensures r.Some? ==> r.value < bound && names[r.value] == name
    ensures r.Some? ==> forall j :: 0 <= j < r.value ==> names[j] != name
    ensures r.None? ==> forall j :: 0 <= j < bound ==> names[j] != name
  {
    if bound == 0 then None
    else match FirstIndexOfRef(names, bound - 1, name)
         case Some(k) => Some(k)
         case None => if names[bound - 1] == name then Some(bound - 1) else None
  }

  /** The first field index below numFields whose name has the same
      characters as `name`: what the lookup is documented to return. */
  function FirstIndexOfText(names: seq<Option<Str>>, bound: nat, name: Option<string>): (r: Option<nat>)
    requires bound <= |names|
    ensures r.Some? ==> r.value < bound && TextOf(names[r.value]) == name
    ensures r.Some? ==> forall j :: 0 <= j < r.value ==> TextOf(names[j]) != name
    ensures r.None? ==> forall j :: 0 <= j < bound ==> TextOf(names[j]) != name
  {
    if bound == 0 then None
    else match FirstIndexOfText(names, bound - 1, name)
         case Some(k) => Some(k)
         case None => if TextOf(names[bound - 1]) == name then Some(bound - 1) else None
  }

  /** A string built at run time is a new object: the reference scan misses
      a field whose name has the same characters. */
  lemma ReferenceScanMissesEqualText()
    ensures FirstIndexOfRef([Some(Str(1, "id"))], 1, Some(Str(2, "id"))) == None
    ensures FirstIndexOfText([Some(Str(1, "id"))], 1, Some("id")) == Some(0)
  {
  }

  /** Whenever the reference scan finds a field, the text scan finds the same
      field or an earlier one with the same characters. */
  lemma {:induction false} TextScanFindsNoLater(names: seq<Option<Str>>, bound: nat, name: Option<Str>)
    requires bound <= |names|
    requires FirstIndexOfRef(names, bound, name).Some?
    ensures FirstIndexOfText(names, bound, TextOf(name)).Some?
    ensures FirstIndexOfText(names, bound, TextOf(name)).value <= FirstIndexOfRef(names, bound, name).value
  {
    var i := FirstIndexOfRef(names, bound, name).value;
    assert TextOf(names[i]) == TextOf(name);
  }

  /** The schema object's `nameToId` with its memo table, keyed by the
      characters of the (possibly null) name. */
  class NameIndex {
    const desc: TupleDesc
    var nameToIdMap: map<Option<string>, nat>

    /** Every memoised entry names a field whose name has those characters
        (not necessarily the first such field, and not necessarily the same
        object). */
    ghost predicate Valid()
      reads this
    {
      && Constructed(desc)
      && forall k :: k in nameToIdMap ==> nameToIdMap[k] < NumFields(desc) && TextOf(desc.names[nameToIdMap[k]]) == k
    }

    constructor (desc: TupleDesc)
      requires Constructed(desc)
      ensures this.desc == desc && nameToIdMap == map[] && Valid()
    {
      this.desc := desc;
      nameToIdMap := map[];
    }

    /** A memoised answer for these characters, else the first field that
        is the very same String object; NoSuchElement when there is none. */
    method NameToId(name: Option<Str>) returns (r: Result<nat>)
      requires Valid()
      modifies this
      ensures Valid()
      ensures TextOf(name) in old(nameToIdMap) ==>
                r == Ok(old(nameToIdMap)[TextOf(name)]) && nameToIdMap == old(nameToIdMap)
      ensures TextOf(name) !in old(nameToIdMap) ==>
                r == (match FirstIndexOfRef(desc.names, NumFields(desc), name)
                      case Some(i) => Ok(i)
                      case None => Err(NoSuchElement))
      ensures TextOf(name) !in old(nameToIdMap) ==>
                nameToIdMap == if r.Ok? then old(nameToIdMap)[TextOf(name) := r.value] else old(nameToIdMap)
      ensures r.Ok? ==> r.value < NumFields(desc) && TextOf(desc.names[r.value]) == TextOf(name)
    {
      var key := TextOf(name);
      if key in nameToIdMap {
        return Ok(nameToIdMap[key]);
      }
      var i := 0;
      while i < NumFields(desc)
        invariant 0 <= i <= NumFields(desc)
        invariant FirstIndexOfRef(desc.names, i, name).None?
      {
        if desc.names[i] == name {
          nameToIdMap := nameToIdMap[key := i];
          return Ok(i);
        }
        i := i + 1;
      }
      return Err(NoSuchElement);
    }
  }

  /** The documented lookup: the first field whose name has the characters
      of `name`, or NoSuchElement. */
  function NameToIdByText(td: TupleDesc, name: Option<string>): (r: Result<nat>)
    requires Constructed(td)
    ensures r.Ok? ==> r.value < NumFields(td) && TextOf(td.names[r.value]) == name
    ensures r.Ok? ==> forall j :: 0 <= j < r.value ==> TextOf(td.names[j]) != name
    ensures r.Err? ==> r.error == NoSuchElement && forall j :: 0 <= j < NumFields(td) ==> TextOf(td.names[j]) != name
  {
    match FirstIndexOfText(td.names, NumFields(td), name)
    case Some(i) => Ok(i)
    case None => Err(NoSuchElement)
  }

  /** A lookup by a fresh String object with the characters of a field name,
      before any lookup was memoised, misses the field. */
  method FreshStringLookupMisses() returns (r: Result<nat>, byText: Result<nat>)
    ensures r == Err(NoSuchElement)
    ensures byText == Ok(0)
  {
    var td := TupleDesc([IntType], [Some(Str(1, "id"))]);
    var index := new NameIndex(td);
    r := index.NameToId(Some(Str(2, "id")));
    byText := NameToIdByText(td, Some("id"));
  }
}
