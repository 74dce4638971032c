/** The catalog: parallel lists of table files, names and primary keys, a
    map from table name to id, and a map from id to list position; lookups by
    id go through the position. */
module Catalog {
  import opened Common
  import opened Types
  import opened JavaString
  import opened CatalogSchema
  import LTD = LegacyTupleDesc

  /** A table's backing file as the catalog sees it: its id and its schema. */
  datatype TableFile = TableFile(id: int, desc: LTD.TupleDesc)

  /** Everything the catalog holds. */
  datatype CatalogState = CatalogState(
    files: seq<TableFile>,
    tableNames: seq<string>,
    primaryKeyFields: seq<string>,
    nameToId: map<string, int>,
    idToIndex: map<int, nat>)

  /** The three lists grow together. */
  predicate Aligned(s: CatalogState)
  {
    |s.tableNames| == |s.files| && |s.primaryKeyFields| == |s.files|
  }

  /** The position an id maps to holds a file with that id. */
  predicate IndexedAt(s: CatalogState, id: int)
    requires id in s.idToIndex
  {
    s.idToIndex[id] < |s.files| && s.files[s.idToIndex[id]].id == id
  }

  /** Every id the catalog knows leads to a file that has that id, and every
      name leads to a known id. */
  predicate Consistent(s: CatalogState)
  {
    && Aligned(s)
    && (forall id :: id in s.idToIndex ==> IndexedAt(s, id))
    && (forall n :: n in s.nameToId ==> s.nameToId[n] in s.idToIndex)
  }

  function EmptyCatalog(): CatalogState
  {
    CatalogState([], [], [], map[], map[])
  }

  lemma EmptyCatalogConsistent()
    ensures Consistent(EmptyCatalog()) && TableIds(EmptyCatalog()) == []
  {
  }

  /** `addTable(file, name, pkeyField)`: the file, name and key are appended,
      the name now maps to the file's id, and the id to the new position. */
  function WithTable(s: CatalogState, file: TableFile, name: string, pkey: string): CatalogState
  {
    CatalogState(
      s.files + [file],
      s.tableNames + [name],
      s.primaryKeyFields + [pkey],
      s.nameToId[name := file.id],
      s.idToIndex[file.id := |s.files|])
  }

  /** `getTableId(name)`: the id the name was last added under; an unknown
      name is a NoSuchElement error. */
  function GetTableId(s: CatalogState, name: string): (r: Result<int>)
    ensures r.Ok? <==> name in s.nameToId
    ensures r.Ok? ==> r.value == s.nameToId[name]
    ensures r.Err? ==> r.error == NoSuchElement
  {
    if name in s.nameToId then Ok(s.nameToId[name]) else Err(NoSuchElement)
  }

  /** `getIndex(id)` after `checkId(id)`: the position the id was added at;
      an unknown id is a NoSuchElement error. */
  function GetIndex(s: CatalogState, id: int): (r: Result<nat>)
    ensures r.Ok? <==> id in s.idToIndex
    ensures r.Ok? ==> r.value == s.idToIndex[id]
    ensures r.Err? ==> r.error == NoSuchElement
  {
    if id in s.idToIndex then Ok(s.idToIndex[id]) else Err(NoSuchElement)
  }

  /** `List.get(i)`: the element at position i; a position past the end is
      an IndexOutOfBounds error. */
  function ListGet<T>(xs: seq<T>, i: nat): (r: Result<T>)
    ensures r.Ok? <==> i < |xs|
    ensures r.Ok? ==> r.value == xs[i]
    ensures r.Err? ==> r.error == IndexOutOfBounds
  {
    if i < |xs| then Ok(xs[i]) else Err(IndexOutOfBounds)
  }

  /** The outcome of reading list `xs` at the position of table `id`: an
      unknown id is NoSuchElement, a position past the list's end is
      IndexOutOfBounds, and otherwise the element at that position. */
  predicate ReadsAtIndex<T(==)>(s: CatalogState, id: int, xs: seq<T>, r: Result<T>)
  {
    && (id !in s.idToIndex ==> r == Err(NoSuchElement))
    && (id in s.idToIndex && s.idToIndex[id] >= |xs| ==> r == Err(IndexOutOfBounds))
    && (id in s.idToIndex && s.idToIndex[id] < |xs| ==> r == Ok(xs[s.idToIndex[id]]))
  }

  /** `getDatabaseFile(id)`: the file at the id's position. */
  function GetDatabaseFile(s: CatalogState, id: int): (r: Result<TableFile>)
    ensures ReadsAtIndex(s, id, s.files, r)
  {
    var i :- GetIndex(s, id);
    ListGet(s.files, i)
  }

  /** `getTupleDesc(id)`: the schema of the file at the id's position. */
  function GetTupleDesc(s: CatalogState, id: int): (r: Result<LTD.TupleDesc>)
    ensures id !in s.idToIndex ==> r == Err(NoSuchElement)
    ensures id in s.idToIndex && s.idToIndex[id] >= |s.files| ==> r == Err(IndexOutOfBounds)
    ensures id in s.idToIndex && s.idToIndex[id] < |s.files| ==> r == Ok(s.files[s.idToIndex[id]].desc)
  {
    var f :- GetDatabaseFile(s, id);
    Ok(f.desc)
  }

  /** `getPrimaryKey(id)`: the key at the id's position. */
  function GetPrimaryKey(s: CatalogState, id: int): (r: Result<string>)
    ensures ReadsAtIndex(s, id, s.primaryKeyFields, r)
  {
    var i :- GetIndex(s, id);
    ListGet(s.primaryKeyFields, i)
  }

  /** `getTableName(id)`: the name at the id's position. */
  function GetTableName(s: CatalogState, id: int): (r: Result<string>)
    ensures ReadsAtIndex(s, id, s.tableNames, r)
  {
    var i :- GetIndex(s, id);
    ListGet(s.tableNames, i)
  }

  /** The ids of the files in the order they were added: what the table id
      iterator yields. */
  function TableIds(s: CatalogState): (ids: seq<int>)
    ensures |ids| == |s.files|
  {
    seq(|s.files|, i requires 0 <= i < |s.files| => s.files[i].id)
  }

  /** In a consistent catalog a lookup by id fails only for an unknown id,
      and then with NoSuchElement, never with IndexOutOfBounds; a known id
      finds a file with that id. */
  lemma ConsistentLookups(s: CatalogState, id: int)
    requires Consistent(s)
    ensures GetDatabaseFile(s, id).Ok? <==> id in s.idToIndex
    ensures GetDatabaseFile(s, id).Ok? ==> GetDatabaseFile(s, id).value.id == id
    ensures GetTupleDesc(s, id).Ok? <==> id in s.idToIndex
    ensures GetPrimaryKey(s, id).Ok? <==> id in s.idToIndex
    ensures GetTableName(s, id).Ok? <==> id in s.idToIndex
    ensures id !in s.idToIndex ==> GetTupleDesc(s, id) == Err(NoSuchElement)
  {
    if id in s.idToIndex {
      assert IndexedAt(s, id);
    }
  }

  /** Adding a table keeps the catalog consistent. */
  lemma WithTableConsistent(s: CatalogState, file: TableFile, name: string, pkey: string)
    requires Consistent(s)
    ensures Consistent(WithTable(s, file, name, pkey))
  {
    var r := WithTable(s, file, name, pkey);
    forall id | id in r.idToIndex
      ensures IndexedAt(r, id)
    {
      if id != file.id {
        assert IndexedAt(s, id);
      }
    }
  }

  /** After adding, the name gives the new id, and the id gives the new
      file, name and key; ids enumerate in insertion order. */
  lemma WithTableLookups(s: CatalogState, file: TableFile, name: string, pkey: string)
    requires Aligned(s)
    ensures var r := WithTable(s, file, name, pkey);
      && GetTableId(r, name) == Ok(file.id)
      && GetDatabaseFile(r, file.id) == Ok(file)
      && GetTupleDesc(r, file.id) == Ok(file.desc)
      && GetTableName(r, file.id) == Ok(name)
      && GetPrimaryKey(r, file.id) == Ok(pkey)
      && TableIds(r) == TableIds(s) + [file.id]
  {
  }

  /** Adding a table leaves every other name, and in a consistent catalog
      every other id, as it was. */
  lemma WithTableKeepsOthers(s: CatalogState, file: TableFile, name: string, pkey: string, n: string, id: int)
    requires Consistent(s) && n != name && id != file.id
    ensures var r := WithTable(s, file, name, pkey);
      && GetTableId(r, n) == GetTableId(s, n)
      && GetDatabaseFile(r, id) == GetDatabaseFile(s, id)
      && GetTableName(r, id) == GetTableName(s, id)
      && GetPrimaryKey(r, id) == GetPrimaryKey(s, id)
  {
    if id in s.idToIndex {
      assert IndexedAt(s, id);
    }
  }

  /** `clear()` as the catalog does it: the lists and the name map are
      emptied, the id map is kept. */
  function ClearedAsWritten(s: CatalogState): (r: CatalogState)
    ensures TableIds(r) == [] && forall name :: GetTableId(r, name) == Err(NoSuchElement)
    ensures forall id :: id in s.idToIndex ==> GetDatabaseFile(r, id) == Err(IndexOutOfBounds)
    ensures forall id :: id !in s.idToIndex ==> GetDatabaseFile(r, id) == Err(NoSuchElement)
  {
    CatalogState([], [], [], map[], s.idToIndex)
  }

  /** `clear()` as its comment promises: every table deleted, the id map
      emptied as well. */
  function Cleared(s: CatalogState): CatalogState
  {
    EmptyCatalog()
  }

  /** After the corrected clear the catalog is consistent, knows no name and
      no id, and lists no table. */
  lemma ClearedForgetsAll(s: CatalogState, name: string, id: int)
    ensures Consistent(Cleared(s))
    ensures GetTableId(Cleared(s), name) == Err(NoSuchElement)
    ensures GetDatabaseFile(Cleared(s), id) == Err(NoSuchElement)
    ensures GetTupleDesc(Cleared(s), id) == Err(NoSuchElement)
    ensures TableIds(Cleared(s)) == []
  {
  }

  /** The clear as written keeps the id map: a cleared table's id answers
      IndexOutOfBounds rather than NoSuchElement, and once another table is
      added at the same position the old id returns the new table's schema. */
  lemma ClearAsWrittenKeepsStaleIds(a: TableFile, b: TableFile)
    requires a.id != b.id && a.desc != b.desc
    ensures var s := ClearedAsWritten(WithTable(EmptyCatalog(), a, "a", ""));
      && GetTupleDesc(s, a.id) == Err(IndexOutOfBounds)
      && !Consistent(s)
      && GetTupleDesc(WithTable(s, b, "b", ""), a.id) == Ok(b.desc)
    ensures GetTupleDesc(WithTable(Cleared(WithTable(EmptyCatalog(), a, "a", "")), b, "b", ""), a.id) == Err(NoSuchElement)
  {
    var s := ClearedAsWritten(WithTable(EmptyCatalog(), a, "a", ""));
    assert s.idToIndex[a.id] == 0;
    assert !IndexedAt(s, a.id);
  }

  // ---------------------------------------------------------------------
  // Loading the catalog file.

  /** The schema the loader builds from a line's columns: the field names
      are new String objects, given the identities `firstRef`,
      `firstRef + 1`, ... */
  function DescOf(cols: Columns, firstRef: nat): LTD.TupleDesc
  {
    LTD.TupleDesc(cols.types, seq(|cols.names|, i requires 0 <= i < |cols.names| => Some(LTD.Str(firstRef + i, cols.names[i]))))
  }

  /** What loading does to the catalog, given each line's parse: each line
      that parses adds its table, named by the line, with the key of its
      last tagged entry, under the id `idOf` gives its name; the first line
      that does not parse ends the process, after the tables of the lines
      before it were added. */
  function LoadParsed(s: CatalogState, parsed: seq<Result<SchemaLine>>, idOf: string -> int, firstRef: nat): (CatalogState, Result<()>)
    decreases |parsed|
  {
    if parsed == [] then (s, Ok(()))
    else
      match parsed[0]
      case Err(e) => (s, Err(e))
      case Ok(sl) => LoadParsed(AddLoaded(s, sl, idOf, firstRef), parsed[1..], idOf, firstRef + |sl.fields|)
  }

  /** The table of one parsed line added to the catalog. */
  function AddLoaded(s: CatalogState, sl: SchemaLine, idOf: string -> int, firstRef: nat): CatalogState
  {
    var cols := ColumnsOf(sl.fields);
    WithTable(s, TableFile(idOf(sl.name), DescOf(cols, firstRef)), sl.name, cols.primaryKey)
  }

  function ParseAll(lines: seq<string>): (parsed: seq<Result<SchemaLine>>)
    ensures |parsed| == |lines|
  {
    if lines == [] then [] else [ParseSchemaLine(lines[0])] + ParseAll(lines[1..])
  }

  lemma {:induction false} ParseAllAt(lines: seq<string>, i: nat)
    requires i < |lines|
    ensures ParseAll(lines)[i] == ParseSchemaLine(lines[i])
  {
    if i > 0 {
      ParseAllAt(lines[1..], i - 1);
    }
  }

  /** `parsed` holds the parse of each of the lines. */
  ghost predicate ParsedLines(lines: seq<string>, parsed: seq<Result<SchemaLine>>)
  {
    && |parsed| == |lines|
    && forall k {:trigger ParseSchemaLine(lines[k])} :: 0 <= k < |lines| ==> parsed[k] == ParseSchemaLine(lines[k])
  }

  lemma ParseAllParsed(lines: seq<string>)
    ensures ParsedLines(lines, ParseAll(lines))
  {
    forall k | 0 <= k < |lines|
      ensures ParseAll(lines)[k] == ParseSchemaLine(lines[k])
    {
      ParseAllAt(lines, k);
    }
  }

  /** Loading the lines of a catalog file. */
  function Load(s: CatalogState, lines: seq<string>, idOf: string -> int, firstRef: nat): (CatalogState, Result<()>)
  {
    LoadParsed(s, ParseAll(lines), idOf, firstRef)
  }

  /** One step of loading from position `i`: a line that parses adds its
      table before the lines after it are loaded. */
  lemma LoadParsedAdvance(s: CatalogState, t: CatalogState, parsed: seq<Result<SchemaLine>>, i: nat, idOf: string -> int, ref: nat, n: nat)
    requires i < |parsed| && parsed[i].Ok?
    requires t == AddLoaded(s, parsed[i].value, idOf, ref) && n == |parsed[i].value.fields|
    ensures LoadParsed(s, parsed[i..], idOf, ref) == LoadParsed(t, parsed[i + 1..], idOf, ref + n)
  {
    assert parsed[i..][0] == parsed[i] && parsed[i..][1..] == parsed[i + 1..];
  }

  /** A line that does not parse stops loading where it is. */
  lemma LoadParsedStops(s: CatalogState, parsed: seq<Result<SchemaLine>>, i: nat, idOf: string -> int, ref: nat)
    requires i < |parsed| && parsed[i].Err?
    ensures LoadParsed(s, parsed[i..], idOf, ref) == (s, Err(parsed[i].error))
  {
    assert parsed[i..][0] == parsed[i];
  }

  /** Loading keeps a consistent catalog consistent, whatever the lines. */
  lemma {:induction false} LoadParsedConsistent(s: CatalogState, parsed: seq<Result<SchemaLine>>, idOf: string -> int, firstRef: nat)
    requires Consistent(s)
    ensures Consistent(LoadParsed(s, parsed, idOf, firstRef).0)
    decreases |parsed|
  {
    if parsed != [] && parsed[0].Ok? {
      var sl := parsed[0].value;
      var cols := ColumnsOf(sl.fields);
      WithTableConsistent(s, TableFile(idOf(sl.name), DescOf(cols, firstRef)), sl.name, cols.primaryKey);
      LoadParsedConsistent(AddLoaded(s, sl, idOf, firstRef), parsed[1..], idOf, firstRef + |sl.fields|);
    }
  }

  /** A well-formed line, written in the catalog format and loaded, makes
      its table known by name, with the written types and key. */
  lemma LoadRenderedLine(s: CatalogState, sl: SchemaLine, idOf: string -> int, firstRef: nat)
    requires Aligned(s) && WellFormed(sl)
    ensures var r := Load(s, [RenderLine(sl)], idOf, firstRef);
      && r.1 == Ok(())
      && GetTableId(r.0, sl.name) == Ok(idOf(sl.name))
      && GetTupleDesc(r.0, idOf(sl.name)).Ok?
      && GetTupleDesc(r.0, idOf(sl.name)).value.types == TypesOf(sl.fields)
      && GetPrimaryKey(r.0, idOf(sl.name)) == Ok(KeyOf(sl.fields))
  {
    ParseRenderedLine(sl);
    assert ParseAll([RenderLine(sl)]) == [Ok(sl)];
    LoadParsedAdvance(s, AddLoaded(s, sl, idOf, firstRef), [Ok(sl)], 0, idOf, firstRef, |sl.fields|);
    assert [Ok(sl)][1..] == [];
    var cols := ColumnsOf(sl.fields);
    WithTableLookups(s, TableFile(idOf(sl.name), DescOf(cols, firstRef)), sl.name, cols.primaryKey);
  }

  /** The catalog object: the lists and maps, updated in place. */
  class Catalog {
    var files: seq<TableFile>
    var tableNames: seq<string>
    var primaryKeyFields: seq<string>
    var nameToId: map<string, int>
    var idToIndex: map<int, nat>

    function State(): CatalogState
      reads this
    {
      CatalogState(files, tableNames, primaryKeyFields, nameToId, idToIndex)
    }

    ghost predicate Valid()
      reads this
    {
      Consistent(State())
    }

    /** A new, empty catalog. */
    constructor ()
      ensures State() == EmptyCatalog() && Valid()
    {
      files := [];
      tableNames := [];
      primaryKeyFields := [];
      nameToId := map[];
      idToIndex := map[];
    }

    /** `addTable(file, name, pkeyField)`. */
    method AddTable(file: TableFile, name: string, pkey: string)
      modifies this
      ensures State() == WithTable(old(State()), file, name, pkey)
      ensures old(Valid()) ==> Valid()
    {
      if Valid() {
        WithTableConsistent(State(), file, name, pkey);
      }
      nameToId := nameToId[name := file.id];
      idToIndex := idToIndex[file.id := |files|];
      files := files + [file];
      tableNames := tableNames + [name];
      primaryKeyFields := primaryKeyFields + [pkey];
    }

    /** `addTable(file, name)`: no primary key. */
    method AddTableWithoutKey(file: TableFile, name: string)
      modifies this
      ensures State() == WithTable(old(State()), file, name, "")
      ensures old(Valid()) ==> Valid()
    {
      AddTable(file, name, "");
    }

    /** `addTable(file)`: the name is a random UUID, here given by the
        caller. */
    method AddTableUnnamed(file: TableFile, uuid: string)
      modifies this
      ensures State() == WithTable(old(State()), file, uuid, "")
      ensures old(Valid()) ==> Valid()
    {
      AddTableWithoutKey(file, uuid);
    }

    /** `clear()`, deleting every table; the id map is emptied too (the
        source keeps it, see ClearedAsWritten). */
    method Clear()
      modifies this
      ensures State() == Cleared(old(State())) && Valid()
    {
      files := [];
      tableNames := [];
      primaryKeyFields := [];
      nameToId := map[];
      idToIndex := map[];
    }

    /** One pass of `loadSchema`'s loop: the line at position `i` is read
        and its table added; the result is the number of its fields, or the
        error that ends loading. */
    method LoadLine(lines: seq<string>, i: nat, idOf: string -> int, ref: nat, ghost parsed: seq<Result<SchemaLine>>)
      returns (r: Result<nat>)
      requires i < |lines| && ParsedLines(lines, parsed)
      modifies this
      ensures r.Err? ==> State() == old(State()) && parsed[i] == Err(r.error)
      ensures r.Ok? ==>
                parsed[i].Ok? && r.value == |parsed[i].value.fields|
                && State() == AddLoaded(old(State()), parsed[i].value, idOf, ref)
      ensures old(Valid()) ==> Valid()
    {
      var read := ReadSchemaLine(lines[i]);
      if read.Err? {
        return Err(read.error);
      }
      var (name, cols) := read.value;
      AddTable(TableFile(idOf(name), DescOf(cols, ref)), name, cols.primaryKey);
      r := Ok(|cols.names|);
    }

    /** `loadSchema`'s loop over the lines, whose parses are `parsed`. */
    method LoadLines(lines: seq<string>, idOf: string -> int, firstRef: nat, ghost parsed: seq<Result<SchemaLine>>)
      returns (r: Result<()>)
      requires ParsedLines(lines, parsed)
      modifies this
      ensures (State(), r) == LoadParsed(old(State()), parsed, idOf, firstRef)
      ensures old(Valid()) ==> Valid()
    {
      ghost var s0 := State();
      ghost var wasValid := Valid();
      var ref: nat := firstRef;
      var i := 0;
      assert parsed[0..] == parsed;
      while i < |lines|
        invariant 0 <= i <= |lines|
        invariant LoadParsed(s0, parsed, idOf, firstRef) == LoadParsed(State(), parsed[i..], idOf, ref)
        invariant wasValid ==> Valid()
      {
        ghost var before := State();
        var fields := LoadLine(lines, i, idOf, ref, parsed);
        if fields.Err? {
          LoadParsedStops(State(), parsed, i, idOf, ref);
          return Err(fields.error);
        }
        LoadParsedAdvance(before, State(), parsed, i, idOf, ref, fields.value);
        ref := ref + fields.value;
        i := i + 1;
      }
      r := Ok(());
    }

    /** `loadSchema`: the catalog file's lines are given; each table's id is
        `idOf` of its name (the hash of the data file's path, which depends
        on the name alone), and its field names take fresh identities from
        `firstRef` on. */
    method LoadSchema(lines: seq<string>, idOf: string -> int, firstRef: nat) returns (r: Result<()>)
      modifies this
      ensures (State(), r) == Load(old(State()), lines, idOf, firstRef)
      ensures old(Valid()) ==> Valid()
    {
      ParseAllParsed(lines);
      r := LoadLines(lines, idOf, firstRef, ParseAll(lines));
    }

    /** `tableIdIterator()`. */
    method TableIdIterator() returns (it: TableIdIterator)
      ensures fresh(it) && it.catalog == this && it.index == 0
    {
      it := new TableIdIterator(this);
    }
  }

  /** The iterator over table ids: a position in the catalog's live file
      list. */
  class TableIdIterator {
    const catalog: Catalog
    var index: nat

    constructor (catalog: Catalog)
      ensures this.catalog == catalog && index == 0
    {
      this.catalog := catalog;
      index := 0;
    }

    /** `hasNext()`. */
    method HasNext() returns (b: bool)
      ensures b <==> index < |TableIds(catalog.State())|
    {
      b := index < |catalog.files|;
    }

    /** `next()`: the id of the file at the position, which then advances;
        past the end the list access fails and the position stays. */
    method Next() returns (r: Result<int>)
      modifies this
      ensures old(index) < |TableIds(catalog.State())| ==> r == Ok(TableIds(catalog.State())[old(index)]) && index == old(index) + 1
      ensures old(index) >= |TableIds(catalog.State())| ==> r == Err(IndexOutOfBounds) && index == old(index)
    {
      var f := ListGet(catalog.files, index);
      if f.Err? {
        return Err(f.error);
      }
      r := Ok(f.value.id);
      index := index + 1;
    }

    /** `remove()` is not supported. */
    method Remove() returns (r: Result<()>)
      ensures r == Err(Unsupported)
    {
      r := Err(Unsupported);
    }
  }
}
