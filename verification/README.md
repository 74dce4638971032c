# SimpleDB storage and transaction kernel, in Dafny

A model of the storage and transaction core of SimpleDB, the teaching database of MIT 6.830, in the versions its labs 1 to 5 leave behind. Each component follows the snapshot that holds it most completely:

- **Heap page** (lab 5). A 4096-byte page holds:
  - a header bitmap of ceil(slots / 8) bytes, least significant bit first;
  - floor(4096 * 8 / (tupleSize * 8 + 1)) fixed-width slots;
  - zero padding.

  The page class keeps the header and slots in arrays. Its methods are proved against functions on a page value: parse, serialise, insert, delete, dirty marking and before-images (`heap_page.dfy`). The layout arithmetic is in `page_layout.dfy` and the bitmap in `header_bits.dfy`.
- **Lock manager** (lab 3). Page-granularity shared and exclusive locks and each transaction's held pages. Every grant attempt is one step: granted, or "not yet". All operations keep the invariant that a page's exclusive holder is the only transaction on its shared list (`lock_manager.dfy`).
- **Buffer pool**. The lab 5 pool (`buffer_pool.dfy`) holds:
  - a bounded cache whose counter equals its size;
  - eviction of a clean page;
  - flushing, with the per-transaction record of flushed pages;
  - commit, which refreshes before-images, and abort, which restores them;
  - discard, and the dirty marking of inserted and deleted tuples' pages.

  The lab 1 pool (`buffer_pool_lab1.dfy`) differs: it evicts any page, dirty or not, and has no locks. Its flushes hand pages to the tables' files. Lab 1's heap file writes nothing there (its `writePage` is an empty stub); lab 2's, which runs on the same pool, writes the page.
- **Heap files**. Each table's file is a byte sequence (`file_store.dfy`), so page offsets, short reads and file growth are exact. The lab 3 file (`heap_file.dfy`) scans under read locks, upgrades the first page whose `getNumEmptySlots` count is positive and inserts there, and appends page numPages when no page has a positive count. The lab 2 file (`heap_file_lab2.dfy`) takes write locks on every page it scans. The lab 2 heap file iterator (`heap_file_iterator.dfy`) hands out the tuples page by page.
- **Value types**:
  - page and record ids (`ids.dfy`);
  - the two schema classes: `TupleDesc` in `tuple_desc.dfy` and the older one in `legacy_tuple_desc.dfy`;
  - the catalog (`catalog.dfy`), with its one-line schema format (`catalog_schema.dfy`) and the Java string operations the format's parser uses (`java_string.dfy`).
- **Aggregation**: the counting, integer and string aggregators, with Java's 32-bit wrap-around and truncating division (`aggregators.dfy`, `common.dfy`). The aggregation tests' expected outputs are proved in `aggregator_examples.dfy`.
- **Sequential scan**: alias prefixing of the scanned table's schema (`seq_scan.dfy`).

Fields are encoded by an abstract codec. A `Codec` maps each field to bytes and back, with the premise that it writes exactly the type's width and reads back what it wrote. The catalog, the database singletons and the page files are parameters or fields of the classes that use them.

## Model

| member | source | states |
|---|---|---|
| Ids.PageIdEquals | 6.830-lab1/src/java/simpledb/HeapPageId.java:57-70 | `equals` holds exactly for a non-null id with the same table id and page number |
| Ids.PageIdEqualsIsValueEquality | 6.830-lab1/src/java/simpledb/HeapPageId.java:57-70 | two page ids are equal exactly when their table ids and page numbers are; no id equals null |
| Ids.PageIdHash | 6.830-lab1/src/java/simpledb/HeapPageId.java:45-47 | the hash is a 32-bit int congruent to tableId * 1048573 + pageNumber + 31 modulo 2^32 |
| Ids.PageIdHashConsistent | 6.830-lab1/src/java/simpledb/HeapPageId.java:45-70 | ids that are equal by `equals` hash equally |
| Ids.PageIdHashSeparatesPages | 6.830-lab1/src/java/simpledb/HeapPageId.java:45-47 | within one table distinct page numbers hash differently when the sum does not overflow |
| Ids.SerializePageId | 6.830-lab1/src/java/simpledb/HeapPageId.java:78-85 | the serialization has two ints, and rebuilding an id from them gives the same id back |
| Ids.DeserializePageId | 6.830-lab1/src/java/simpledb/HeapPageId.java:18-21 | an array of exactly two ints rebuilds the id with those table id and page number; any other length rebuilds nothing |
| Ids.RecordIdEquals | 6.830-lab2/src/java/simpledb/RecordId.java:43-59 | `equals` holds exactly for a non-null record id with the same page id (null equal to null) and tuple number |
| Ids.RecordIdEqualsIsValueEquality | 6.830-lab2/src/java/simpledb/RecordId.java:43-59 | record ids are equal exactly when page ids (null equal to null) and tuple numbers are; `equals` is reflexive and false for null |
| Ids.RecordIdHash | 6.830-lab2/src/java/simpledb/RecordId.java:68-74 | the hash is a 32-bit int congruent to 31 * (31 + hash(pageId), or 0 for null) + tupleNumber modulo 2^32 |
| Ids.RecordIdHashConsistent | 6.830-lab2/src/java/simpledb/RecordId.java:43-74 | record ids equal by `equals` hash equally |
| Types.TypeLen | 6.830-lab1/src/java/simpledb/TupleDesc.java:112-116 | the width each field type adds to a schema's size: 4 for an int, 4 + STRING_LEN for a string |
| TupleDesc.FromArrays | 6.830-lab1/src/java/simpledb/TupleDesc.java:43-49 | the two-array constructor succeeds exactly when the names array is at least as long as the types array, and then item i has type i and name i |
| TupleDesc.Anonymous | 6.830-lab1/src/java/simpledb/TupleDesc.java:127-129 | the one-array constructor keeps the types and leaves every name null |
| TupleDesc.SizeOfAppend | 6.830-lab1/src/java/simpledb/TupleDesc.java:112-116 | the size of two field lists end to end is the sum of their sizes |
| TupleDesc.SizeOfBounds | 6.830-lab1/src/java/simpledb/TupleDesc.java:112-116 | a non-empty schema has a positive size, at least the width of each of its fields |
| TupleDesc.ComputeSize | 6.830-lab1/src/java/simpledb/TupleDesc.java:109-118 | the constructor's loop computes the sum of the field widths |
| TupleDesc.GetFieldName | 6.830-lab1/src/java/simpledb/TupleDesc.java:145-150 | field i's (possibly null) name for i in [0, numFields), NoSuchElement for every other int |
| TupleDesc.GetFieldType | 6.830-lab1/src/java/simpledb/TupleDesc.java:160-165 | field i's type for i in [0, numFields), NoSuchElement for every other int |
| TupleDesc.FirstIndexOfName | 6.830-lab1/src/java/simpledb/TupleDesc.java:174-186 | the result is the least index whose non-null name equals the text, and none when no field has that name |
| TupleDesc.Merge | 6.830-lab1/src/java/simpledb/TupleDesc.java:204-208 | td1's items followed by td2's: field counts and sizes add up and every item keeps its place |
| TupleDesc.ItemEquals | 6.830-lab1/src/java/simpledb/TupleDesc.java:60-77 | `TDItem.equals`: false for null, otherwise true exactly when type and name (null equal to null) are the same, which is value equality |
| TupleDesc.ItemListEquals | 6.830-lab1/src/java/simpledb/TupleDesc.java:230 | `List.equals` over the items holds exactly when the item lists are equal |
| TupleDesc.Equals | 6.830-lab1/src/java/simpledb/TupleDesc.java:219-233 | `equals` holds exactly for a non-null schema with the same items |
| TupleDesc.EqualsIsValueEquality | 6.830-lab1/src/java/simpledb/TupleDesc.java:219-233 | two schemas are equal exactly when their item lists are, item by item, types and null-safe names both |
| TupleDesc.NameIndex.constructor | 6.830-lab1/src/java/simpledb/TupleDesc.java:109-118 | a new schema starts with an empty name cache |
| TupleDesc.NameIndex.FieldNameToIndex | 6.830-lab1/src/java/simpledb/TupleDesc.java:174-186 | a null name fails; otherwise the first field with that name, or NoSuchElement; a cached answer equals the scanned one and only found answers are cached |
| LegacyTupleDesc.Create | 6.830-lab1/src/simpledb/TupleDesc.java:52-62 | the two-array constructor succeeds exactly when there are at least as many names as types, and keeps both arrays |
| LegacyTupleDesc.CreateAnonymous | 6.830-lab1/src/simpledb/TupleDesc.java:71-73 | the one-array constructor gives every field a null name |
| LegacyTupleDesc.SizeOfTypesAppend | 6.830-lab1/src/simpledb/TupleDesc.java:56-60 | the size of two type arrays end to end is the sum of their sizes |
| LegacyTupleDesc.ComputeSize | 6.830-lab1/src/simpledb/TupleDesc.java:56-60 | the constructor's loop computes the sum of the type widths |
| LegacyTupleDesc.Combine | 6.830-lab1/src/simpledb/TupleDesc.java:28-41 | `combine` concatenates the type arrays and the name arrays; counts and sizes add up, td1's fields keep their types and names, td2's fields keep their types after td1's |
| LegacyTupleDesc.CombineKeepsNamesAligned | 6.830-lab1/src/simpledb/TupleDesc.java:28-41 | when td1 has one name per field, td2's names line up with td2's fields in the combination |
| LegacyTupleDesc.CombineShiftsSurplusName | 6.830-lab1/src/simpledb/TupleDesc.java:28-41 | when td1 has more names than fields, td2's first field takes td1's first surplus name |
| LegacyTupleDesc.CombineSurplusNameExample | 6.830-lab1/src/simpledb/TupleDesc.java:28-41 | one INT field named a with surplus name b, combined with one INT field named c: the second field is called b, not c |
| LegacyTupleDesc.GetFieldName | 6.830-lab1/src/simpledb/TupleDesc.java:89-94 | the name of field i, NoSuchElement outside [0, numFields) |
| LegacyTupleDesc.GetType | 6.830-lab1/src/simpledb/TupleDesc.java:124-129 | the type of field i, NoSuchElement outside [0, numFields) |
| LegacyTupleDesc.Equals | 6.830-lab1/src/simpledb/TupleDesc.java:148-162 | `equals`: false for null, otherwise true exactly when the type arrays are equal |
| LegacyTupleDesc.TypesAgreeIsEquality | 6.830-lab1/src/simpledb/TupleDesc.java:148-162 | equal field counts and the same type at every index is equality of the type arrays |
| LegacyTupleDesc.EqualsIsTypeEquality | 6.830-lab1/src/simpledb/TupleDesc.java:148-162 | two schemas are equal exactly when their type arrays are; names are ignored |
| LegacyTupleDesc.EqualsIsEquivalence | 6.830-lab1/src/simpledb/TupleDesc.java:148-162 | schema equality is reflexive, symmetric and transitive |
| LegacyTupleDesc.FirstIndexOfRef | 6.830-lab1/src/simpledb/TupleDesc.java:103-114 | the least field index whose name is the same String object as the argument, if any |
| LegacyTupleDesc.FirstIndexOfText | 6.830-lab1/src/simpledb/TupleDesc.java:103-114 | the least field index whose name has the argument's characters, if any |
| LegacyTupleDesc.ReferenceScanMissesEqualText | 6.830-lab1/src/simpledb/TupleDesc.java:103-114 | a string object other than the field's own name misses that field even with the same characters |
| LegacyTupleDesc.TextScanFindsNoLater | 6.830-lab1/src/simpledb/TupleDesc.java:103-114 | whenever the reference scan finds a field, the text scan finds that field or an earlier one with the same characters |
| LegacyTupleDesc.NameIndex.constructor | 6.830-lab1/src/simpledb/TupleDesc.java:52-62 | a new schema starts with an empty name cache |
| LegacyTupleDesc.NameIndex.NameToId | 6.830-lab1/src/simpledb/TupleDesc.java:103-114 | a cached answer is returned as is; otherwise the first field that is the same String object, cached, or NoSuchElement; any answer is a field with those characters |
| LegacyTupleDesc.NameToIdByText | 6.830-lab1/src/simpledb/TupleDesc.java:103-114 | the documented lookup: the first field with the argument's characters, or NoSuchElement |
| LegacyTupleDesc.FreshStringLookupMisses | 6.830-lab1/src/simpledb/TupleDesc.java:103-114 | a lookup by a fresh String object with a field name's characters, on an empty cache, fails with NoSuchElement |
| Catalog.GetTableId | 6.830-lab1/src/simpledb/Catalog.java:86-91 | a known name gives the id it was last added under; an unknown name fails with NoSuchElement |
| Catalog.GetIndex | 6.830-lab1/src/simpledb/Catalog.java:93-102 | `checkId` then the map lookup: a known id gives its list position; an unknown id fails with NoSuchElement |
| Catalog.ListGet | 6.830-lab1/src/simpledb/Catalog.java:111-113 | `List.get`: the element at the index when it is below the length, IndexOutOfBounds otherwise |
| Catalog.GetTupleDesc | 6.830-lab1/src/simpledb/Catalog.java:111-113 | an unknown id fails with NoSuchElement, a stale position with IndexOutOfBounds; otherwise the schema of the file at the id's position |
| Catalog.GetDatabaseFile | 6.830-lab1/src/simpledb/Catalog.java:122-124 | an unknown id fails with NoSuchElement, a stale position with IndexOutOfBounds; otherwise the file at the id's position |
| Catalog.GetPrimaryKey | 6.830-lab1/src/simpledb/Catalog.java:126-128 | the same lookup into the primary key list |
| Catalog.GetTableName | 6.830-lab1/src/simpledb/Catalog.java:159-161 | the same lookup into the table name list |
| Catalog.TableIds | 6.830-lab1/src/simpledb/Catalog.java:134-157 | one id per file, in the order the files were added |
| Catalog.EmptyCatalogConsistent | 6.830-lab1/src/simpledb/Catalog.java:36-42 | a new catalog is consistent and lists no table |
| Catalog.ConsistentLookups | 6.830-lab1/src/simpledb/Catalog.java:93-128 | in a consistent catalog an id lookup fails only for an unknown id, and then with NoSuchElement; a known id finds a file with that id |
| Catalog.WithTableConsistent | 6.830-lab1/src/simpledb/Catalog.java:56-63 | adding a table keeps every name and id pointing at a file with that id |
| Catalog.WithTableLookups | 6.830-lab1/src/simpledb/Catalog.java:56-63 | after `addTable` the name gives the new id and the id gives the new file, name and key; the id is listed last |
| Catalog.WithTableKeepsOthers | 6.830-lab1/src/simpledb/Catalog.java:56-63 | adding a table changes no other name, and in a consistent catalog no other id |
| Catalog.ClearedForgetsAll | 6.830-lab1/src/simpledb/Catalog.java:164-169 | after the corrected clear the catalog is consistent, knows no name and no id, and lists no table |
| Catalog.ClearedAsWritten | 6.830-lab1/src/simpledb/Catalog.java:164-169 | after the clear as written no table is listed and no name is known, but an id added before answers IndexOutOfBounds instead of NoSuchElement |
| Catalog.ClearAsWrittenKeepsStaleIds | 6.830-lab1/src/simpledb/Catalog.java:164-169 | after the clear as written an old id fails with IndexOutOfBounds, and once a new table fills its position the old id finds the new table |
| Catalog.ParseAllAt | 6.830-lab1/src/simpledb/Catalog.java:183-216 | every catalog line is parsed on its own, independently of the others |
| Catalog.LoadParsedAdvance | 6.830-lab1/src/simpledb/Catalog.java:183-218 | a line that parses adds its table before the lines after it are loaded |
| Catalog.LoadParsedStops | 6.830-lab1/src/simpledb/Catalog.java:222-225 | a line that does not parse ends the load there |
| Catalog.LoadParsedConsistent | 6.830-lab1/src/simpledb/Catalog.java:177-226 | loading any lines keeps a consistent catalog consistent |
| Catalog.LoadRenderedLine | 6.830-lab1/src/simpledb/Catalog.java:183-216 | a well-formed line in the catalog format, loaded, makes its table known by name with the written types and key |
| Catalog.Catalog.constructor | 6.830-lab1/src/simpledb/Catalog.java:36-42 | a new catalog holds no table |
| Catalog.Catalog.AddTable | 6.830-lab1/src/simpledb/Catalog.java:56-63 | `addTable(file, name, pkey)` moves the catalog to the state with the table appended and the name and id mapped |
| Catalog.Catalog.AddTableWithoutKey | 6.830-lab1/src/simpledb/Catalog.java:65-67 | `addTable(file, name)` adds with the empty primary key |
| Catalog.Catalog.AddTableUnnamed | 6.830-lab1/src/simpledb/Catalog.java:77-79 | `addTable(file)` adds under the caller-given name with the empty key |
| Catalog.Catalog.Clear | 6.830-lab1/src/simpledb/Catalog.java:164-169 | clearing leaves the catalog empty and consistent |
| Catalog.Catalog.LoadLine | 6.830-lab1/src/simpledb/Catalog.java:183-218 | one line of `loadSchema`: a parsed line adds its table, a bad line reports the error and changes nothing |
| Catalog.Catalog.LoadLines | 6.830-lab1/src/simpledb/Catalog.java:183-225 | the loop adds the tables of the lines up to the first one that does not parse |
| Catalog.Catalog.LoadSchema | 6.830-lab1/src/simpledb/Catalog.java:177-226 | `loadSchema` over given lines ends in the state of the lines loaded up to the first bad one |
| Catalog.Catalog.TableIdIterator | 6.830-lab1/src/simpledb/Catalog.java:134-157 | a new iterator over the ids, at the start |
| Catalog.TableIdIterator.constructor | 6.830-lab1/src/simpledb/Catalog.java:134-138 | the iterator starts at position 0 |
| Catalog.TableIdIterator.HasNext | 6.830-lab1/src/simpledb/Catalog.java:140-142 | true exactly while the position is below the number of files |
| Catalog.TableIdIterator.Next | 6.830-lab1/src/simpledb/Catalog.java:145-149 | the id at the position, which then advances; past the end IndexOutOfBounds and no move |
| Catalog.TableIdIterator.Remove | 6.830-lab1/src/simpledb/Catalog.java:152-154 | always fails with Unsupported |
| JavaString.IndexOf | 6.830-lab1/src/simpledb/Catalog.java:185-187 | `indexOf` gives -1 exactly when the character is absent, else a position holding it |
| JavaString.IndexOfFirst | 6.830-lab1/src/simpledb/Catalog.java:185-187 | `indexOf` gives the first occurrence of the character |
| JavaString.Substring | 6.830-lab1/src/simpledb/Catalog.java:185-187 | `substring(b, e)` fails unless 0 <= b <= e <= length, and otherwise gives the characters between |
| JavaString.Trim | 6.830-lab1/src/simpledb/Catalog.java:185-194 | the trimmed string |
| JavaString.TrimShape | 6.830-lab1/src/simpledb/Catalog.java:185-194 | the trimmed string is a piece of the original with no white space at either end and only white space around it |
| JavaString.TrimSurrounded | 6.830-lab1/src/simpledb/Catalog.java:185-194 | white space around a string without white space at its ends is removed, and nothing else |
| JavaString.Pieces | 6.830-lab1/src/simpledb/Catalog.java:188 | the pieces between separators, empty ones included |
| JavaString.JoinPieces | 6.830-lab1/src/simpledb/Catalog.java:188 | cutting at every separator and joining with it again gives the string back |
| JavaString.PiecesJoin | 6.830-lab1/src/simpledb/Catalog.java:188 | joining separator-free pieces and cutting again gives the pieces back |
| JavaString.DropTrailingEmptyShape | 6.830-lab1/src/simpledb/Catalog.java:188 | dropping trailing empty pieces keeps a prefix that ends on a non-empty piece and drops only empty ones |
| JavaString.SplitShape | 6.830-lab1/src/simpledb/Catalog.java:188 | `split` gives pieces free of the separator, the pieces between separators minus the trailing empty ones, and a string without the separator splits into itself |
| JavaString.SplitJoin | 6.830-lab1/src/simpledb/Catalog.java:188 | splitting the join of separator-free pieces whose last one is not empty gives the pieces back |
| JavaString.ToLowerAscii | 6.830-lab1/src/simpledb/Catalog.java:195-197 | ASCII letters are lower-cased and every other character kept |
| CatalogSchema.ParseField | 6.830-lab1/src/simpledb/Catalog.java:193-210 | every way an entry can be malformed (no type, an unknown type, a third word other than `pk`) is an error that ends the load |
| CatalogSchema.ParseWords | 6.830-lab1/src/simpledb/Catalog.java:193-195 | reading the second word of a one-word entry fails |
| CatalogSchema.ParseFields | 6.830-lab1/src/simpledb/Catalog.java:192-211 | the entries parsed in order; the first entry that fails ends the line |
| CatalogSchema.ParseFieldsPrefixFails | 6.830-lab1/src/simpledb/Catalog.java:192-211 | a failing entry fails the whole line, whatever follows it |
| CatalogSchema.TypesOf | 6.830-lab1/src/simpledb/Catalog.java:212 | the types array lists each entry's type in order |
| CatalogSchema.NamesOf | 6.830-lab1/src/simpledb/Catalog.java:213 | the names array lists each entry's name in order |
| CatalogSchema.KeyIsLastTagged | 6.830-lab1/src/simpledb/Catalog.java:203-205 | the key is the name of the last entry tagged `pk`, and "" exactly when none is tagged |
| CatalogSchema.KeyOfUntagged | 6.830-lab1/src/simpledb/Catalog.java:191 | without a tagged entry the key stays "" |
| CatalogSchema.CollectStep | 6.830-lab1/src/simpledb/Catalog.java:192-211 | one more entry read grows the parsed prefix and the columns by it |
| CatalogSchema.CollectFields | 6.830-lab1/src/simpledb/Catalog.java:189-211 | the entry loop gives the names, types and key of the parsed entries, or the error of the first bad entry |
| CatalogSchema.ReadSchemaLine | 6.830-lab1/src/simpledb/Catalog.java:185-213 | the loader's reading of a line gives the line parser's table name and columns, or its error |
| CatalogSchema.ParseSchemaLine | 6.830-lab1/src/simpledb/Catalog.java:185-188 | the table name is the trimmed text before the first '(', the entries the trimmed text up to the first ')' split at commas; a line without both in that order is an invalid entry |
| CatalogSchema.ParseBetween | 6.830-lab1/src/simpledb/Catalog.java:185-187 | the cuts at the positions `indexOf` found; either one missing or the ')' first is IndexOutOfBounds |
| CatalogSchema.ParseParts | 6.830-lab1/src/simpledb/Catalog.java:185-188 | the trimmed head is the name and the trimmed body split at commas gives the entries |
| CatalogSchema.TypeNameLower | 6.830-lab1/src/simpledb/Catalog.java:195-198 | both type names are already lower case |
| CatalogSchema.ParseTypeName | 6.830-lab1/src/simpledb/Catalog.java:195-198 | a written type name reads back as its type |
| CatalogSchema.ParseRenderedField | 6.830-lab1/src/simpledb/Catalog.java:193-210 | an entry written as `name type [pk]` reads back as itself |
| CatalogSchema.SplitRenderedFields | 6.830-lab1/src/simpledb/Catalog.java:187-188 | entries written with commas between them split back into the written entries |
| CatalogSchema.CutsOf | 6.830-lab1/src/simpledb/Catalog.java:185-187 | the cuts fall after the table name and at the last character |
| CatalogSchema.RenderedLineCuts | 6.830-lab1/src/simpledb/Catalog.java:185-187 | in a written line the first '(' follows the name and a space and the first ')' ends it |
| CatalogSchema.ParseRenderedLine | 6.830-lab1/src/simpledb/Catalog.java:184-216 | round trip: a well-formed line in the catalog format parses back to its table name, entries, types and key tags |
| CatalogSchema.ParseBetweenCuts | 6.830-lab1/src/simpledb/Catalog.java:185-187 | between two cuts in order the line parses as the trimmed head and the trimmed body |
| CatalogSchema.MissingParenthesisRejected | 6.830-lab1/src/simpledb/Catalog.java:222-225 | a line without '(' is an invalid catalog entry |
| CatalogSchema.OneWordEntry | 6.830-lab1/src/simpledb/Catalog.java:193-195 | an entry of one word has no type and is an invalid entry |
| CatalogSchema.TwoWordEntry | 6.830-lab1/src/simpledb/Catalog.java:195-202 | a two-word entry is an untagged field when its second word names a type, and ends the load otherwise |
| CatalogSchema.ThreeWordEntry | 6.830-lab1/src/simpledb/Catalog.java:203-209 | a third word other than `pk` ends the load |
| CatalogSchema.TypeWordIgnoresCase | 6.830-lab1/src/simpledb/Catalog.java:195-197 | the type word is matched without regard to letter case |
| CatalogSchema.WordsOf | 6.830-lab1/src/simpledb/Catalog.java:193 | a clean entry split at spaces gives back its words |
| PageLayout.NumSlotsFits | 6.830-lab5/src/java/simpledb/HeapPage.java:87-90 | the slot count's tuples and header bits fit in a page and one more slot would not: the floor of PAGE_SIZE*8 / (tupleSize*8+1) |
| PageLayout.HeaderSize | 6.830-lab5/src/java/simpledb/HeapPage.java:99-101 | the header has ceil(slots / 8) bytes: enough bits for every slot, fewer than eight spare |
| PageLayout.NumSlotsIsLargest | 6.830-lab5/src/java/simpledb/HeapPage.java:87-90 | no larger slot count fits in a page |
| PageLayout.LayoutFits | 6.830-lab5/src/java/simpledb/HeapPage.java:183-245 | the header and all slots fit in a page, so the padding is never negative |
| PageLayout.SlotInPage | 6.830-lab5/src/java/simpledb/HeapPage.java:183-245 | every slot below the slot count ends inside the page |
| PageLayout.DecodeRow | 6.830-lab5/src/java/simpledb/HeapPage.java:140-169 | each field is read from the next width of its type |
| PageLayout.DecodeRowConforms | 6.830-lab5/src/java/simpledb/HeapPage.java:140-169 | a decoded row has the schema's types |
| PageLayout.EncodeRowLength | 6.830-lab5/src/java/simpledb/HeapPage.java:183-245 | a conforming row encodes in exactly the schema's size |
| PageLayout.DecodeEncodeRow | 6.830-lab5/src/java/simpledb/HeapPage.java:175-177 | decoding an encoded row gives the row back |
| PageLayout.EncodeSlotsLayout | 6.830-lab5/src/java/simpledb/HeapPage.java:183-245 | slot i occupies bytes [i * tupleSize, (i + 1) * tupleSize) of the slot area |
| HeaderBits.SlotUsedAt | 6.830-lab5/src/java/simpledb/HeapPage.java:352-356 | `isSlotUsed(i)` for every int i: bit i%8 of byte i/8 inside the header, the sign-extended top bit for i in [-7, -1], out of bounds otherwise |
| HeaderBits.SetSlotBit | 6.830-lab5/src/java/simpledb/HeapPage.java:361-367 | `setSlot(i, v)` leaves slot i reading v and every other slot as it was |
| HeaderBits.FlipKeepsOtherBits | 6.830-lab5/src/java/simpledb/HeapPage.java:361-367 | flipping one bit of a byte leaves the other seven |
| HeaderBits.FlipTogglesBit | 6.830-lab5/src/java/simpledb/HeapPage.java:361-367 | flipping a bit inverts it |
| HeaderBits.SetSlotBitIdle | 6.830-lab5/src/java/simpledb/HeapPage.java:361-367 | setting a slot to the value it already has changes nothing |
| HeaderBits.SetThenClear | 6.830-lab5/src/java/simpledb/HeapPage.java:361-367 | setting then clearing a clear slot restores the header byte for byte |
| HeaderBits.NextIndexOfValue | 6.830-lab5/src/java/simpledb/HeapPage.java:381-387 | the least index in [start, max) whose slot reads `value`, or max when there is none |
| HeaderBits.CountSlotsComplement | 6.830-lab5/src/java/simpledb/HeapPage.java:331-347 | every slot of a range is either used or free |
| HeaderBits.CountSlotsZero | 6.830-lab5/src/java/simpledb/HeapPage.java:381-387 | no slot of a range reads `value` exactly when the count of such slots is zero |
| HeaderBits.CountSlotsAfterSet | 6.830-lab5/src/java/simpledb/HeapPage.java:289-300 | using a free slot moves it from the free count to the used count |
| HeaderBits.ByteCount | 6.830-lab5/src/java/simpledb/HeapPage.java:333-344 | the set bits of one header byte are its used slots |
| HeaderBits.SetBitsCountsUsed | 6.830-lab5/src/java/simpledb/HeapPage.java:331-347 | the set bits of the header are the used indices over its whole 8 * length range |
| HeaderBits.PopCountHighBit | 6.830-lab5/src/java/simpledb/HeapPage.java:336-339 | for a negative byte the sign bit is counted, then cleared by adding 128 |
| HeaderBits.PopCountShift | 6.830-lab5/src/java/simpledb/HeapPage.java:340-343 | one turn of the shift loop counts the low bit and passes the rest on |
| HeapPage.PageDataLayout | 6.830-lab5/src/java/simpledb/HeapPage.java:183-245 | `getPageData` gives PAGE_SIZE bytes: the header, then each slot at its place |
| HeapPage.ParseContent | 6.830-lab5/src/java/simpledb/HeapPage.java:55-80 | the page read from any PAGE_SIZE bytes has the schema's slot count and header size |
| HeapPage.Parse | 6.830-lab5/src/java/simpledb/HeapPage.java:55-80 | a parsed page is clean and its before-image is its own bytes |
| HeapPage.ParseWellFormed | 6.830-lab5/src/java/simpledb/HeapPage.java:55-80 | a parsed page keeps the page invariant |
| HeapPage.ParsePageData | 6.830-lab5/src/java/simpledb/HeapPage.java:175-177 | round trip: parsing the bytes of a page gives the same header and tuples, clean, with those bytes as before-image |
| HeapPage.EmptyPageData | 6.830-lab5/src/java/simpledb/HeapPage.java:255-258 | an empty page is PAGE_SIZE zero bytes |
| HeapPage.EmptyPageHasNoTuples | 6.830-lab5/src/java/simpledb/HeapPage.java:255-258 | a page parsed from zero bytes has every slot free |
| HeapPage.NumEmptySlots | 6.830-lab5/src/java/simpledb/HeapPage.java:331-347 | the count as written is the number of clear bits in the whole header, padding included |
| HeapPage.FreeSlotCount | 6.830-lab5/src/java/simpledb/HeapPage.java:331-347 | the intended count: the free slots, at most the slot count, zero exactly when every slot is used |
| HeapPage.NumEmptySlotsSplit | 6.830-lab5/src/java/simpledb/HeapPage.java:331-347 | the count as written is the free slots plus the clear padding bits |
| HeapPage.FullPageReportsEmptySlots | 6.830-lab5/src/java/simpledb/HeapPage.java:331-347 | as written, a page with every slot used still reports its padding bits as empty slots |
| HeapPage.ThreeIntSchemaPadding | 6.830-lab5/src/java/simpledb/HeapPage.java:87-101 | a schema of three ints has 337 slots and 43 header bytes, so seven padding bits |
| HeapPage.InsertSucceedsIffFreeSlot | 6.830-lab5/src/java/simpledb/HeapPage.java:289-300 | insertion succeeds exactly when the schema matches and some slot is free |
| HeapPage.UsedTuplesCount | 6.830-lab5/src/java/simpledb/HeapPage.java:398-422 | the iterator yields one tuple per used slot, each stored on this page |
| HeapPage.Insert | 6.830-lab5/src/java/simpledb/HeapPage.java:289-300 | a refused insert is a DbException; otherwise the lowest free slot takes the tuple, its bit is set, no other slot changes and the tuple's record id is (this page, that slot), and the free-slot count drops by one |
| HeapPage.InsertPreservesWellFormed | 6.830-lab5/src/java/simpledb/HeapPage.java:289-300 | an insert keeps the page invariant |
| HeapPage.Delete | 6.830-lab5/src/java/simpledb/HeapPage.java:268-279 | a delete succeeds exactly for a record id naming this page and a used slot; then that slot is freed, no other slot changes and the tuple loses its record id |
| HeapPage.DeletePreservesWellFormed | 6.830-lab5/src/java/simpledb/HeapPage.java:268-279 | a delete keeps the page invariant and clear padding |
| HeapPage.InsertThenDelete | 6.830-lab5/src/java/simpledb/HeapPage.java:268-300 | deleting the tuple just inserted restores the header and slots |
| HeapPage.WithDirty | 6.830-lab5/src/java/simpledb/HeapPage.java:307-310 | `markDirty(d, t)` makes the dirtier t when d is true and none otherwise, and changes nothing else |
| HeapPage.WithBeforeImage | 6.830-lab5/src/java/simpledb/HeapPage.java:123-127 | the before-image becomes the page's current bytes |
| HeapPage.BeforeImage | 6.830-lab5/src/java/simpledb/HeapPage.java:107-120 | the before-image page is parsed from the remembered bytes |
| HeapPage.SetBeforeImageWellFormed | 6.830-lab5/src/java/simpledb/HeapPage.java:123-127 | taking a before-image keeps the page invariant |
| HeapPage.BeforeImageRestores | 6.830-lab5/src/java/simpledb/HeapPage.java:107-127 | restoring a before-image taken just before gives the same tuples back, clean |
| HeapPage.ReadRow | 6.830-lab5/src/java/simpledb/HeapPage.java:140-169 | the slot bytes read field by field decode to `DecodeRow` of them |
| HeapPage.ReadNextTuple | 6.830-lab5/src/java/simpledb/HeapPage.java:140-169 | slot i read from its position is the slot the page parser gives: its stored row when its bit is set, none otherwise |
| HeapPage.UsedTuplesSkip | 6.830-lab5/src/java/simpledb/HeapPage.java:398-422 | free slots add nothing to the iterator's output |
| HeapPage.ReadHeader | 6.830-lab5/src/java/simpledb/HeapPage.java:55-80 | the header loop copies the page's first header-size bytes |
| HeapPage.ReadSlots | 6.830-lab5/src/java/simpledb/HeapPage.java:55-80 | the slot loop reads every slot as `ParseContent` does |
| HeapPage.WriteSlot | 6.830-lab5/src/java/simpledb/HeapPage.java:183-245 | a free slot is written as zeros and a used one as its encoded fields |
| HeapPage.HeapPage.constructor | 6.830-lab5/src/java/simpledb/HeapPage.java:55-80 | a page object built from bytes holds `Parse` of them |
| HeapPage.HeapPage.GetPageData | 6.830-lab5/src/java/simpledb/HeapPage.java:183-245 | the bytes written are those of the page's value |
| HeapPage.HeapPage.WriteHeader | 6.830-lab5/src/java/simpledb/HeapPage.java:183-245 | the header loop writes the header bytes |
| HeapPage.HeapPage.WriteSlots | 6.830-lab5/src/java/simpledb/HeapPage.java:183-245 | the slot loop writes each slot's bytes in order |
| HeapPage.HeapPage.IsSlotUsed | 6.830-lab5/src/java/simpledb/HeapPage.java:352-356 | the answer of `SlotUsedAt` for any int index |
| HeapPage.HeapPage.SetSlot | 6.830-lab5/src/java/simpledb/HeapPage.java:361-367 | the header becomes `SetSlotBit` of it; slots and flags are unchanged |
| HeapPage.HeapPage.GetNextTupleIndexOfValue | 6.830-lab5/src/java/simpledb/HeapPage.java:381-387 | the first index in [start, max) with the given used-state, or max |
| HeapPage.HeapPage.GetNumEmptySlots | 6.830-lab5/src/java/simpledb/HeapPage.java:331-347 | the source's count: eight per header byte less its set bits |
| HeapPage.HeapPage.InsertTuple | 6.830-lab5/src/java/simpledb/HeapPage.java:289-300 | the page becomes `Insert` of it and the answer is Insert's |
| HeapPage.HeapPage.DeleteTuple | 6.830-lab5/src/java/simpledb/HeapPage.java:268-279 | the page becomes `Delete` of it and the answer is Delete's |
| HeapPage.HeapPage.MarkDirty | 6.830-lab5/src/java/simpledb/HeapPage.java:307-310 | the dirty flag and dirtier follow `WithDirty` |
| HeapPage.HeapPage.IsDirty | 6.830-lab5/src/java/simpledb/HeapPage.java:317-319 | the dirtier, none when clean |
| HeapPage.HeapPage.SetBeforeImage | 6.830-lab5/src/java/simpledb/HeapPage.java:123-127 | the before-image becomes the current bytes |
| HeapPage.HeapPage.GetBeforeImage | 6.830-lab5/src/java/simpledb/HeapPage.java:107-120 | a new page parsed from the before-image |
| HeapPage.HeapPage.IterateTuples | 6.830-lab5/src/java/simpledb/HeapPage.java:398-422 | the iterator yields the used slots' tuples in slot order |
| LockManager.AddShared | 6.830-lab3/src/java/simpledb/LockManager.java:90-95 | the transaction is appended to the page's shared list, which is created when missing |
| LockManager.AddHeld | 6.830-lab3/src/java/simpledb/LockManager.java:68-71 | the page is appended to the transaction's held pages, which are created when missing |
| LockManager.RemoveFirst | 6.830-lab3/src/java/simpledb/LockManager.java:127-135 | the first occurrence is removed and nothing else |
| LockManager.ReleaseShared | 6.830-lab3/src/java/simpledb/LockManager.java:127-135 | one occurrence of the transaction leaves the page's shared list; other pages are unchanged |
| LockManager.SharedGrantKeepsCompatible | 6.830-lab3/src/java/simpledb/LockManager.java:73-95 | a shared grant made while no other transaction holds the page exclusively keeps the invariant that an exclusive holder is the page's only reader |
| LockManager.ExclusiveGrantKeepsCompatible | 6.830-lab3/src/java/simpledb/LockManager.java:111-125 | an exclusive grant made while no other transaction holds the page keeps the invariant |
| LockManager.ReleaseKeepsCompatible | 6.830-lab3/src/java/simpledb/LockManager.java:127-135 | releasing a page keeps the invariant |
| LockManager.ReaderBlocksWriter | 6.830-lab3/src/java/simpledb/LockManager.java:97-109 | another transaction on the shared list makes the page locked by others |
| LockManager.SoleReaderCanUpgrade | 6.830-lab3/src/java/simpledb/LockManager.java:97-125 | the only reader of a page with no other exclusive holder can take the exclusive lock |
| LockManager.LockManager.constructor | 6.830-lab3/src/java/simpledb/LockManager.java:19-28 | a new lock manager has empty tables |
| LockManager.LockManager.HoldsLock | 6.830-lab3/src/java/simpledb/LockManager.java:154-159 | true exactly when the page is among the transaction's held pages |
| LockManager.LockManager.IsLockedByOthers | 6.830-lab3/src/java/simpledb/LockManager.java:97-109 | true exactly when another transaction holds the page exclusively or is on its shared list |
| LockManager.HasWrite | 6.830-lab3/src/java/simpledb/LockManager.java:64-66 | the transaction is the page's exclusive holder, so for every other transaction the page is held exclusively by someone else |
| LockManager.HasRead | 6.830-lab3/src/java/simpledb/LockManager.java:57-62 | write permission implies read permission; without read permission the transaction is not on the page's shared list |
| LockManager.LockManager.AcquireReadOnlyLock | 6.830-lab3/src/java/simpledb/LockManager.java:73-83 | granted exactly when no other transaction holds the page exclusively, and then appended to the shared list; not yet changes nothing |
| LockManager.LockManager.AcquireReadWriteLock | 6.830-lab3/src/java/simpledb/LockManager.java:115-125 | granted exactly when no other transaction holds the page in any mode, and then made its exclusive holder; not yet changes nothing |
| LockManager.LockManager.AcquireLock | 6.830-lab3/src/java/simpledb/LockManager.java:35-55 | a permission already held returns at once, a grant adds the page to the held pages and gives the mode asked, an unknown permission is IllegalArgument |
| LockManager.LockManager.ReleaseLock | 6.830-lab3/src/java/simpledb/LockManager.java:127-135 | the exclusive entry goes whoever holds it, and one occurrence of the transaction leaves the shared list |
| LockManager.LockManager.ReleasePage | 6.830-lab3/src/java/simpledb/LockManager.java:137-142 | the lock is released and the page dropped once from the held pages |
| LockManager.LockManager.ReleasePages | 6.830-lab3/src/java/simpledb/LockManager.java:144-152 | every held page is released and the held list emptied; an unknown transaction changes nothing |
| FileStore.PageOffset | 6.830-lab3/src/java/simpledb/HeapFile.java:79-80 | the offset is pageSize * pageNumber as a 32-bit int |
| FileStore.PageOffsetExact | 6.830-lab3/src/java/simpledb/HeapFile.java:79-80 | without overflow the offset is the exact product |
| FileStore.PageOffsetOverflows | 6.830-lab3/src/java/simpledb/HeapFile.java:79-80 | page 524288 would start at 2^31 bytes, and its offset wraps to a negative one |
| FileStore.PageOffsetAligned | 6.830-lab3/src/java/simpledb/HeapFile.java:98-99 | every offset is a multiple of the page size |
| FileStore.AlignedDisjoint | 6.830-lab3/src/java/simpledb/HeapFile.java:98-103 | pages at distinct offsets do not overlap |
| FileStore.NumPagesOf | 6.830-lab3/src/java/simpledb/HeapFile.java:40 | the page count is the file length, narrowed to an int, over the page size |
| FileStore.WriteAt | 6.830-lab3/src/java/simpledb/HeapFile.java:102-103 | the write lands at the offset, the file grows to hold it, a gap reads as zeros, and no other byte changes |
| FileStore.ReadPageBytes | 6.830-lab3/src/java/simpledb/HeapFile.java:78-93 | the read fails for a negative offset or fewer than PAGE_SIZE bytes left, and otherwise gives the page's bytes |
| FileStore.WritePageBytes | 6.830-lab3/src/java/simpledb/HeapFile.java:97-108 | the write fails only for a negative offset |
| FileStore.ReadAfterWrite | 6.830-lab3/src/java/simpledb/HeapFile.java:78-108 | a page reads back as the bytes last written to it |
| FileStore.WriteKeepsOtherPages | 6.830-lab3/src/java/simpledb/HeapFile.java:97-108 | writing one page leaves every other page's bytes as they were |
| FileStore.AppendGrowsFile | 6.830-lab3/src/java/simpledb/HeapFile.java:135-141 | writing page n of an n-page file adds one page |
| FileStore.FileStore.constructor | 6.830-lab3/src/java/simpledb/HeapFile.java:32-41 | the store holds the given table files |
| FileStore.FileStore.ReadPage | 6.830-lab3/src/java/simpledb/HeapFile.java:78-93 | the table's file read at the page's offset; an unknown table has no file |
| FileStore.FileStore.WritePage | 6.830-lab3/src/java/simpledb/HeapFile.java:97-108 | only the table's file changes, and it becomes `WritePageBytes` of it |
| HeapFile.EmptyPageTakesSlotZero | 6.830-lab3/src/java/simpledb/HeapFile.java:135-141 | a fresh all-zero page takes its first tuple in slot 0 |
| HeapFile.BlankPage | 6.830-lab3/src/java/simpledb/HeapFile.java:135-141 | the page parsed from all-zero bytes has the given id and schema and every slot free |
| HeapFile.ChosenFullPageRefuses | 6.830-lab3/src/java/simpledb/HeapFile.java:126-129 | a page with every slot used and some padding bits still has a positive count, so it is chosen, and the insert into it fails with DbException |
| HeapFile.HeapFile.constructor | 6.830-lab3/src/java/simpledb/HeapFile.java:32-41 | a missing file is created empty, and the page counter starts at the file's length, narrowed to an int, over the page size |
| HeapFile.HeapFile.NumPages | 6.830-lab3/src/java/simpledb/HeapFile.java:113-115 | the page counter |
| HeapFile.HeapFile.WritePage | 6.830-lab3/src/java/simpledb/HeapFile.java:97-108 | the page's bytes land in this file at the page number's offset |
| HeapFile.HeapFile.FindPageWithRoom | 6.830-lab3/src/java/simpledb/HeapFile.java:122-134 | the pages are scanned in order; the result is the first page whose `getNumEmptySlots` count is positive, cached and held under a write lock, and every page passed over has a zero count and no free slot |
| HeapFile.HeapFile.AppendPage | 6.830-lab3/src/java/simpledb/HeapFile.java:135-141 | the new page is `HeapPage.Insert` of the tuple into a blank page numbered numPages; the counter grows by one, the tuple sits in slot 0 and the page is in the file |
| HeapFile.HeapFile.InsertIntoCached | 6.830-lab3/src/java/simpledb/HeapFile.java:128-130 | the chosen page gets `HeapPage.Insert` of the tuple and goes back into the cache; a refusal is returned as is |
| HeapFile.HeapFile.InsertTuple | 6.830-lab3/src/java/simpledb/HeapFile.java:119-145 | the chosen page (the first whose count is positive) gets `HeapPage.Insert` of the tuple, and a refusal is returned as is; with no page chosen the tuple goes into a blank page numPages; the result lists exactly the page that took it |
| HeapFile.HeapFile.DeleteTuple | 6.830-lab3/src/java/simpledb/HeapFile.java:149-159 | a record id of no page or of another table is refused with nothing touched; otherwise the result is `HeapPage.Delete` of the tuple from the page fetched (the cached one when cached), held under a write lock |
| HeapFile.PoolInsertTuple | 6.830-lab5/src/java/simpledb/BufferPool.java:170-177 | every page the heap file reports is marked dirty by the transaction |
| HeapFile.PoolDeleteTuple | 6.830-lab5/src/java/simpledb/BufferPool.java:192-198 | a tuple with no record id or no page id fails with NullPointerException before any file is reached and changes no page; otherwise the page the heap file of the record id's table reports is marked dirty by the transaction |
| HeapFileLab2.ReadBytes | 6.830-lab2/src/java/simpledb/HeapFile.java:73-88 | the read fails for a negative position or a short read, and otherwise gives the page's bytes |
| HeapFileLab2.TruncatingWrite | 6.830-lab2/src/java/simpledb/HeapFile.java:92-106 | the file is emptied, then the page written at its offset |
| HeapFileLab2.TruncatingWriteErasesEarlierPages | 6.830-lab2/src/java/simpledb/HeapFile.java:92-106 | after the write as written every earlier page reads as zeros |
| HeapFileLab2.InPlaceWrite | 6.830-lab2/src/java/simpledb/HeapFile.java:92-106 | the intended write: the page's bytes replace the file's at the offset |
| HeapFileLab2.InPlaceWriteReadsBack | 6.830-lab2/src/java/simpledb/HeapFile.java:92-106 | after the intended write the page reads back as written and every other readable page is unchanged |
| HeapFileLab2.WrittenPageParsesBack | 6.830-lab2/src/java/simpledb/HeapFile.java:73-106 | a page written and read back parses to the same page, clean, with its bytes as before-image |
| HeapFileLab2.HeapFileLab2.constructor | 6.830-lab2/src/java/simpledb/HeapFile.java:32-36 | the page counter starts at the file's length over the page size |
| HeapFileLab2.HeapFileLab2.NumPages | 6.830-lab2/src/java/simpledb/HeapFile.java:111-113 | the page counter |
| HeapFileLab2.HeapFileLab2.ReadPage | 6.830-lab2/src/java/simpledb/HeapFile.java:73-88 | the page parsed from the file's bytes at the page number's offset, or the read's error |
| HeapFileLab2.HeapFileLab2.WritePage | 6.830-lab2/src/java/simpledb/HeapFile.java:92-106 | the page's bytes replace the file's at the page number's offset |
| HeapFileLab2.HeapFileLab2.FindPageWithRoom | 6.830-lab2/src/java/simpledb/HeapFile.java:120-129 | the pages are scanned in order under write locks, none released; the result is the first page whose `getNumEmptySlots` count is positive, and every page passed over has a zero count and no free slot |
| HeapFileLab2.HeapFileLab2.AppendPage | 6.830-lab2/src/java/simpledb/HeapFile.java:130-137 | the new page is `HeapPage.Insert` of the tuple into a blank page numbered numPages; the counter grows by one, the tuple sits in slot 0 and the page is written |
| HeapFileLab2.HeapFileLab2.InsertTuple | 6.830-lab2/src/java/simpledb/HeapFile.java:117-141 | the chosen page (the first whose count is positive) gets `HeapPage.Insert` of the tuple, and a refusal is returned as is; with no page chosen the tuple goes into a blank page numPages; the result lists exactly the page that took it |
| HeapFileLab2.HeapFileLab2.DeleteTuple | 6.830-lab2/src/java/simpledb/HeapFile.java:145-155 | a record id of no page or of another table is refused before any page is touched; otherwise the result is `HeapPage.Delete` of the tuple from the page fetched (the cached one when cached) |
| HeapFileIterator.FlattenAppend | 6.830-lab2/src/java/simpledb/HeapFileIterator.java:42-58 | scanning two runs of pages yields the first run's tuples, then the second's |
| HeapFileIterator.SkipsEmptyPage | 6.830-lab2/src/java/simpledb/HeapFileIterator.java:42-58 | a page with no used slot adds nothing to the scan |
| HeapFileIterator.FlattenFromPages | 6.830-lab2/src/java/simpledb/HeapFileIterator.java:42-58 | every tuple scanned comes from a used slot of one of the pages |
| HeapFileIterator.ScanStarts | 6.830-lab2/src/java/simpledb/HeapFileIterator.java:76-82 | a rewind starts the scan at page 0 |
| HeapFileIterator.ScanTakes | 6.830-lab2/src/java/simpledb/HeapFileIterator.java:50-53 | handing out the next pending tuple of the current page keeps the scan |
| HeapFileIterator.ScanAdvances | 6.830-lab2/src/java/simpledb/HeapFileIterator.java:42-58 | past the last page the scan has seen every tuple; otherwise the next page is fetched |
| HeapFileIterator.HeapFileIterator.constructor | 6.830-lab2/src/java/simpledb/HeapFileIterator.java:16-25 | a new iterator is closed |
| HeapFileIterator.HeapFileIterator.GetNext | 6.830-lab2/src/java/simpledb/HeapFileIterator.java:50-58 | the next tuple of the scan in ascending page order, skipping pages with no tuple; none once numberOfPages is passed |
| HeapFileIterator.HeapFileIterator.Open | 6.830-lab2/src/java/simpledb/HeapFileIterator.java:28-34 | opening an open iterator fails with DbException and changes nothing; otherwise it is open and rewound as written: the scan restarts with nothing handed out, and on a table with no pages whose page 0 is neither cached nor readable the open fails |
| HeapFileIterator.HeapFileIterator.Advance | 6.830-lab2/src/java/simpledb/HeapFileIterator.java:42-48 | the page number goes up by one and, when a page is left, its tuples become pending, keeping the scan |
| HeapFileIterator.HeapFileIterator.Restart | 6.830-lab2/src/java/simpledb/HeapFileIterator.java:76-82 | on a table with pages the scan restarts at page 0 with nothing handed out and the first tuple read ahead |
| HeapFileIterator.HeapFileIterator.Rewind | 6.830-lab2/src/java/simpledb/HeapFileIterator.java:76-82 | when open the scan restarts from page 0 and reads ahead the first tuple; when closed nothing changes |
| HeapFileIterator.HeapFileIterator.RewindAsWritten | 6.830-lab2/src/java/simpledb/HeapFileIterator.java:76-82 | as written page 0 is fetched even for a table with no pages, so the rewind can fail on a short read |
| HeapFileIterator.HeapFileIterator.RestartEmpty | 6.830-lab2/src/java/simpledb/HeapFileIterator.java:76-82 | as written, page 0 is fetched on a table with no pages: the fetch fails when page 0 is neither cached nor readable and nothing is evicted, and otherwise the scan finds nothing |
| HeapFileIterator.HeapFileIterator.HandOut | 6.830-lab2/src/java/simpledb/HeapFileIterator.java:66-73 | the tuple read ahead is handed out and recorded, and the following tuple of the scan is read ahead |
| HeapFileIterator.HeapFileIterator.HasNext | 6.830-lab2/src/java/simpledb/HeapFileIterator.java:61-63 | false whenever closed, otherwise whether a tuple was read ahead |
| HeapFileIterator.HeapFileIterator.Next | 6.830-lab2/src/java/simpledb/HeapFileIterator.java:66-73 | closed or exhausted fails with NoSuchElement and changes nothing; otherwise the tuple read ahead, and the scan advances |
| HeapFileIterator.HeapFileIterator.Close | 6.830-lab2/src/java/simpledb/HeapFileIterator.java:85-87 | the iterator is closed |
| BufferPool.RecordFlushed | 6.830-lab5/src/java/simpledb/BufferPool.java:223-231 | the transaction's flushed set grows by the pages, created when needed; no other entry changes |
| BufferPool.FlushedPage | 6.830-lab5/src/java/simpledb/BufferPool.java:238-252 | a flushed dirty page is clean; a clean page is unchanged |
| BufferPool.CacheOkUpdate | 6.830-lab5/src/java/simpledb/BufferPool.java:170-198 | replacing a cached page by a well-formed page with the same id keeps the cache invariant and size |
| BufferPool.DirtiedSet | 6.830-lab5/src/java/simpledb/BufferPool.java:257-264 | exactly the cached pages the transaction dirtied |
| BufferPool.CommittedPage | 6.830-lab5/src/java/simpledb/BufferPool.java:127-139 | on commit a page dirtied by tid is clean with its content as before-image, a page in tid's flushed set takes its content as before-image, any other is unchanged |
| BufferPool.AbortedPage | 6.830-lab5/src/java/simpledb/BufferPool.java:140-147 | on abort a page dirtied by tid becomes its before-image, clean; any other is unchanged |
| BufferPool.AbortAfterCommitRestores | 6.830-lab5/src/java/simpledb/BufferPool.java:126-147 | after a commit touches a page, a later abort brings back exactly the committed tuples |
| BufferPool.AbortedPageWellFormed | 6.830-lab5/src/java/simpledb/BufferPool.java:140-147 | a page put back by an abort keeps the page invariant |
| BufferPool.CommittedPageWellFormed | 6.830-lab5/src/java/simpledb/BufferPool.java:127-139 | a committed page keeps the page invariant |
| BufferPool.FlushStep | 6.830-lab5/src/java/simpledb/BufferPool.java:238-252 | a dirty cached page is recorded in its dirtier's flushed set, written and marked clean; a failed write keeps the record and returns the error; a clean or uncached page changes nothing |
| BufferPool.CacheOkFlushed | 6.830-lab5/src/java/simpledb/BufferPool.java:238-252 | flushing keeps every cached page well formed |
| BufferPool.FlushStepReadsBack | 6.830-lab5/src/java/simpledb/BufferPool.java:238-252 | after a successful flush the file holds the cached page's bytes, and they parse back to the cached page |
| BufferPool.FlushStepIdempotent | 6.830-lab5/src/java/simpledb/BufferPool.java:238-252 | a second flush right after a successful one writes and records nothing |
| BufferPool.CommitStep | 6.830-lab5/src/java/simpledb/BufferPool.java:129-139 | one page of the commit loop: flushed and given its before-image when dirtied by tid, only given its before-image when in tid's flushed set |
| BufferPool.CacheOkCommitted | 6.830-lab5/src/java/simpledb/BufferPool.java:127-139 | committing keeps every cached page well formed |
| BufferPool.CacheOkAborted | 6.830-lab5/src/java/simpledb/BufferPool.java:140-147 | aborting keeps every cached page well formed |
| BufferPool.FlushedSoFarStep | 6.830-lab5/src/java/simpledb/BufferPool.java:257-264 | one turn of the `flushPages` loop keeps its invariant |
| BufferPool.FlushPagesOf | 6.830-lab5/src/java/simpledb/BufferPool.java:257-264 | every cached page tid dirtied is flushed and the others are unchanged, until a flush fails |
| BufferPool.FlushedAllSoFarStep | 6.830-lab5/src/java/simpledb/BufferPool.java:205-209 | one turn of the `flushAllPages` loop keeps its invariant |
| BufferPool.FlushAll | 6.830-lab5/src/java/simpledb/BufferPool.java:205-209 | every cached page is flushed, until a flush fails |
| BufferPool.CommittedSoFarStep | 6.830-lab5/src/java/simpledb/BufferPool.java:127-139 | one turn of the commit loop keeps its invariant |
| BufferPool.CommitAll | 6.830-lab5/src/java/simpledb/BufferPool.java:127-139 | every cached page ends as `CommittedPage` of it, until a flush fails |
| BufferPool.AbortAll | 6.830-lab5/src/java/simpledb/BufferPool.java:140-147 | every cached page ends as `AbortedPage` of it, with the same keys |
| BufferPool.BufferPool.constructor | 6.830-lab5/src/java/simpledb/BufferPool.java:47-53 | a new pool has an empty cache, no flushed sets and the given capacity |
| BufferPool.BufferPool.GetPage | 6.830-lab5/src/java/simpledb/BufferPool.java:75-91 | the lock in the mode asked is taken first; a cached page is returned unchanged with the cache as it was; a miss loads the page, evicting first at capacity; the counter stays the cache size and within capacity |
| BufferPool.BufferPool.LoadPage | 6.830-lab5/src/java/simpledb/BufferPool.java:81-90 | at capacity a clean page is evicted first, then the page is read, cached and counted |
| BufferPool.BufferPool.ReleasePage | 6.830-lab5/src/java/simpledb/BufferPool.java:101-103 | the page's lock is released as `releaseLock` does |
| BufferPool.BufferPool.HoldsLock | 6.830-lab5/src/java/simpledb/BufferPool.java:115-117 | true exactly when the lock manager lists the page among the transaction's held pages |
| BufferPool.BufferPool.DropPage | 6.830-lab5/src/java/simpledb/BufferPool.java:292-293 | the page leaves the cache and the counter goes down by one, keeping the counter equal to the cache size |
| BufferPool.BufferPool.EvictPage | 6.830-lab5/src/java/simpledb/BufferPool.java:274-294 | it fails exactly when every cached page is dirty, and then changes nothing; otherwise exactly one clean page is dropped and the counter goes down by one |
| BufferPool.BufferPool.FlushPage | 6.830-lab5/src/java/simpledb/BufferPool.java:238-252 | the pool moves as `FlushStep` says and the counter stays |
| BufferPool.BufferPool.FlushPages | 6.830-lab5/src/java/simpledb/BufferPool.java:257-264 | each page tid dirtied is flushed and recorded, the keys and counter stay, and with no tid nothing is written |
| BufferPool.BufferPool.FlushAllPages | 6.830-lab5/src/java/simpledb/BufferPool.java:205-209 | every cached page ends flushed, and the keys and counter stay |
| BufferPool.BufferPool.DiscardPage | 6.830-lab5/src/java/simpledb/BufferPool.java:216-221 | the page is dropped and the counter goes down by one only when it was cached; the flushed sets stay |
| BufferPool.BufferPool.UpdatePage | 6.830-lab3/src/java/simpledb/HeapFile.java:119-145 | the cache holds the page value the heap file changed in place; the counter and the flushed sets stay, and no other field may change |
| BufferPool.BufferPool.MarkDirty | 6.830-lab5/src/java/simpledb/BufferPool.java:170-198 | the cached page is marked dirty by the transaction; the other pages, the counter and the flushed sets stay |
| BufferPool.BufferPool.TransactionComplete | 6.830-lab5/src/java/simpledb/BufferPool.java:126-155 | commit leaves each page as `CommittedPage`, abort as `AbortedPage` with nothing written; either way the keys and counter stay and tid's flushed set is dropped; the lock tables become what `ReleasePages` leaves: tid's pages lose their exclusive entries and tid's shared entries, tid holds nothing and every other entry stays; a failed commit releases nothing |
| BufferPool.BufferPool.CommitPages | 6.830-lab5/src/java/simpledb/BufferPool.java:127-139 | each cached page ends as `CommittedPage` of it, with tid's flushed set read before the loop |
| BufferPool.BufferPool.AbortPages | 6.830-lab5/src/java/simpledb/BufferPool.java:140-147 | each cached page ends as `AbortedPage` of it; keys, counter and flushed sets stay |
| BufferPoolLab1.Cleaned | 6.830-lab1/src/java/simpledb/BufferPool.java:190-198 | a cleaned page has no dirtier and the same contents |
| BufferPoolLab1.WriteBack | 6.830-lab1/src/java/simpledb/BufferPool.java:190-198 | an unknown table fails with NoSuchElement; over lab 1's empty `writePage` no file changes; over a file that writes, the page's bytes land at its offset |
| BufferPoolLab1.FlushStep | 6.830-lab1/src/java/simpledb/BufferPool.java:190-198 | a dirty cached page is handed to its table's file and cleaned; a clean or uncached one changes nothing; a failed write leaves it dirty |
| BufferPoolLab1.FlushStepIdempotent | 6.830-lab1/src/java/simpledb/BufferPool.java:190-198 | a second flush right after a successful one changes nothing |
| BufferPoolLab1.FlushStepReadsBack | 6.830-lab1/src/java/simpledb/BufferPool.java:190-198 | over a file that writes, after a successful flush the page reads back from its file as the cached bytes |
| BufferPoolLab1.StubFlushWritesNothing | 6.830-lab1/src/java/simpledb/HeapFile.java:89-92 | over lab 1's empty `writePage`, flushing a dirty page of a known table succeeds, cleans it and leaves every file as it was |
| BufferPoolLab1.FlushedSoFarStep | 6.830-lab1/src/java/simpledb/BufferPool.java:203-211 | one turn of the `flushPages` loop keeps its invariant |
| BufferPoolLab1.CacheShapedFlushed | 6.830-lab1/src/java/simpledb/BufferPool.java:203-211 | cleaning cached pages keeps them shaped |
| BufferPoolLab1.FlushPagesOf | 6.830-lab1/src/java/simpledb/BufferPool.java:203-211 | exactly the cached pages whose dirtier is tid are handed to their files and cleaned, until a write fails; over lab 1's stub no file changes |
| BufferPoolLab1.BufferPool.constructor | 6.830-lab1/src/java/simpledb/BufferPool.java:40-43 | a new pool is empty, over the given files, which write or (lab 1) do not |
| BufferPoolLab1.BufferPool.GetPage | 6.830-lab1/src/java/simpledb/BufferPool.java:63-77 | a cached page is returned unchanged; a miss at capacity evicts, then loads, caches and counts |
| BufferPoolLab1.BufferPool.LoadPage | 6.830-lab1/src/java/simpledb/BufferPool.java:66-76 | the miss path: evict at capacity, then read, cache and count |
| BufferPoolLab1.BufferPool.ReleasePage | 6.830-lab1/src/java/simpledb/BufferPool.java:86-89 | a stub in lab 1: nothing changes |
| BufferPoolLab1.BufferPool.TransactionComplete | 6.830-lab1/src/java/simpledb/BufferPool.java:96-99 | a stub in lab 1: nothing changes |
| BufferPoolLab1.BufferPool.TransactionCompleteWith | 6.830-lab1/src/java/simpledb/BufferPool.java:116-119 | a stub in lab 1: nothing changes, whether commit or abort |
| BufferPoolLab1.BufferPool.DiscardPage | 6.830-lab1/src/java/simpledb/BufferPool.java:180-183 | a stub in lab 1: nothing changes and the page stays cached |
| BufferPoolLab1.BufferPool.HoldsLock | 6.830-lab1/src/java/simpledb/BufferPool.java:103-107 | always false |
| BufferPoolLab1.BufferPool.EvictPage | 6.830-lab1/src/java/simpledb/BufferPool.java:217-228 | some cached page, dirty or not, is flushed then dropped and the counter goes down by one; an empty cache fails; over lab 1's stub no file changes |
| BufferPoolLab1.BufferPool.FlushPage | 6.830-lab1/src/java/simpledb/BufferPool.java:190-198 | the pool moves as `FlushStep` says |
| BufferPoolLab1.BufferPool.FlushPages | 6.830-lab1/src/java/simpledb/BufferPool.java:203-211 | exactly the cached pages dirtied by tid are handed to their files and cleaned; over lab 1's stub no file changes |
| BufferPoolLab1.BufferPool.UpdatePage | 6.830-lab3/src/java/simpledb/HeapFile.java:119-145 | the cache holds the changed page value and nothing else changes |
| Aggregators.CountIn | 6.830-lab5/src/java/simpledb/CountingAggregator.java:37-40 | a group never counts more tuples than were merged |
| Aggregators.GroupsOfRows | 6.830-lab5/src/java/simpledb/CountingAggregator.java:37-40 | the groups seen are exactly the group keys of the merged rows |
| Aggregators.CountPositiveIffSeen | 6.830-lab5/src/java/simpledb/CountingAggregator.java:28-35 | a group has a positive count exactly when some merged row falls into it |
| Aggregators.UngroupedCountIsTotal | 6.830-lab5/src/java/simpledb/CountingAggregator.java:46-48 | without grouping every tuple counts under the one key |
| Aggregators.UnseenCountsZero | 6.830-lab5/src/java/simpledb/CountingAggregator.java:28-35 | a group without an entry has no tuples |
| Aggregators.CountStepAt | 6.830-lab5/src/java/simpledb/CountingAggregator.java:37-40 | after one more row a group counts one more exactly when the row falls into it |
| Aggregators.CountStep | 6.830-lab5/src/java/simpledb/CountingAggregator.java:37-40 | `countTuple` keeps the counts equal to the wrapped number of merged rows per group |
| Aggregators.CountingAggregator.constructor | 6.830-lab5/src/java/simpledb/CountingAggregator.java:14-18 | a new counter has no groups |
| Aggregators.CountingAggregator.GetCount | 6.830-lab5/src/java/simpledb/CountingAggregator.java:42-44 | a group's count is the wrapped number of merged rows in it, 0 for a group never seen |
| Aggregators.CountingAggregator.GetUngroupedCount | 6.830-lab5/src/java/simpledb/CountingAggregator.java:46-48 | without grouping the count is the wrapped number of tuples merged |
| Aggregators.CountingAggregator.GetCounts | 6.830-lab5/src/java/simpledb/CountingAggregator.java:50-52 | a copy equal to the counts, keyed by the groups seen |
| Aggregators.CountingAggregator.CountTuple | 6.830-lab5/src/java/simpledb/CountingAggregator.java:37-40 | the tuple's group counts one more and no other group changes |
| Aggregators.ValuesInLength | 6.830-lab2/src/java/simpledb/IntegerAggregator.java:81-105 | a group holds one value per tuple merged into it |
| Aggregators.FoldSumWraps | 6.830-lab2/src/java/simpledb/IntegerAggregator.java:81-105 | SUM and AVG accumulate the exact sum wrapped to 32 bits |
| Aggregators.FoldCountIsLength | 6.830-lab2/src/java/simpledb/IntegerAggregator.java:81-105 | COUNT accumulates the number of values wrapped to 32 bits |
| Aggregators.FoldMinIsLeast | 6.830-lab2/src/java/simpledb/IntegerAggregator.java:59-105 | MIN is at most every value and is one of them or Integer.MAX_VALUE; for int values it is the least |
| Aggregators.FoldMaxIsGreatest | 6.830-lab2/src/java/simpledb/IntegerAggregator.java:59-105 | MAX is at least every value and is one of them or Integer.MIN_VALUE; for int values it is the greatest |
| Aggregators.GroupKey | 6.830-lab2/src/java/simpledb/IntegerAggregator.java:46-48 | `getGroupByField`: the group-by field of the tuple, or the fixed no-grouping key |
| Aggregators.DefaultValue | 6.830-lab2/src/java/simpledb/IntegerAggregator.java:59-72 | `getDefaultValue` is a 32-bit int |
| Aggregators.DefaultValueIsStart | 6.830-lab2/src/java/simpledb/IntegerAggregator.java:54-103 | a group starts from the default: for SUM, AVG, MIN and MAX the first merge of an int value gives that value, and COUNT's first merge gives 1 |
| Aggregators.Step | 6.830-lab2/src/java/simpledb/IntegerAggregator.java:86-103 | one merge in 32-bit arithmetic: int inputs give an int; MIN keeps the smaller of the two, MAX the larger; COUNT adds one with wrap-around |
| Aggregators.UnseenHasNoValues | 6.830-lab2/src/java/simpledb/IntegerAggregator.java:50-57 | a group without an entry has no values |
| Aggregators.MergeStepAt | 6.830-lab2/src/java/simpledb/IntegerAggregator.java:81-105 | after one more row a group holds the step from its previous value exactly when the row falls into it |
| Aggregators.MergeStep | 6.830-lab2/src/java/simpledb/IntegerAggregator.java:81-105 | merging keeps every group's value equal to the fold of its values |
| Aggregators.AvgIsTruncatedMean | 6.830-lab2/src/java/simpledb/IntegerAggregator.java:133-137 | AVG is the group sum divided by its count, truncated toward zero, when neither overflows |
| Aggregators.UngroupedAvgOfNothingFails | 6.830-lab2/src/java/simpledb/IntegerAggregator.java:148-150 | ungrouped AVG over no tuples fails with ArithmeticException |
| Aggregators.ResultsAreGroupResults | 6.830-lab2/src/java/simpledb/IntegerAggregator.java:130-154 | a map holding every group's reported value and nothing else is the map of group results |
| Aggregators.ListedAll | 6.830-lab2/src/java/simpledb/IntegerAggregator.java:130-154 | a list built for every group holds one tuple per group and nothing else |
| Aggregators.IntegerAggregator.constructor | 6.830-lab2/src/java/simpledb/IntegerAggregator.java:36-44 | a new aggregator has no groups and an empty counter |
| Aggregators.IntegerAggregator.GetAggregateValue | 6.830-lab2/src/java/simpledb/IntegerAggregator.java:50-57 | a group's value is the fold of its values from the default |
| Aggregators.IntegerAggregator.MergeTupleIntoGroup | 6.830-lab2/src/java/simpledb/IntegerAggregator.java:81-105 | the tuple's group takes one more step, the counter one more tuple, and no other group changes |
| Aggregators.IntegerAggregator.Report | 6.830-lab2/src/java/simpledb/IntegerAggregator.java:133-150 | what is reported for a group is its group result: the value, divided for AVG by the count, failing on a zero count |
| Aggregators.IntegerAggregator.GetTuples | 6.830-lab2/src/java/simpledb/IntegerAggregator.java:130-154 | grouped, one (group, value) tuple per group seen, failing with ArithmeticException exactly when some AVG count is zero; ungrouped, exactly one tuple |
| Aggregators.IntegerAggregator.GroupTuples | 6.830-lab2/src/java/simpledb/IntegerAggregator.java:131-143 | one tuple per group seen with its group result, or ArithmeticException |
| Aggregators.StringAggregator.constructor | 6.830-lab2/src/java/simpledb/StringAggregator.java:31-38 | a new aggregator has an empty counter |
| Aggregators.StringAggregator.Create | 6.830-lab2/src/java/simpledb/StringAggregator.java:31-33 | any operator but COUNT is Unsupported; COUNT gives an empty aggregator |
| Aggregators.StringAggregator.MergeTupleIntoGroup | 6.830-lab2/src/java/simpledb/StringAggregator.java:47-49 | the tuple's group counts one more and no other group changes |
| Aggregators.StringAggregator.GetTuples | 6.830-lab2/src/java/simpledb/StringAggregator.java:74-92 | grouped, one (group, count) tuple per group seen; ungrouped, one tuple with the wrapped total |
| Common.Wrap32 | 6.830-lab2/src/java/simpledb/IntegerAggregator.java:81-105 | Java's int arithmetic: the result is a 32-bit int, equal to the exact value whenever that already fits |
| Common.Wrap32Congruent | 6.830-lab2/src/java/simpledb/IntegerAggregator.java:81-105 | the wrapped value differs from the exact one by a multiple of 2^32 |
| Common.Wrap32Add | 6.830-lab2/src/java/simpledb/IntegerAggregator.java:81-105 | wrapping part-way through a sum does not change the wrapped total, so a running SUM wraps as the exact sum does |
| Common.TruncDivRemainder | 6.830-lab2/src/java/simpledb/IntegerAggregator.java:133-137 | the remainder has the dividend's sign and is smaller than the divisor: the quotient is truncated toward zero |
| Common.JavaDiv | 6.830-lab2/src/java/simpledb/IntegerAggregator.java:133-137 | Java's int division is a 32-bit int |
| Common.JavaDivExact | 6.830-lab2/src/java/simpledb/IntegerAggregator.java:133-137 | outside INT_MIN / -1, Java's int division is the truncated quotient |
| AggregatorExamples.SampleValues | 6.830-lab4/test/simpledb/AggregateTest.java:33-34 | the sample rows put values 2, 4, 6 in groups 1 and 3 and value 7 in group 5 |
| AggregatorExamples.SampleFolds | 6.830-lab4/test/simpledb/AggregateTest.java:33-48 | the folds of the groups' values |
| AggregatorExamples.SampleResult | 6.830-lab4/test/simpledb/AggregateTest.java:33-49 | groups 1, 3, 5 report SUM 12, 12, 7, AVG 4, 4, 7, MIN 2, 2, 7, MAX 6, 6, 7 and COUNT 3, 3, 1 |
| StringAggregatorExamples.CountProgress | 6.830-lab3/test/simpledb/StringAggregatorTest.java:25-47 | merging (1,a) (1,b) (1,c) (3,d) gives counts {1:1}, {1:2}, {1:3}, {1:3, 3:1} |
| StringAggregatorExamples.LetterGroups | 6.830-lab3/test/simpledb/StringAggregatorTest.java:25-27 | the seven rows fall into groups 1, 3 and 5 |
| StringAggregatorExamples.MergeAll | 6.830-lab3/test/simpledb/StringAggregatorTest.java:56-63 | merging every row leaves the aggregator holding exactly those rows |
| StringAggregatorExamples.CountAllGroups | 6.830-lab3/test/simpledb/StringAggregatorTest.java:65-78 | after all seven rows there are exactly three result tuples, one for each of groups 1, 3 and 5 |
| SeqScan.Represent | 6.830-lab1/src/java/simpledb/SeqScan.java:53-55 | a null string is rendered "null", any other as itself |
| SeqScan.PrefixedName | 6.830-lab1/src/java/simpledb/SeqScan.java:48 | the name is the alias, a dot, then the field name |
| SeqScan.SplitPrefixedName | 6.830-lab1/src/java/simpledb/SeqScan.java:48 | for an alias without a dot, the alias is what precedes the first dot and the field name what follows it |
| SeqScan.PrefixedNamesDistinct | 6.830-lab1/src/java/simpledb/SeqScan.java:48 | under one alias two prefixed names are equal exactly when the rendered field names are |
| SeqScan.PrefixedTupleDesc | 6.830-lab1/src/java/simpledb/SeqScan.java:38-51 | the same number of fields, the same type at each index, and each name alias.fieldName |
| SeqScan.SeqScan.constructor | 6.830-lab1/src/java/simpledb/SeqScan.java:33-36 | a new scan reads its table under its alias, with the prefixed schema |
| SeqScan.SeqScan.Reset | 6.830-lab1/src/java/simpledb/SeqScan.java:83-88 | the table id, alias, schema and iterator are replaced together; the transaction stays |
| SeqScan.SeqScan.GetAlias | 6.830-lab1/src/java/simpledb/SeqScan.java:68-70 | the alias |

## Left out

- Blocking and concurrency. Lock requests spin until granted in the source. Here each attempt returns `NotYet` instead of waiting. `synchronized`, the concurrent maps and the atomic counters are plain fields.
- File I/O. Files are byte sequences keyed by table id, so `RandomAccessFile`, channels and streams become reads and writes on them. `IOException`s other than the ones the code raises itself (negative seek, short read) are not modelled.
- The log calls in the lab 5 `flushPage` are opaque: they change no modelled state.
- `Field.parse`/`serialize` and `Type` are not part of this model. The codec is abstract. `TypeLen` takes the widths the page layout implies: 4 bytes for an int, 4 + STRING_LEN bytes for a string.
- Object identity and aliasing. Pages are values. When a heap file changes a cached page in place, the model writes the new value back (`BufferPool.BufferPool.UpdatePage`). A page object that the cache and a caller share is one value, not a reference.
- Hash-map iteration order. Loops over `keySet()` pick an arbitrary remaining key, and lab 1's first-key eviction evicts an arbitrary page. The order in which `getTuples` lists groups is not stated: the results are stated as one tuple per group.
- Transaction ids are ints and `null` is `None`. `TransactionId.equals` is value equality.
- `BufferPool.BufferPool.GetPage`: the cached page is the same value, not the same object.
- `Catalog.Catalog.LoadSchema`: the file is given as its lines. The table id is a function of the table name (the hash of the data file's path). Field names get fresh identities from a counter. The `println`/`System.exit` paths become errors that end the load.
- `Catalog.Catalog.AddTableUnnamed`: the random UUID is a parameter.
- The catalog's `getFiles` accessor and `toString`/`hashCode` of the schemas are left out: no core operation relies on them.
- `JavaString.ToLowerAscii`: `toLowerCase` is modelled for ASCII letters only.
- `Aggregate.java` is not part of this model. The aggregators' `iterator()` wrappers and the result schema's field names are left out. Grouping is a datatype, `NoGrouping` or `GroupOn(field)`.
- `Aggregators.IntegerAggregator.MergeTupleIntoGroup`: a non-int aggregate field (a `ClassCastException` in the source) is excluded by a precondition.
- `Aggregators.StringAggregator.constructor`: the unused aggregate field and group type are not stored.
- `StringAggregatorExamples.CountAllGroups` states the number of result tuples and their groups, not their count values.
- `AggregatorExamples.SampleResult` states each group's result separately, not the result map as a whole.
- `SeqScan`:
  - The catalog lookups (`getTupleDesc`, `getDatabaseFile(...).iterator`) become the schema parameter and the `FileScan` value.
  - `getTableName`, the two-argument constructor and the delegating `open`/`hasNext`/`next`/`close`/`rewind` are not modelled.
- `HeapFileIterator.HeapFileIterator.GetNext` states where a tuple comes from only for a scan started by a rewind (the ghost `tracked` flag). The raw loop is also proved to stop at numberOfPages.
- `HeapFile.HeapFile.FindPageWithRoom` does not state that the pages it passes over are released to the lock manager.
- `HeapFileIterator.HeapFileIterator.Rewind` models the corrected rewind, which fetches page 0 only when the table has pages. The rewind as written is `HeapFileIterator.HeapFileIterator.RewindAsWritten`, and `Open` calls that one, as the source's `open()` does (see Findings).
- `Catalog.WithTable` carries no contract of its own. What `addTable` promises is stated by `Catalog.WithTableLookups`, `Catalog.WithTableKeepsOthers` and `Catalog.WithTableConsistent`.
- `BufferPoolLab1.WriteBack`: the lab 1 and lab 2 heap files share this pool. With `writesPages` false a flush goes to lab 1's `writePage`, an empty stub (`6.830-lab1/src/java/simpledb/HeapFile.java:89-92`). With it true the flush is the in-place write, the corrected form of lab 2's truncating `writePage` (see Findings).
- `HeapFile.PoolDeleteTuple` and `HeapFile.PoolInsertTuple` take the heap file the catalog gives for the table as a parameter. The catalog lookup, and its `NoSuchElementException` for an unknown table, is not part of these members.
- `HeapFileLab2.HeapFileLab2.WritePage` models the intended in-place write. The truncating write as written is `HeapFileLab2.TruncatingWrite` (see Findings).
- `Catalog.Catalog.Clear` models the corrected clear, which also empties the id map. The clear as written is `Catalog.ClearedAsWritten` (see Findings).
- `HeapPage.HeapPage.InsertTuple`: the tuple's fields must all be set and have its schema's types (`Conforms`), as the `Tuple` class describes a tuple. The source's `insertTuple` does not check this: it compares only the schemas and looks for a free slot, so it stores such a tuple. Its `getPageData` would then write a page of the wrong size, or throw `NullPointerException` for an unset field. The page invariant, `HeapPage.InsertPreservesWellFormed` and the page round trip `HeapPage.ParsePageData` rest on this assumption.
- `HeapPage.HeapPage.GetPageData`: requires every used slot to hold a conforming tuple, the same assumption. A page holding a tuple with an unset or mistyped field, which the source can build, is not modelled.
- `HeapFile.HeapFile.InsertTuple`: requires a conforming tuple, the same assumption. Lab 3's `insertTuple` hands any tuple to the page, which stores it unchecked.
- `HeapFile.HeapFile.InsertIntoCached`: requires a conforming tuple, the same assumption, for the page insert it performs.
- `HeapFile.PoolInsertTuple`: requires a conforming tuple, the same assumption. The source's pool `insertTuple`, and the `Insert` operator above it, pass tuples on without checking them.
- Floating point: the source computes slot counts and header sizes with doubles. They are modelled as the exact integer floor and ceiling.

## Findings

| source | as written | input that shows it | evidently intended | confidence | as-written member | corrected member |
|---|---|---|---|---|---|---|
| 6.830-lab5/src/java/simpledb/HeapPage.java:331-347 | `getNumEmptySlots` counts every clear header bit, the padding bits past the slot count included | a schema of three ints: 337 slots, a 43-byte header, 7 padding bits; with every slot used the page reports 7 empty slots, so a heap file picks it for an insert that then fails | count only the free slots below the slot count | high; not executed | HeapFile.ChosenFullPageRefuses | HeapPage.InsertSucceedsIffFreeSlot |
| 6.830-lab2/src/java/simpledb/HeapFile.java:92-106 | `writePage` opens a `FileOutputStream` without append, which empties the file before the page is written | a two-page file; writing page 1 leaves page 0 reading as zeros | write the page in place at its offset | high; not executed | HeapFileLab2.TruncatingWriteErasesEarlierPages | HeapFileLab2.InPlaceWriteReadsBack |
| 6.830-lab1/src/simpledb/Catalog.java:164-169 | `clear` empties the lists and the name map but keeps the id-to-index map | add a table with id 7, clear, add another table: `getTupleDesc(7)` returns the new table's schema instead of failing | clear the id map too | high; not executed | Catalog.ClearAsWrittenKeepsStaleIds | Catalog.ClearedForgetsAll |
| 6.830-lab2/src/java/simpledb/HeapFileIterator.java:76-82 | `rewind` fetches page 0 whatever the page count | `open()` on the iterator of a table with no pages whose file is empty and whose page 0 is not cached: the read of page 0 is short and `open` fails | fetch page 0 only when the table has pages | medium; not executed | HeapFileIterator.HeapFileIterator.RewindAsWritten | HeapFileIterator.HeapFileIterator.Rewind |
| 6.830-lab1/src/simpledb/TupleDesc.java:103-114 | `nameToId` compares field names with `==`, by reference | a lookup by a string built at run time with a field's characters fails with NoSuchElement | compare by characters | medium; not executed | LegacyTupleDesc.FreshStringLookupMisses | LegacyTupleDesc.NameToIdByText |
