/** Page and record identifiers: value types compared field by field. */
module Ids {
  import opened Common

  /** A transaction identifier; transactions are compared by their id. */
  type Tid = int

  /** The number multiplied into the table id by the page-id hash: a prime
      near 2^20. */
  const MAX_PAGES_PER_TABLE: int := 1048573

  /** A page of a heap file: (table id, page number), both Java ints. */
  datatype HeapPageId = HeapPageId(tableId: int, pageNumber: int)

  /** `equals(Object)`: false for null, otherwise page numbers and table ids
      compared. */
  predicate PageIdEquals(p: HeapPageId, other: Option<HeapPageId>)
    ensures PageIdEquals(p, other) <==> other == Some(p)
  {
    other.Some? && other.value.pageNumber == p.pageNumber && other.value.tableId == p.tableId
  }

  lemma PageIdEqualsIsValueEquality(p: HeapPageId, q: HeapPageId)
    ensures PageIdEquals(p, Some(q)) <==> p == q
    ensures !PageIdEquals(p, None)
  {
  }

  /** `hashCode()`: tableId * MAX_PAGES_PER_TABLE + pageNumber + 31 in 32-bit
      arithmetic. */
  function PageIdHash(p: HeapPageId): (h: int)
    ensures IsInt32(h)
    ensures (h - (p.tableId * MAX_PAGES_PER_TABLE + p.pageNumber + 31)) % TWO_32 == 0
  {
    Wrap32(p.tableId * MAX_PAGES_PER_TABLE + p.pageNumber + 31)
  }

  /** Ids that are equal by `equals` hash equally. */
  lemma PageIdHashConsistent(p: HeapPageId, q: HeapPageId)
    requires PageIdEquals(p, Some(q))
    ensures PageIdHash(p) == PageIdHash(q)
  {
  }

  /** Within one table, distinct page numbers in [0, MAX_PAGES_PER_TABLE)
      hash differently as long as no wrap-around happens. */
  lemma PageIdHashSeparatesPages(p: HeapPageId, q: HeapPageId)
    requires p.tableId == q.tableId && p.pageNumber != q.pageNumber
    requires IsInt32(p.tableId * MAX_PAGES_PER_TABLE + p.pageNumber + 31)
    requires IsInt32(q.tableId * MAX_PAGES_PER_TABLE + q.pageNumber + 31)
    ensures PageIdHash(p) != PageIdHash(q)
  {
  }

  /** `serialize()`: the constructor arguments as an int array. */
  function SerializePageId(p: HeapPageId): (data: seq<int>)
    ensures |data| == 2
    ensures DeserializePageId(data) == Some(p)
  {
    [p.tableId, p.pageNumber]
  }

  /** Rebuilding an id from a serialized array via the two-argument
      constructor; any other length matches no constructor. */
  function DeserializePageId(data: seq<int>): (r: Option<HeapPageId>)
    ensures r.Some? <==> |data| == 2
    ensures r.Some? ==> r.value.tableId == data[0] && r.value.pageNumber == data[1]
  {
    if |data| == 2 then Some(HeapPageId(data[0], data[1])) else None
  }

  /** A record's location: a (possibly null) page id and a slot number. */
  datatype RecordId = RecordId(pageId: Option<HeapPageId>, tupleNumber: int)

  /** `equals(Object)`: null-safe page-id comparison and equal tuple numbers. */
  predicate RecordIdEquals(r: RecordId, other: Option<RecordId>)
    ensures RecordIdEquals(r, other) <==> other == Some(r)
  {
    && other.Some?
    && (if r.pageId.None? then other.value.pageId.None?
        else PageIdEquals(r.pageId.value, other.value.pageId))
    && r.tupleNumber == other.value.tupleNumber
  }

  lemma RecordIdEqualsIsValueEquality(r: RecordId, s: RecordId)
    ensures RecordIdEquals(r, Some(s)) <==> r == s
    ensures RecordIdEquals(r, Some(r))
    ensures !RecordIdEquals(r, None)
  {
  }

  /** `hashCode()`: 31 * (31 + hash(pageId) or 0) + tupleNumber, each step in
      32-bit arithmetic. */
  function RecordIdHash(r: RecordId): (h: int)
    ensures IsInt32(h)
    ensures var ph := if r.pageId.None? then 0 else PageIdHash(r.pageId.value);
            (h - (31 * (31 + ph) + r.tupleNumber)) % TWO_32 == 0
  {
    var ph := if r.pageId.None? then 0 else PageIdHash(r.pageId.value);
    var step := Wrap32(31 * 1 + ph);
    var h := Wrap32(31 * step + r.tupleNumber);
    CongruentScale(step, 31 + ph, 31);
    CongruentSum(h, 31 * step + r.tupleNumber, 31 * (31 + ph) + r.tupleNumber);
    h
  }

  lemma RecordIdHashConsistent(r: RecordId, s: RecordId)
    requires RecordIdEquals(r, Some(s))
    ensures RecordIdHash(r) == RecordIdHash(s)
  {
  }
}
