/** A heap page (`simpledb.HeapPage`): a slot bitmap and an array of tuple
    slots over one page of bytes, with its dirty mark and the before-image
    kept for aborts. `Page` is the value of a page and the functions below
    specify each operation on it; the class `HeapPage` is the object with
    its arrays, whose methods are proved against those functions. */
module HeapPage {
  import opened Common
  import opened Ids
  import opened Types
  import opened TupleDesc
  import opened HeaderBits
  import opened PageLayout

  datatype Page = Page(
    pid: HeapPageId,
    desc: TupleDesc,
    header: seq<Byte>,
    slots: seq<Option<Tuple>>,
    dirty: bool,
    dirtier: Option<Tid>,
    oldData: seq<Byte>)

  /** The header holds one bit per slot and the slot count is the one the
      schema's size gives. */
  predicate Shaped(p: Page)
  {
    && |p.slots| == NumSlots(Size(p.desc))
    && |p.header| == HeaderSize(|p.slots|)
  }

  /** Tuple t, stored in slot i of page pid, has the page's schema and a
      record id naming that page and slot. */
  predicate StoredAt(pid: HeapPageId, desc: TupleDesc, i: nat, t: Tuple)
  {
    t.desc == desc && Conforms(desc, t.fields) && t.rid == Some(RecordId(Some(pid), i))
  }

  /** The page invariant: a slot holds a tuple exactly when its header bit
      is set, every stored tuple knows where it is stored, and the
      before-image is a whole page. */
  ghost predicate WellFormed(p: Page)
  {
    && Shaped(p)
    && |p.oldData| == PAGE_SIZE
    && (forall i :: 0 <= i < |p.slots| ==> (p.slots[i].Some? <==> SlotBit(p.header, i)))
    && (forall i :: 0 <= i < |p.slots| && p.slots[i].Some? ==> StoredAt(p.pid, p.desc, i, p.slots[i].value))
  }

  /** Every field stored on the page parses back from its own encoding. */
  ghost predicate FieldsRoundTrip(c: Codec, p: Page)
  {
    forall i, j :: 0 <= i < |p.slots| && p.slots[i].Some? && 0 <= j < |p.slots[i].value.fields| ==>
      RoundTrips(c, p.slots[i].value.fields[j])
  }

  // ---------------------------------------------------------------------
  // Bytes of a page

  /** `getPageData()`: the header bytes, each slot (zeros when unused), then
      zero padding to the page size. */
  function PageData(c: Codec, p: Page): seq<Byte>
    requires Shaped(p)
  {
    var size := Size(p.desc);
    LayoutFits(size);
    p.header + EncodeSlots(c, size, p.slots) + Zeros(PAGE_SIZE - (|p.header| + size * |p.slots|))
  }

  /** Slot i of page p occupies bytes [|header| + i * size, |header| +
      (i + 1) * size) of `data`. */
  ghost predicate SlotInData(c: Codec, p: Page, data: seq<Byte>, i: nat)
    requires i < |p.slots|
  {
    var size := Size(p.desc);
    var lo := |p.header| + i * size;
    lo + size <= |data| && data[lo .. lo + size] == EncodeSlot(c, size, p.slots[i])
  }

  /** Where each part of a well-formed page lands in its bytes. */
  lemma PageDataLayout(c: Codec, p: Page)
    requires WellFormed(p) && WellBehaved(c)
    ensures |PageData(c, p)| == PAGE_SIZE
    ensures PageData(c, p)[..|p.header|] == p.header
    ensures forall i :: 0 <= i < |p.slots| ==> SlotInData(c, p, PageData(c, p), i)
  {
    var size := Size(p.desc);
    LayoutFits(size);
    SlotLengths(c, p);
    EncodeSlotsLayout(c, size, p.slots);
    var body := EncodeSlots(c, size, p.slots);
    var pad := Zeros(PAGE_SIZE - (|p.header| + size * |p.slots|));
    assert PageData(c, p) == p.header + body + pad;
    forall i | 0 <= i < |p.slots|
      ensures SlotInData(c, p, PageData(c, p), i)
    {
      assert SlotAt(c, size, p.slots, i);
      SlotOfPageData(c, p, body, pad, i);
    }
  }

  lemma SlotLengths(c: Codec, p: Page)
    requires WellFormed(p) && WellBehaved(c)
    ensures forall i :: 0 <= i < |p.slots| ==> |EncodeSlot(c, Size(p.desc), p.slots[i])| == Size(p.desc)
  {
    forall i | 0 <= i < |p.slots|
      ensures |EncodeSlot(c, Size(p.desc), p.slots[i])| == Size(p.desc)
    {
      if p.slots[i].Some? {
        EncodeRowLength(c, p.desc.items, p.slots[i].value.fields);
      }
    }
  }

  /** A slot's bytes at offset i * size of the slot area lie at offset
      |header| + i * size of the page. */
  lemma SlotOfPageData(c: Codec, p: Page, body: seq<Byte>, pad: seq<Byte>, i: nat)
    requires i < |p.slots|
    requires i * Size(p.desc) + Size(p.desc) <= |body|
    requires body[i * Size(p.desc) .. i * Size(p.desc) + Size(p.desc)] == EncodeSlot(c, Size(p.desc), p.slots[i])
    ensures SlotInData(c, p, p.header + body + pad, i)
  {
    var size := Size(p.desc);
    var lo := i * size;
    SliceOfConcatMiddle(p.header, body, pad, lo, lo + size);
  }

  /** The slot i of a page parsed from `data`: used when its header bit is
      set, in which case its fields are parsed from the slot's bytes and its
      record id names this page and slot. */
  function ParseSlot(c: Codec, pid: HeapPageId, desc: TupleDesc, data: seq<Byte>, i: nat): (slot: Option<Tuple>)
    requires |data| == PAGE_SIZE && i < NumSlots(Size(desc))
  {
    var size := Size(desc);
    var h := HeaderSize(NumSlots(size));
    var lo := SlotOffset(size, i);
    if SlotBit(data[..h], i) then
      Some(Tuple(desc, DecodeRow(c, desc.items, data[lo .. lo + size]), Some(RecordId(Some(pid), i))))
    else None
  }

  /** The header and slots read from a page of bytes, before the
      before-image is taken. */
  function ParseContent(c: Codec, pid: HeapPageId, desc: TupleDesc, data: seq<Byte>): (p: Page)
    requires |data| == PAGE_SIZE
    ensures Shaped(p)
  {
    var n := NumSlots(Size(desc));
    LayoutFits(Size(desc));
    Page(pid, desc, data[..HeaderSize(n)],
         seq(n, i requires 0 <= i < n => ParseSlot(c, pid, desc, data, i)),
         false, None, [])
  }

  /** The constructor `HeapPage(id, data)`: header and slots read from the
      bytes, clean, with the before-image set to the page's own bytes. */
  function Parse(c: Codec, pid: HeapPageId, desc: TupleDesc, data: seq<Byte>): (p: Page)
    requires |data| == PAGE_SIZE
    ensures Shaped(p) && p.pid == pid && p.desc == desc && !p.dirty && p.dirtier.None?
    ensures p.header == data[..HeaderSize(NumSlots(Size(desc)))]
  {
    var q := ParseContent(c, pid, desc, data);
    q.(oldData := PageData(c, q))
  }

  /** A parsed page satisfies the page invariant. */
  lemma ParseWellFormed(c: Codec, pid: HeapPageId, desc: TupleDesc, data: seq<Byte>)
    requires |data| == PAGE_SIZE && WellBehaved(c)
    ensures WellFormed(Parse(c, pid, desc, data))
  {
    var q := ParseContent(c, pid, desc, data);
    var size := Size(desc);
    forall i | 0 <= i < |q.slots| && q.slots[i].Some?
      ensures StoredAt(pid, desc, i, q.slots[i].value)
    {
      var h := HeaderSize(NumSlots(size));
      SlotInPage(size, i);
      DecodeRowConforms(c, desc.items, data[h + i * size .. h + i * size + size]);
    }
    assert WellFormed(q.(oldData := Zeros(PAGE_SIZE)));
    PageDataLayout(c, q.(oldData := Zeros(PAGE_SIZE)));
  }

  /** Writing a page out and reading it back gives the same page, clean, with
      its bytes as before-image, when the stored fields round-trip through
      the codec. */
  lemma ParsePageData(c: Codec, p: Page)
    requires WellFormed(p) && WellBehaved(c) && FieldsRoundTrip(c, p)
    ensures |PageData(c, p)| == PAGE_SIZE
    ensures Parse(c, p.pid, p.desc, PageData(c, p)) == p.(dirty := false, dirtier := None, oldData := PageData(c, p))
  {
    PageDataLayout(c, p);
    var data := PageData(c, p);
    var q := ParseContent(c, p.pid, p.desc, data);
    assert q.header == p.header;
    forall i | 0 <= i < |p.slots|
      ensures q.slots[i] == p.slots[i]
    {
      ParsedSlotIsStored(c, p, data, i);
    }
    assert q.slots == p.slots;
    assert q == p.(dirty := false, dirtier := None, oldData := []);
  }

  lemma ParsedSlotIsStored(c: Codec, p: Page, data: seq<Byte>, i: nat)
    requires WellFormed(p) && WellBehaved(c) && FieldsRoundTrip(c, p)
    requires |data| == PAGE_SIZE && data[..|p.header|] == p.header
    requires i < |p.slots| && SlotInData(c, p, data, i)
    ensures ParseSlot(c, p.pid, p.desc, data, i) == p.slots[i]
  {
    var size := Size(p.desc);
    var lo := SlotOffset(size, i);
    assert lo == |p.header| + i * size;
    assert data[..HeaderSize(NumSlots(size))] == p.header;
    if p.slots[i].Some? {
      UsedSlotDecodes(c, p, data, i);
      assert StoredAt(p.pid, p.desc, i, p.slots[i].value);
    }
  }

  /** A used slot's bytes decode to the tuple stored there. */
  lemma UsedSlotDecodes(c: Codec, p: Page, data: seq<Byte>, i: nat)
    requires WellFormed(p) && WellBehaved(c) && FieldsRoundTrip(c, p)
    requires i < |p.slots| && SlotInData(c, p, data, i) && p.slots[i].Some?
    ensures var lo := |p.header| + i * Size(p.desc);
            && lo + Size(p.desc) <= |data|
            && DecodeRow(c, p.desc.items, data[lo .. lo + Size(p.desc)]) == p.slots[i].value.fields
  {
    var t := p.slots[i].value;
    assert forall j :: 0 <= j < |t.fields| ==> RoundTrips(c, t.fields[j]);
    DecodeEncodeRow(c, p.desc.items, t.fields);
    SlotBytes(c, p, data, i);
  }

  lemma SlotBytes(c: Codec, p: Page, data: seq<Byte>, i: nat)
    requires i < |p.slots| && SlotInData(c, p, data, i) && p.slots[i].Some?
    ensures var lo := |p.header| + i * Size(p.desc);
            lo + Size(p.desc) <= |data| && data[lo .. lo + Size(p.desc)] == EncodeRow(c, p.slots[i].value.fields)
  {
  }

  /** `createEmptyPageData()`: a page of zero bytes. */
  function EmptyPageData(): (data: seq<Byte>)
    ensures |data| == PAGE_SIZE
  {
    Zeros(PAGE_SIZE)
  }

  /** An empty page holds no tuple: every slot is free. */
  lemma EmptyPageHasNoTuples(c: Codec, pid: HeapPageId, desc: TupleDesc)
    ensures var p := Parse(c, pid, desc, EmptyPageData());
            (forall i :: 0 <= i < |p.slots| ==> p.slots[i].None?) && FreeSlotCount(p) == |p.slots|
  {
    var p := Parse(c, pid, desc, EmptyPageData());
    forall i | 0 <= i < 8 * |p.header|
      ensures !SlotBit(p.header, i)
    {
      assert p.header[i / 8] == 0;
    }
    CountSlotsComplement(p.header, 0, |p.slots|);
    CountSlotsZero(p.header, 0, |p.slots|, true);
  }

  // ---------------------------------------------------------------------
  // Slot accounting

  /** Free slots among the page's slots. */
  function FreeSlotCount(p: Page): (n: nat)
    requires Shaped(p)
    ensures n <= |p.slots|
    ensures n == 0 <==> forall i :: 0 <= i < |p.slots| ==> SlotBit(p.header, i)
  {
    CountSlotsComplement(p.header, 0, |p.slots|);
    CountSlotsZero(p.header, 0, |p.slots|, false);
    CountSlots(p.header, 0, |p.slots|, false)
  }

  /** `getNumEmptySlots()` as written: eight per header byte less the bits
      that are set, so the padding bits past the last slot count as empty. */
  function NumEmptySlots(header: seq<Byte>): (n: int)
    ensures n == CountSlots(header, 0, 8 * |header|, false)
  {
    SetBitsCountsUsed(header);
    CountSlotsComplement(header, 0, 8 * |header|);
    8 * |header| - SetBits(header)
  }

  /** The source's count is the free slots plus the clear padding bits. */
  lemma NumEmptySlotsSplit(p: Page)
    requires Shaped(p)
    ensures NumEmptySlots(p.header) == FreeSlotCount(p) + CountSlots(p.header, |p.slots|, 8 * |p.header|, false)
  {
    SetBitsCountsUsed(p.header);
    CountSlotsComplement(p.header, 0, 8 * |p.header|);
    CountSlotsSplit(p.header, 0, |p.slots|, 8 * |p.header|, false);
  }

  /** No padding bit is set (true of pages built from empty pages, since only
      slot bits are ever changed). */
  predicate PaddingClear(p: Page)
    requires Shaped(p)
  {
    forall i :: |p.slots| <= i < 8 * |p.header| ==> !SlotBit(p.header, i)
  }

  /** As written: a page whose slots are all in use still reports the
      padding bits as empty slots. */
  lemma FullPageReportsEmptySlots(p: Page)
    requires Shaped(p) && PaddingClear(p) && FreeSlotCount(p) == 0
    ensures NumEmptySlots(p.header) == 8 * |p.header| - |p.slots|
  {
    NumEmptySlotsSplit(p);
    CountSlotsZero(p.header, |p.slots|, 8 * |p.header|, true);
    CountSlotsComplement(p.header, |p.slots|, 8 * |p.header|);
  }

  /** For a schema of three int fields (12 bytes) a page has 337 slots and a
      43-byte header: seven padding bits. */
  lemma ThreeIntSchemaPadding()
    ensures NumSlots(12) == 337 && HeaderSize(337) == 43 && 8 * 43 - 337 == 7
  {
  }

  /** Insertion succeeds exactly when the schema matches and a slot is free:
      the count of free slots, not the source's count of clear header bits,
      is what decides it. */
  lemma InsertSucceedsIffFreeSlot(p: Page, t: Tuple)
    requires Shaped(p)
    ensures Insert(p, t).Ok? <==> t.desc == p.desc && FreeSlotCount(p) > 0
  {
    EqualsIsValueEquality(t.desc, p.desc);
    CountSlotsZero(p.header, 0, |p.slots|, false);
  }

  /** The tuples a page's iterator yields: the used slots in slot order. */
  function UsedTuples(slots: seq<Option<Tuple>>): seq<Tuple>
  {
    if slots == [] then []
    else UsedTuples(slots[..|slots| - 1]) + (if slots[|slots| - 1].Some? then [slots[|slots| - 1].value] else [])
  }

  /** The iterator yields one tuple per used slot, each stored on this page. */
  lemma {:induction false} UsedTuplesCount(p: Page, m: nat)
    requires WellFormed(p) && m <= |p.slots|
    ensures |UsedTuples(p.slots[..m])| == m - CountSlots(p.header, 0, m, false)
    ensures forall t :: t in UsedTuples(p.slots[..m]) ==>
              t.desc == p.desc && t.rid.Some? && t.rid.value.pageId == Some(p.pid)
  {
    if m > 0 {
      UsedTuplesCount(p, m - 1);
      assert p.slots[..m][..m - 1] == p.slots[..m - 1];
    }
  }

  // ---------------------------------------------------------------------
  // Operations

  /** `insertTuple(t)`: refused when the schema differs or no slot is free;
      otherwise the tuple goes in the first free slot, with a record id
      naming this page and slot. */
  function Insert(p: Page, t: Tuple): (r: Result<(Page, Tuple)>)
    requires Shaped(p)
    ensures r.Err? ==> r.error.DbException?
    ensures r.Ok? ==>
      var (q, stored) := r.value;
      var k := NextIndexOfValue(p.header, 0, |p.slots|, false);
      && k < |p.slots| && !SlotBit(p.header, k)
      && (forall j :: 0 <= j < k ==> SlotBit(p.header, j))
      && stored == t.(rid := Some(RecordId(Some(p.pid), k)))
      && q.slots == p.slots[k := Some(stored)]
      && q.header == SetSlotBit(p.header, k, true)
      && q == p.(header := q.header, slots := q.slots)
      && Shaped(q)
      && FreeSlotCount(q) == FreeSlotCount(p) - 1
  {
    if !Equals(t.desc, Some(p.desc)) then
      Err(DbException("Cannot insert a Tuple with a different TupleDesc."))
    else
      var k := NextIndexOfValue(p.header, 0, |p.slots|, false);
      if k == |p.slots| then Err(DbException("No empty slots available for Tuple insertion."))
      else
        var stored := t.(rid := Some(RecordId(Some(p.pid), k)));
        CountSlotsAfterSet(p.header, 0, |p.slots|, k);
        Ok((p.(header := SetSlotBit(p.header, k, true), slots := p.slots[k := Some(stored)]), stored))
  }

  lemma InsertPreservesWellFormed(p: Page, t: Tuple)
    requires WellFormed(p) && Conforms(t.desc, t.fields) && Insert(p, t).Ok?
    ensures WellFormed(Insert(p, t).value.0)
  {
    EqualsIsValueEquality(t.desc, p.desc);
  }

  /** `deleteTuple(t)`: the page after the call and the outcome. The tuple
      must carry a record id naming this page and a used slot; the slot is
      then freed and the tuple loses its record id. A set padding bit is
      cleared before the slot array is indexed out of bounds; a small
      negative slot number reads the first header byte's top bit and, when
      that is set, fails on the slot array without changing the header. */
  function Delete(p: Page, t: Tuple): (r: (Page, Result<Tuple>))
    requires Shaped(p)
    ensures r.1.Ok? <==>
      && t.rid.Some? && t.rid.value.pageId == Some(p.pid)
      && 0 <= t.rid.value.tupleNumber < |p.slots| && SlotBit(p.header, t.rid.value.tupleNumber)
    ensures r.1.Ok? ==>
      var k := t.rid.value.tupleNumber;
      && r.1.value == t.(rid := None)
      && r.0 == p.(header := SetSlotBit(p.header, k, false), slots := p.slots[k := None])
    ensures (r.1.Err? && !(t.rid.Some? && t.rid.value.pageId == Some(p.pid) &&
                           |p.slots| <= t.rid.value.tupleNumber < 8 * |p.header|)) ==> r.0 == p
    ensures Shaped(r.0)
  {
    if t.rid.None? then (p, Err(DbException("Tuple can only be deleted from its page.")))
    else if t.rid.value.pageId.None? then (p, Err(NullPointer))
    else if !PageIdEquals(t.rid.value.pageId.value, Some(p.pid)) then
      (p, Err(DbException("Tuple can only be deleted from its page.")))
    else
      var k := t.rid.value.tupleNumber;
      match SlotUsedAt(p.header, k)
      case Err(e) => (p, Err(e))
      case Ok(false) => (p, Err(DbException("Tuple's slot is already empty.")))
      case Ok(true) =>
        if k < 0 then (p, Err(IndexOutOfBounds))
        else
          var header := SetSlotBit(p.header, k, false);
          if k >= |p.slots| then (p.(header := header), Err(IndexOutOfBounds))
          else (p.(header := header, slots := p.slots[k := None]), Ok(t.(rid := None)))
  }

  lemma DeletePreservesWellFormed(p: Page, t: Tuple)
    requires WellFormed(p)
    ensures WellFormed(Delete(p, t).0)
    ensures PaddingClear(p) ==> PaddingClear(Delete(p, t).0)
  {
  }

  /** Deleting the tuple just inserted restores the page's header and slots
      and frees the slot again. */
  lemma InsertThenDelete(p: Page, t: Tuple)
    requires WellFormed(p) && Insert(p, t).Ok?
    ensures var (q, stored) := Insert(p, t).value;
            var (q2, r) := Delete(q, stored);
            r == Ok(t.(rid := None)) && q2 == p && FreeSlotCount(q2) == FreeSlotCount(q) + 1
  {
    var (q, stored) := Insert(p, t).value;
    var k := stored.rid.value.tupleNumber;
    SetThenClear(p.header, k);
    assert p.slots[k] == None;
    assert p.slots[k := Some(stored)][k := None] == p.slots;
  }

  /** `markDirty(dirty, tid)`: a page marked clean forgets its dirtier. */
  function WithDirty(p: Page, dirty: bool, tid: Option<Tid>): (q: Page)
    ensures q.header == p.header && q.slots == p.slots && q.oldData == p.oldData
    ensures DirtiedBy(q) == (if dirty then tid else None)
  {
    p.(dirty := dirty, dirtier := if dirty then tid else None)
  }

  /** `isDirty()`: the transaction that dirtied the page, or none. */
  function DirtiedBy(p: Page): Option<Tid>
  {
    if p.dirty then p.dirtier else None
  }

  /** `setBeforeImage()`: remember the page's current bytes. */
  function WithBeforeImage(c: Codec, p: Page): (q: Page)
    requires Shaped(p)
    ensures q.header == p.header && q.slots == p.slots && DirtiedBy(q) == DirtiedBy(p)
  {
    p.(oldData := PageData(c, p))
  }

  /** `getBeforeImage()`: a page parsed from the remembered bytes. */
  function BeforeImage(c: Codec, p: Page): (q: Page)
    requires |p.oldData| == PAGE_SIZE
    ensures q.pid == p.pid && DirtiedBy(q).None?
  {
    Parse(c, p.pid, p.desc, p.oldData)
  }

  /** Taking a before-image keeps the page well formed. */
  lemma SetBeforeImageWellFormed(c: Codec, p: Page)
    requires WellFormed(p) && WellBehaved(c)
    ensures WellFormed(WithBeforeImage(c, p))
  {
    PageDataLayout(c, p);
  }

  /** Restoring the before-image right after it was taken gives back the
      page's tuples, clean. */
  lemma BeforeImageRestores(c: Codec, p: Page)
    requires WellFormed(p) && WellBehaved(c) && FieldsRoundTrip(c, p)
    ensures |PageData(c, p)| == PAGE_SIZE
    ensures var q := BeforeImage(c, WithBeforeImage(c, p));
            q.header == p.header && q.slots == p.slots && DirtiedBy(q).None?
  {
    PageDataLayout(c, p);
    ParsePageData(c, p);
  }

  /** The row of slot bytes read field by field, each field taking its
      type's width, as `readNextTuple` parses a used slot. */
  method ReadRow(c: Codec, items: seq<TDItem>, bytes: seq<Byte>) returns (row: seq<Field>)
    requires |bytes| == SizeOf(items)
    ensures row == DecodeRow(c, items, bytes)
  {
    row := [];
    var off := 0;
    for j := 0 to |items|
      invariant off == SizeOf(items[..j]) && off <= |bytes|
      invariant row == DecodeRow(c, items[..j], bytes[..off])
    {
      var next := off + TypeLen(items[j].fieldType);
      assert items[..j + 1][..j] == items[..j];
      SizeOfAppend(items[..j + 1], items[j + 1..]);
      assert items[..j + 1] + items[j + 1..] == items;
      assert bytes[..next][..off] == bytes[..off];
      assert bytes[..next][off..] == bytes[off..next];
      row := row + [c.dec(items[j].fieldType, bytes[off..next])];
      off := next;
    }
    assert items[..|items|] == items;
    assert bytes[..off] == bytes;
  }

  /** `readNextTuple(dis, i)`: slot i of the page bytes, given the header
      already read and the stream at the slot's first byte. */
  method ReadNextTuple(c: Codec, pid: HeapPageId, desc: TupleDesc, hdr: array<Byte>, data: seq<Byte>, pos: nat, i: nat)
    returns (slot: Option<Tuple>)
    requires |data| == PAGE_SIZE && i < NumSlots(Size(desc))
    requires hdr[..] == data[..HeaderSize(NumSlots(Size(desc)))]
    requires pos == HeaderSize(NumSlots(Size(desc))) + i * Size(desc)
    ensures slot == ParseSlot(c, pid, desc, data, i)
  {
    var size := Size(desc);
    SlotInPage(size, i);
    var used := hdr[i / 8] & Mask(i % 8) != 0;
    assert used == SlotBit(data[..HeaderSize(NumSlots(size))], i);
    if !used {
      return None;
    }
    var fields := ReadRow(c, desc.items, data[pos .. pos + size]);
    return Some(Tuple(desc, fields, Some(RecordId(Some(pid), i))));
  }

  /** Unused slots add nothing to the iterator's output. */
  /** The iterator's step: the next used slot from `lo` on holds a tuple,
      and the free slots it skips add nothing to the scan. */
  lemma NextUsedSlot(p: Page, lo: nat)
    requires WellFormed(p) && lo <= |p.slots|
    ensures |p.slots| <= 8 * |p.header|
    ensures var k := NextIndexOfValue(p.header, lo, |p.slots|, true);
            && lo <= k <= |p.slots| && (k < |p.slots| ==> p.slots[k].Some?)
            && UsedTuples(p.slots[..k]) == UsedTuples(p.slots[..lo])
  {
    var k := NextIndexOfValue(p.header, lo, |p.slots|, true);
    UsedTuplesSkip(p.slots, lo, k);
  }

  lemma {:induction false} UsedTuplesSkip(slots: seq<Option<Tuple>>, lo: nat, hi: nat)
    requires lo <= hi <= |slots|
    requires forall j :: lo <= j < hi ==> slots[j].None?
    ensures UsedTuples(slots[..hi]) == UsedTuples(slots[..lo])
    decreases hi - lo
  {
    if lo < hi {
      UsedTuplesSkip(slots, lo, hi - 1);
      assert slots[..hi][..hi - 1] == slots[..hi - 1];
    }
  }

  lemma MulSucc(i: nat, size: nat)
    ensures (i + 1) * size == i * size + size
  {
  }

  /** The header loop of the constructor: the first bytes of the page. */
  method ReadHeader(data: seq<Byte>, hsize: nat) returns (hdr: array<Byte>)
    requires hsize <= |data|
    ensures fresh(hdr) && hdr[..] == data[..hsize]
  {
    hdr := new Byte[hsize];
    for i := 0 to hsize
      invariant hdr[..i] == data[..i]
    {
      hdr[i] := data[i];
    }
    assert hdr[..hsize] == hdr[..];
  }

  /** The slot loop of the constructor: each slot read in turn. */
  method ReadSlots(c: Codec, pid: HeapPageId, desc: TupleDesc, hdr: array<Byte>, data: seq<Byte>)
    returns (ts: array<Option<Tuple>>)
    requires |data| == PAGE_SIZE
    requires hdr[..] == data[..HeaderSize(NumSlots(Size(desc)))]
    ensures fresh(ts) && ts[..] == ParseContent(c, pid, desc, data).slots
  {
    var size := Size(desc);
    var n := NumSlots(size);
    ts := new Option<Tuple>[n];
    var pos := HeaderSize(n);
    for i := 0 to n
      invariant pos == HeaderSize(n) + i * size
      invariant forall j :: 0 <= j < i ==> ts[j] == ParseSlot(c, pid, desc, data, j)
    {
      ts[i] := ReadNextTuple(c, pid, desc, hdr, data, pos, i);
      MulSucc(i, size);
      pos := pos + size;
    }
    assert ts[..] == ParseContent(c, pid, desc, data).slots;
  }

  /** The bytes `getPageData` writes for one slot: zeros when its header bit
      is clear, else each field serialised in turn. */
  method WriteSlot(c: Codec, desc: TupleDesc, used: bool, slot: Option<Tuple>) returns (bytes: seq<Byte>)
    requires used <==> slot.Some?
    requires slot.Some? ==> |slot.value.fields| == NumFields(desc)
    ensures bytes == EncodeSlot(c, Size(desc), slot)
  {
    bytes := [];
    if !used {
      for j := 0 to Size(desc)
        invariant bytes == Zeros(j)
      {
        bytes := bytes + [0];
      }
    } else {
      var fields := slot.value.fields;
      for j := 0 to NumFields(desc)
        invariant bytes == EncodeRow(c, fields[..j])
      {
        assert fields[..j + 1][..j] == fields[..j];
        bytes := bytes + c.enc(fields[j]);
      }
      assert fields[..NumFields(desc)] == fields;
    }
  }

  /** A heap page object: the header bytes and the tuple slots in arrays,
      the dirty mark and the before-image. */
  class HeapPage {
    const pid: HeapPageId
    const desc: TupleDesc
    const codec: Codec
    const numSlots: nat
    const header: array<Byte>
    const tuples: array<Option<Tuple>>
    var oldData: seq<Byte>
    var dirty: bool
    var dirtier: Option<Tid>

    /** The page value the object holds. */
    ghost function View(): Page
      reads this, header, tuples
    {
      Page(pid, desc, header[..], tuples[..], dirty, dirtier, oldData)
    }

    ghost predicate Valid()
      reads this, header, tuples
    {
      && header as object != tuples as object
      && WellBehaved(codec)
      && numSlots == tuples.Length
      && WellFormed(View())
    }

    /** `HeapPage(id, data)`: the header and the slots read from the bytes
        (the schema is the catalog's for the page's table), clean, with its
        bytes re-serialised as before-image. */
    constructor (pid: HeapPageId, desc: TupleDesc, codec: Codec, data: seq<Byte>)
      requires |data| == PAGE_SIZE && WellBehaved(codec)
      ensures Valid() && View() == Parse(codec, pid, desc, data)
      ensures fresh(header) && fresh(tuples)
    {
      var n := NumSlots(Size(desc));
      LayoutFits(Size(desc));
      var hdr := ReadHeader(data, HeaderSize(n));
      var ts := ReadSlots(codec, pid, desc, hdr, data);
      this.pid := pid;
      this.desc := desc;
      this.codec := codec;
      this.numSlots := n;
      header := hdr;
      tuples := ts;
      dirty := false;
      dirtier := None;
      new;
      ParseWellFormed(codec, pid, desc, data);
      assert View().(oldData := []) == ParseContent(codec, pid, desc, data);
      oldData := GetPageData();
    }

    /** `getPageData()`: the header bytes, each slot's bytes, then the
        padding. */
    method GetPageData() returns (data: seq<Byte>)
      requires Shaped(View()) && WellBehaved(codec)
      requires forall i :: 0 <= i < tuples.Length ==>
                 (tuples[i].Some? <==> SlotBit(header[..], i)) &&
                 (tuples[i].Some? ==> Conforms(desc, tuples[i].value.fields))
      ensures data == PageData(codec, View())
    {
      var size := Size(desc);
      var n := NumSlots(size);
      var head := WriteHeader();
      var body := WriteSlots();
      assert header.Length == HeaderSize(n) && tuples.Length == n;
      LayoutFits(size);
      assert size * n == n * size;
      data := head + body + Zeros(PAGE_SIZE - (header.Length + size * tuples.Length));
    }

    /** The header loop of `getPageData`. */
    method WriteHeader() returns (data: seq<Byte>)
      ensures data == header[..]
    {
      data := [];
      for i := 0 to header.Length
        invariant data == header[..i]
      {
        data := data + [header[i]];
      }
      assert header[..header.Length] == header[..];
    }

    /** The slot loop of `getPageData`. */
    method WriteSlots() returns (data: seq<Byte>)
      requires forall i :: 0 <= i < tuples.Length ==>
                 (tuples[i].Some? <==> i < 8 * header.Length && SlotBit(header[..], i)) &&
                 (tuples[i].Some? ==> Conforms(desc, tuples[i].value.fields))
      requires tuples.Length <= 8 * header.Length
      ensures data == EncodeSlots(codec, Size(desc), tuples[..])
    {
      data := [];
      for i := 0 to tuples.Length
        invariant data == EncodeSlots(codec, Size(desc), tuples[..i])
      {
        assert tuples[..i + 1][..i] == tuples[..i];
        var used := UsedBit(i);
        var bytes := WriteSlot(codec, desc, used, tuples[i]);
        data := data + bytes;
      }
      assert tuples[..tuples.Length] == tuples[..];
    }

    /** The header bit of slot i, read in place. */
    method UsedBit(i: nat) returns (used: bool)
      requires i < 8 * header.Length
      ensures used == SlotBit(header[..], i)
    {
      used := header[i / 8] & Mask(i % 8) != 0;
    }

    /** `isSlotUsed(i)` for any int index. */
    method IsSlotUsed(i: int) returns (r: Result<bool>)
      ensures r == SlotUsedAt(header[..], i)
    {
      if 0 <= i < 8 * header.Length {
        return Ok(header[i / 8] & Mask(i % 8) != 0);
      } else if -8 < i < 0 && header.Length > 0 {
        return Ok(header[0] & 0x80 != 0);
      }
      return Err(IndexOutOfBounds);
    }

    /** `setSlot(i, value)` on a slot of the header. */
    method SetSlot(i: nat, value: bool)
      requires i < 8 * header.Length
      modifies header
      ensures header[..] == SetSlotBit(old(header[..]), i, value)
    {
      if value != (header[i / 8] & Mask(i % 8) != 0) {
        header[i / 8] := header[i / 8] ^ Mask(i % 8);
      }
    }

    /** `getNextTupleIndexOfValue(start, max, value)`. */
    method GetNextTupleIndexOfValue(start: nat, max: nat, value: bool) returns (k: nat)
      requires max <= 8 * header.Length
      ensures k == NextIndexOfValue(header[..], start, max, value)
    {
      k := start;
      while k < max && (header[k / 8] & Mask(k % 8) != 0) != value
        invariant start <= k && (start <= max ==> k <= max)
        invariant NextIndexOfValue(header[..], k, max, value) == NextIndexOfValue(header[..], start, max, value)
        decreases max - k
      {
        k := k + 1;
      }
    }

    /** `getNumEmptySlots()`: per header byte, eight less its set bits,
        counted the source's way: the sign bit first, then the low seven
        bits shifted out one at a time. */
    method GetNumEmptySlots() returns (count: int)
      ensures count == NumEmptySlots(header[..])
    {
      count := 0;
      for i := 0 to header.Length
        invariant count == 8 * i - SetBits(header[..i])
      {
        assert header[..i + 1][..i] == header[..i];
        var present := CountPresent(header[i]);
        count := count + (8 - present);
      }
      assert header[..header.Length] == header[..];
    }

    /** The set bits of one header byte, counted as `getNumEmptySlots`
        does: the sign bit first, then the low seven bits shifted out one
        at a time. */
    static method CountPresent(header: Byte) returns (present: int)
      ensures present == PopCount(header)
    {
      var b := header;
      present := 0;
      if b & 0x80 != 0 {
        present := 1;
      }
      PopCountHighBit(b);
      b := b & 0x7F;
      while b != 0
        invariant present + PopCount(b) == PopCount(header)
        decreases b as int
      {
        PopCountShift(b);
        if b & 1 == 1 {
          present := present + 1;
        }
        b := b >> 1;
      }
    }

    /** `insertTuple(t)`: into the first free slot, or refused. */
    method InsertTuple(t: Tuple) returns (r: Result<Tuple>)
      requires Valid() && Conforms(t.desc, t.fields)
      modifies this, header, tuples
      ensures Valid()
      ensures Insert(old(View()), t).Ok? ==>
                r == Ok(Insert(old(View()), t).value.1) && View() == Insert(old(View()), t).value.0
      ensures Insert(old(View()), t).Err? ==> r == Err(Insert(old(View()), t).error) && View() == old(View())
    {
      ghost var p := View();
      if !Equals(t.desc, Some(desc)) {
        return Err(DbException("Cannot insert a Tuple with a different TupleDesc."));
      }
      var k := GetNextTupleIndexOfValue(0, numSlots, false);
      if k == numSlots {
        return Err(DbException("No empty slots available for Tuple insertion."));
      }
      var stored := t.(rid := Some(RecordId(Some(pid), k)));
      assert Insert(p, t) == Ok((p.(header := SetSlotBit(p.header, k, true), slots := p.slots[k := Some(stored)]), stored));
      SetSlot(k, true);
      assert header[..] == SetSlotBit(p.header, k, true);
      tuples[k] := Some(stored);
      assert header[..] == SetSlotBit(p.header, k, true);
      assert tuples[..] == p.slots[k := Some(stored)];
      assert View() == Insert(p, t).value.0;
      InsertPreservesWellFormed(p, t);
      return Ok(stored);
    }

    /** `deleteTuple(t)`: free the tuple's slot, or fail. */
    method DeleteTuple(t: Tuple) returns (r: Result<Tuple>)
      requires Valid()
      modifies header, tuples
      ensures Valid()
      ensures View() == Delete(old(View()), t).0 && r == Delete(old(View()), t).1
    {
      ghost var p := View();
      if t.rid.None? {
        return Err(DbException("Tuple can only be deleted from its page."));
      }
      if t.rid.value.pageId.None? {
        return Err(NullPointer);
      }
      if !PageIdEquals(t.rid.value.pageId.value, Some(pid)) {
        return Err(DbException("Tuple can only be deleted from its page."));
      }
      var k := t.rid.value.tupleNumber;
      var used := IsSlotUsed(k);
      if used.Err? {
        return Err(used.error);
      }
      if !used.value {
        return Err(DbException("Tuple's slot is already empty."));
      }
      if k < 0 {
        return Err(IndexOutOfBounds);
      }
      SetSlot(k, false);
      assert header[..] == SetSlotBit(p.header, k, false);
      if k >= tuples.Length {
        DeletePreservesWellFormed(p, t);
        return Err(IndexOutOfBounds);
      }
      tuples[k] := None;
      assert tuples[..] == p.slots[k := None];
      DeletePreservesWellFormed(p, t);
      return Ok(t.(rid := None));
    }

    /** `markDirty(dirty, tid)`. */
    method MarkDirty(isDirty: bool, tid: Option<Tid>)
      modifies this
      ensures View() == WithDirty(old(View()), isDirty, tid)
    {
      dirty := isDirty;
      dirtier := if isDirty then tid else None;
    }

    /** `isDirty()`. */
    method IsDirty() returns (tid: Option<Tid>)
      ensures tid == DirtiedBy(View())
    {
      tid := if dirty then dirtier else None;
    }

    /** `setBeforeImage()`. */
    method SetBeforeImage()
      requires Valid()
      modifies this
      ensures Valid() && View() == WithBeforeImage(codec, old(View()))
    {
      oldData := GetPageData();
      SetBeforeImageWellFormed(codec, old(View()));
    }

    /** `getBeforeImage()`: a new page parsed from the before-image. */
    method GetBeforeImage() returns (before: HeapPage)
      requires Valid()
      ensures fresh(before) && before.Valid() && before.View() == BeforeImage(codec, View())
    {
      before := new HeapPage(pid, desc, codec, oldData);
    }

    /** The page's tuple iterator run to the end: from the first used slot,
        each next used slot in turn. */
    method IterateTuples() returns (ts: seq<Tuple>)
      requires Valid()
      ensures ts == UsedTuples(tuples[..])
    {
      ghost var slots := tuples[..];
      ts := [];
      var max := tuples.Length;
      var current := GetNextTupleIndexOfValue(0, max, true);
      NextUsedSlot(View(), 0);
      while current < max
        invariant current <= max
        invariant ts == UsedTuples(slots[..current])
        invariant current < max ==> slots[current].Some?
        decreases max - current
      {
        assert slots[..current + 1][..current] == slots[..current];
        ts := ts + [tuples[current].value];
        var next := GetNextTupleIndexOfValue(current + 1, max, true);
        NextUsedSlot(View(), current + 1);
        current := next;
      }
      assert slots[..max] == slots;
    }
  }
}
