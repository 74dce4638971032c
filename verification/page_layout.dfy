/** The byte layout of a heap page: a slot bitmap, then one fixed-size slot
    per tuple, then zero padding up to the page size. */
module PageLayout {
  import opened Common
  import opened Types
  import opened TupleDesc

  /** `BufferPool.getPageSize()` with its default of 4096 bytes. */
  const PAGE_SIZE: nat := 4096

  /** `getNumTuples`: floor(PAGE_SIZE * 8 / (tupleSize * 8 + 1)). Each tuple
      costs its bytes plus one header bit. The source divides in double
      precision; the quotient is at most 32768 and never within 2^-40 of an
      integer it does not equal, so the floor is the integer quotient. */
  function NumSlots(tupleSize: nat): nat
  {
    (PAGE_SIZE * 8) / (tupleSize * 8 + 1)
  }

  /** The slot count's tuples and header bits fit in a page; one more slot
      would not. */
  lemma NumSlotsFits(tupleSize: nat)
    ensures NumSlots(tupleSize) * (tupleSize * 8 + 1) <= PAGE_SIZE * 8 < (NumSlots(tupleSize) + 1) * (tupleSize * 8 + 1)
  {
  }

  /** `getHeaderSize`: ceil(slots / 8) bytes, one bit per slot. */
  function HeaderSize(slots: nat): (h: nat)
    ensures 8 * h >= slots && 8 * h < slots + 8
  {
    (slots + 7) / 8
  }

  lemma MulMono(a: nat, b: nat, s: nat)
    requires a <= b
    ensures a * s <= b * s
  {
  }

  lemma MulSucc(k: nat, s: nat)
    ensures (k + 1) * s == k * s + s
  {
  }

  /** Slot i of m ends within the first m slots' bytes. */
  lemma SlotEndsWithin(i: nat, m: nat, s: nat)
    requires i < m
    ensures i * s + s <= m * s
  {
    MulSucc(i, s);
    MulMono(i + 1, m, s);
  }

  /** NumSlots is the largest slot count whose tuples and header bits fit in
      a page. */
  lemma NumSlotsIsLargest(tupleSize: nat, n: nat)
    requires n * (tupleSize * 8 + 1) <= PAGE_SIZE * 8
    ensures n <= NumSlots(tupleSize)
  {
    var m := NumSlots(tupleSize);
    NumSlotsFits(tupleSize);
    if n > m {
      MulMono(m + 1, n, tupleSize * 8 + 1);
    }
  }

  /** The header and all slots fit in one page, so the padding the page
      writes after them is never negative. */
  lemma {:induction false} LayoutFits(tupleSize: nat)
    ensures HeaderSize(NumSlots(tupleSize)) + NumSlots(tupleSize) * tupleSize <= PAGE_SIZE
  {
    var n := NumSlots(tupleSize);
    var h := HeaderSize(n);
    var x := n * tupleSize;
    NumSlotsFits(tupleSize);
    assert n * (tupleSize * 8 + 1) == 8 * x + n;
    assert 8 * (h + x) < PAGE_SIZE * 8 + 8;
  }

  /** Slot i, for i below the slot count, ends inside the page. */
  lemma SlotInPage(tupleSize: nat, i: nat)
    requires i < NumSlots(tupleSize)
    ensures HeaderSize(NumSlots(tupleSize)) + i * tupleSize + tupleSize <= PAGE_SIZE
  {
    LayoutFits(tupleSize);
    MulMono(i + 1, NumSlots(tupleSize), tupleSize);
  }

  /** Where slot i starts in a page: after the header, i slots in. */
  function SlotOffset(tupleSize: nat, i: nat): (lo: nat)
    requires i < NumSlots(tupleSize)
    ensures lo == HeaderSize(NumSlots(tupleSize)) + i * tupleSize
    ensures lo + tupleSize <= PAGE_SIZE
  {
    SlotInPage(tupleSize, i);
    HeaderSize(NumSlots(tupleSize)) + i * tupleSize
  }

  /** `Field.serialize` of each field in turn. */
  function EncodeRow(c: Codec, fields: seq<Field>): seq<Byte>
  {
    if fields == [] then [] else EncodeRow(c, fields[..|fields| - 1]) + c.enc(fields[|fields| - 1])
  }

  /** `Type.parse` of each field in turn, each reading its type's width. */
  function DecodeRow(c: Codec, items: seq<TDItem>, bytes: seq<Byte>): (row: seq<Field>)
    requires |bytes| == SizeOf(items)
    ensures |row| == |items|
  {
    if items == [] then []
    else
      var prefix := items[..|items| - 1];
      DecodeRow(c, prefix, bytes[..SizeOf(prefix)]) + [c.dec(items[|items| - 1].fieldType, bytes[SizeOf(prefix)..])]
  }

  /** A decoded row has the schema's types when the codec is well behaved. */
  lemma {:induction false} DecodeRowConforms(c: Codec, items: seq<TDItem>, bytes: seq<Byte>)
    requires WellBehaved(c) && |bytes| == SizeOf(items)
    ensures Conforms(TupleDesc(items), DecodeRow(c, items, bytes))
  {
    if items != [] {
      var prefix := items[..|items| - 1];
      DecodeRowConforms(c, prefix, bytes[..SizeOf(prefix)]);
    }
  }

  /** A conforming row encodes in exactly the schema's size. */
  lemma {:induction false} EncodeRowLength(c: Codec, items: seq<TDItem>, row: seq<Field>)
    requires WellBehaved(c) && Conforms(TupleDesc(items), row)
    ensures |EncodeRow(c, row)| == SizeOf(items)
  {
    if row != [] {
      var n := |row|;
      EncodeRowLength(c, items[..n - 1], row[..n - 1]);
    }
  }

  /** Decoding the encoding of a conforming row whose fields round-trip
      gives the row back. */
  lemma {:induction false} DecodeEncodeRow(c: Codec, items: seq<TDItem>, row: seq<Field>)
    requires WellBehaved(c) && Conforms(TupleDesc(items), row)
    requires forall i :: 0 <= i < |row| ==> RoundTrips(c, row[i])
    ensures |EncodeRow(c, row)| == SizeOf(items) && DecodeRow(c, items, EncodeRow(c, row)) == row
  {
    EncodeRowLength(c, items, row);
    if row != [] {
      var n := |row|;
      var prefix := items[..n - 1];
      var front := row[..n - 1];
      var last := row[n - 1];
      var head := EncodeRow(c, front);
      var tail := c.enc(last);
      var bytes := EncodeRow(c, row);
      assert bytes == head + tail;
      assert Conforms(TupleDesc(prefix), front);
      EncodeRowLength(c, prefix, front);
      DecodeEncodeRow(c, prefix, front);
      assert bytes[..SizeOf(prefix)] == head;
      assert bytes[SizeOf(prefix)..] == tail;
      assert RoundTrips(c, last) && TypeOf(last) == items[n - 1].fieldType;
      assert DecodeRow(c, items, bytes) == DecodeRow(c, prefix, head) + [c.dec(items[n - 1].fieldType, tail)];
      assert row == front + [last];
    }
  }

  /** One slot on disk: zeros when unused, else the tuple's fields. */
  function EncodeSlot(c: Codec, tupleSize: nat, slot: Option<Tuple>): seq<Byte>
  {
    if slot.None? then Zeros(tupleSize) else EncodeRow(c, slot.value.fields)
  }

  /** All slots in order. */
  function EncodeSlots(c: Codec, tupleSize: nat, slots: seq<Option<Tuple>>): seq<Byte>
  {
    if slots == [] then [] else EncodeSlots(c, tupleSize, slots[..|slots| - 1]) + EncodeSlot(c, tupleSize, slots[|slots| - 1])
  }

  /** Slots that each encode in tupleSize bytes lie end to end: slot i
      occupies bytes [i * tupleSize, (i + 1) * tupleSize). */
  lemma {:induction false} EncodeSlotsLayout(c: Codec, tupleSize: nat, slots: seq<Option<Tuple>>)
    requires forall i :: 0 <= i < |slots| ==> |EncodeSlot(c, tupleSize, slots[i])| == tupleSize
    ensures |EncodeSlots(c, tupleSize, slots)| == |slots| * tupleSize
    ensures forall i :: 0 <= i < |slots| ==> SlotAt(c, tupleSize, slots, i)
  {
    if slots != [] {
      var n := |slots|;
      var prefix := slots[..n - 1];
      EncodeSlotsLayout(c, tupleSize, prefix);
      MulSucc(n - 1, tupleSize);
      assert |EncodeSlots(c, tupleSize, slots)| == (n - 1) * tupleSize + tupleSize;
      forall i | 0 <= i < n
        ensures SlotAt(c, tupleSize, slots, i)
      {
        LayoutStep(c, tupleSize, slots, prefix, i);
      }
    }
  }

  /** Slot i of `slots` sits at bytes [i * tupleSize, (i + 1) * tupleSize)
      of the encoding. */
  ghost predicate SlotAt(c: Codec, tupleSize: nat, slots: seq<Option<Tuple>>, i: nat)
    requires i < |slots|
  {
    BytesAt(EncodeSlots(c, tupleSize, slots), i * tupleSize, EncodeSlot(c, tupleSize, slots[i]))
  }

  /** `data` holds `x` from offset `lo` on. */
  ghost predicate BytesAt(data: seq<Byte>, lo: nat, x: seq<Byte>)
  {
    lo + |x| <= |data| && data[lo .. lo + |x|] == x
  }

  /** Bytes appended after the end leave earlier bytes where they were. */
  lemma BytesAtConcat(a: seq<Byte>, b: seq<Byte>, lo: nat, x: seq<Byte>)
    requires BytesAt(a, lo, x)
    ensures BytesAt(a + b, lo, x)
  {
    SliceOfConcat(a, b, lo, lo + |x|);
  }

  lemma LayoutStep(c: Codec, tupleSize: nat, slots: seq<Option<Tuple>>, prefix: seq<Option<Tuple>>, i: nat)
    requires 0 <= i < |slots| && prefix == slots[..|slots| - 1]
    requires |EncodeSlot(c, tupleSize, slots[|slots| - 1])| == tupleSize
    requires |EncodeSlots(c, tupleSize, prefix)| == |prefix| * tupleSize
    requires forall j :: 0 <= j < |prefix| ==> SlotAt(c, tupleSize, prefix, j)
    ensures SlotAt(c, tupleSize, slots, i)
  {
    if i < |slots| - 1 {
      assert SlotAt(c, tupleSize, prefix, i);
      LayoutStepEarlier(c, tupleSize, slots, prefix, i);
    } else {
      LayoutStepLast(c, tupleSize, slots, prefix);
    }
  }

  /** A slot of the prefix keeps its bytes when one more slot is encoded. */
  lemma LayoutStepEarlier(c: Codec, tupleSize: nat, slots: seq<Option<Tuple>>, prefix: seq<Option<Tuple>>, i: nat)
    requires 0 <= i < |slots| - 1 && prefix == slots[..|slots| - 1]
    requires |EncodeSlots(c, tupleSize, prefix)| == |prefix| * tupleSize
    requires SlotAt(c, tupleSize, prefix, i)
    ensures SlotAt(c, tupleSize, slots, i)
  {
    var n := |slots|;
    var a := EncodeSlots(c, tupleSize, prefix);
    var b := EncodeSlot(c, tupleSize, slots[n - 1]);
    assert prefix[i] == slots[i];
    BytesAtConcat(a, b, i * tupleSize, EncodeSlot(c, tupleSize, slots[i]));
    assert EncodeSlots(c, tupleSize, slots) == a + b;
  }

  /** The last slot's bytes follow the prefix's. */
  lemma LayoutStepLast(c: Codec, tupleSize: nat, slots: seq<Option<Tuple>>, prefix: seq<Option<Tuple>>)
    requires 0 < |slots| && prefix == slots[..|slots| - 1]
    requires |EncodeSlot(c, tupleSize, slots[|slots| - 1])| == tupleSize
    requires |EncodeSlots(c, tupleSize, prefix)| == |prefix| * tupleSize
    ensures SlotAt(c, tupleSize, slots, |slots| - 1)
  {
    var n := |slots|;
    var a := EncodeSlots(c, tupleSize, prefix);
    var b := EncodeSlot(c, tupleSize, slots[n - 1]);
    assert EncodeSlots(c, tupleSize, slots) == a + b;
    MulSucc(n - 1, tupleSize);
    assert (n - 1) * tupleSize == |a|;
    assert (a + b)[|a| .. |a| + tupleSize] == b;
  }

  lemma SliceOfConcat<T>(a: seq<T>, b: seq<T>, lo: nat, hi: nat)
    requires lo <= hi <= |a|
    ensures (a + b)[lo..hi] == a[lo..hi]
  {
  }

  lemma SliceOfConcatMiddle<T>(a: seq<T>, b: seq<T>, c: seq<T>, lo: nat, hi: nat)
    requires lo <= hi <= |b|
    ensures (a + b + c)[|a| + lo .. |a| + hi] == b[lo..hi]
  {
    assert (a + b + c)[|a| + lo .. |a| + hi] == (a + b)[|a| + lo .. |a| + hi];
  }
}
