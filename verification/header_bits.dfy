/** The slot bitmap at the start of a heap page: slot i is bit (i % 8) of
    header byte (i / 8), least significant bit first. */
module HeaderBits {
  import opened Common

  function Mask(k: nat): Byte
    requires k < 8
  {
    (1 as Byte) << k
  }

  /** `isSlotUsed(i)`. */
  predicate SlotBit(header: seq<Byte>, i: nat)
    requires i < 8 * |header|
  {
    header[i / 8] & Mask(i % 8) != 0
  }

  /** `isSlotUsed(i)` on any Java int: the byte index and bit truncate
      toward zero, so an index in [-7, -1] reads byte 0 with a negative shift
      (a shift by 32 + i) that lands on the sign-extended copies of its top
      bit; any other index outside the header is an out-of-bounds access. */
  function SlotUsedAt(header: seq<Byte>, i: int): (r: Result<bool>)
    ensures 0 <= i < 8 * |header| ==> r == Ok(SlotBit(header, i))
    ensures (i <= -8 || i >= 8 * |header| || |header| == 0) ==> r == Err(IndexOutOfBounds)
    ensures -8 < i < 0 && |header| > 0 ==> r == Ok(header[0] & 0x80 != 0)
  {
    if 0 <= i < 8 * |header| then Ok(SlotBit(header, i))
    else if -8 < i < 0 && |header| > 0 then Ok(header[0] & 0x80 != 0)
    else Err(IndexOutOfBounds)
  }

  /** `setSlot(i, value)`: flip the bit when it differs from `value`. */
  function SetSlotBit(header: seq<Byte>, i: nat, value: bool): (h: seq<Byte>)
    requires i < 8 * |header|
    ensures |h| == |header|
    ensures SlotBit(h, i) == value
    ensures forall j :: 0 <= j < 8 * |header| && j != i ==> SlotBit(h, j) == SlotBit(header, j)
  {
    if value != SlotBit(header, i) then
      var h := header[i / 8 := header[i / 8] ^ Mask(i % 8)];
      forall j | 0 <= j < 8 * |header| && j != i
        ensures SlotBit(h, j) == SlotBit(header, j)
      {
        if j / 8 == i / 8 {
          FlipKeepsOtherBits(header[i / 8], i % 8, j % 8);
        }
      }
      FlipTogglesBit(header[i / 8], i % 8);
      h
    else header
  }

  lemma FlipKeepsOtherBits(b: Byte, k: nat, m: nat)
    requires k < 8 && m < 8 && k != m
    ensures (b ^ Mask(k)) & Mask(m) != 0 <==> b & Mask(m) != 0
  {
  }

  lemma FlipTogglesBit(b: Byte, k: nat)
    requires k < 8
    ensures (b ^ Mask(k)) & Mask(k) != 0 <==> b & Mask(k) == 0
  {
  }

  /** Setting a bit to the value it already has changes nothing. */
  lemma SetSlotBitIdle(header: seq<Byte>, i: nat, value: bool)
    requires i < 8 * |header| && SlotBit(header, i) == value
    ensures SetSlotBit(header, i, value) == header
  {
  }

  /** Setting then clearing a clear bit restores the header byte for byte. */
  lemma SetThenClear(header: seq<Byte>, i: nat)
    requires i < 8 * |header| && !SlotBit(header, i)
    ensures SetSlotBit(SetSlotBit(header, i, true), i, false) == header
  {
    var h1 := SetSlotBit(header, i, true);
    assert h1 == header[i / 8 := header[i / 8] ^ Mask(i % 8)];
    var h2 := SetSlotBit(h1, i, false);
    assert h2 == h1[i / 8 := h1[i / 8] ^ Mask(i % 8)];
    XorTwice(header[i / 8], Mask(i % 8));
  }

  lemma XorTwice(b: Byte, m: Byte)
    ensures (b ^ m) ^ m == b
  {
  }

  /** `getNextTupleIndexOfValue(start, max, value)`: the first index in
      [start, max) whose bit equals `value`, else max (or start when start
      is past max). */
  function NextIndexOfValue(header: seq<Byte>, start: nat, max: nat, value: bool): (k: nat)
    requires max <= 8 * |header|
    ensures start <= k && (start <= max ==> k <= max)
    ensures k < max ==> SlotBit(header, k) == value
    ensures forall j :: start <= j < k && j < max ==> SlotBit(header, j) != value
    decreases max - start
  {
    if start < max && SlotBit(header, start) != value then NextIndexOfValue(header, start + 1, max, value)
    else start
  }

  /** Number of indices in [lo, hi) whose bit equals `value`. */
  function CountSlots(header: seq<Byte>, lo: nat, hi: nat, value: bool): nat
    requires lo <= hi <= 8 * |header|
    decreases hi - lo
  {
    if lo == hi then 0
    else CountSlots(header, lo, hi - 1, value) + (if SlotBit(header, hi - 1) == value then 1 else 0)
  }

  lemma {:induction false} CountSlotsSplit(header: seq<Byte>, lo: nat, mid: nat, hi: nat, value: bool)
    requires lo <= mid <= hi <= 8 * |header|
    ensures CountSlots(header, lo, hi, value) == CountSlots(header, lo, mid, value) + CountSlots(header, mid, hi, value)
    decreases hi - mid
  {
    if mid < hi {
      CountSlotsSplit(header, lo, mid, hi - 1, value);
    }
  }

  /** Every index has its bit either set or clear. */
  lemma {:induction false} CountSlotsComplement(header: seq<Byte>, lo: nat, hi: nat)
    requires lo <= hi <= 8 * |header|
    ensures CountSlots(header, lo, hi, true) + CountSlots(header, lo, hi, false) == hi - lo
    decreases hi - lo
  {
    if lo < hi {
      CountSlotsComplement(header, lo, hi - 1);
    }
  }

  /** No index in [lo, hi) has its bit equal to `value` exactly when the
      count is zero. */
  lemma {:induction false} CountSlotsZero(header: seq<Byte>, lo: nat, hi: nat, value: bool)
    requires lo <= hi <= 8 * |header|
    ensures CountSlots(header, lo, hi, value) == 0 <==> forall j :: lo <= j < hi ==> SlotBit(header, j) != value
    decreases hi - lo
  {
    if lo < hi {
      CountSlotsZero(header, lo, hi - 1, value);
    }
  }

  /** Counts agree on two headers whose bits agree on the range. */
  lemma {:induction false} CountSlotsSameBits(h1: seq<Byte>, h2: seq<Byte>, lo: nat, hi: nat, value: bool)
    requires lo <= hi <= 8 * |h1| && hi <= 8 * |h2|
    requires forall j :: lo <= j < hi ==> SlotBit(h1, j) == SlotBit(h2, j)
    ensures CountSlots(h1, lo, hi, value) == CountSlots(h2, lo, hi, value)
    decreases hi - lo
  {
    if lo < hi {
      CountSlotsSameBits(h1, h2, lo, hi - 1, value);
    }
  }

  /** Setting a clear bit inside the range moves one index from the clear
      count to the set count. */
  lemma {:induction false} CountSlotsAfterSet(header: seq<Byte>, lo: nat, hi: nat, i: nat)
    requires lo <= i < hi <= 8 * |header| && !SlotBit(header, i)
    ensures CountSlots(SetSlotBit(header, i, true), lo, hi, false) == CountSlots(header, lo, hi, false) - 1
  {
    var h := SetSlotBit(header, i, true);
    CountSlotsSplit(header, lo, i, hi, false);
    CountSlotsSplit(h, lo, i, hi, false);
    CountSlotsSplit(header, i, i + 1, hi, false);
    CountSlotsSplit(h, i, i + 1, hi, false);
    CountSlotsSameBits(header, h, lo, i, false);
    CountSlotsSameBits(header, h, i + 1, hi, false);
  }

  /** The number of set bits of a byte. */
  function PopCount(b: Byte): nat
  {
    B2N(b & 0x01 != 0) + B2N(b & 0x02 != 0) + B2N(b & 0x04 != 0) + B2N(b & 0x08 != 0) +
    B2N(b & 0x10 != 0) + B2N(b & 0x20 != 0) + B2N(b & 0x40 != 0) + B2N(b & 0x80 != 0)
  }

  /** The number of set bits of a whole header. */
  function SetBits(header: seq<Byte>): nat
  {
    if header == [] then 0 else SetBits(header[..|header| - 1]) + PopCount(header[|header| - 1])
  }

  /** The popcount of a byte counts the slots of that byte that are in use. */
  lemma ByteCount(header: seq<Byte>, k: nat)
    requires k < |header|
    ensures CountSlots(header, 8 * k, 8 * k + 8, true) == PopCount(header[k])
  {
    ByteCountBelow(header, k, 8);
    PopCountByMasks(header[k]);
  }

  function B2N(x: bool): nat
  {
    if x then 1 else 0
  }

  /** Set bits of a byte among its m lowest positions. */
  function PopBelow(b: Byte, m: nat): nat
    requires m <= 8
  {
    if m == 0 then 0 else PopBelow(b, m - 1) + B2N(b & Mask(m - 1) != 0)
  }

  lemma {:induction false} ByteCountBelow(header: seq<Byte>, k: nat, m: nat)
    requires k < |header| && m <= 8
    ensures CountSlots(header, 8 * k, 8 * k + m, true) == PopBelow(header[k], m)
  {
    if m > 0 {
      ByteCountBelow(header, k, m - 1);
      BitOfByte(header, k, m - 1, 8 * k + m - 1);
    }
  }

  lemma PopCountByMasks(b: Byte)
    ensures PopCount(b) == PopBelow(b, 8)
  {
    PopBelowLowNibble(b);
    PopBelowHighNibble(b);
  }

  /** The set bits among the four highest positions, over those below. */
  lemma PopBelowHighNibble(b: Byte)
    ensures PopBelow(b, 8) == PopBelow(b, 4) + B2N(b & 0x10 != 0) + B2N(b & 0x20 != 0) + B2N(b & 0x40 != 0) + B2N(b & 0x80 != 0)
  {
    assert PopBelow(b, 5) == PopBelow(b, 4) + B2N(b & 0x10 != 0) by { MaskValues(); }
    assert PopBelow(b, 6) == PopBelow(b, 5) + B2N(b & 0x20 != 0) by { MaskValues(); }
    assert PopBelow(b, 7) == PopBelow(b, 6) + B2N(b & 0x40 != 0) by { MaskValues(); }
    assert PopBelow(b, 8) == PopBelow(b, 7) + B2N(b & 0x80 != 0) by { MaskValues(); }
  }

  /** The set bits among the four lowest positions. */
  lemma PopBelowLowNibble(b: Byte)
    ensures PopBelow(b, 4) == B2N(b & 0x01 != 0) + B2N(b & 0x02 != 0) + B2N(b & 0x04 != 0) + B2N(b & 0x08 != 0)
  {
    assert PopBelow(b, 1) == B2N(b & 0x01 != 0) by { MaskValues(); }
    assert PopBelow(b, 2) == PopBelow(b, 1) + B2N(b & 0x02 != 0) by { MaskValues(); }
    assert PopBelow(b, 3) == PopBelow(b, 2) + B2N(b & 0x04 != 0) by { MaskValues(); }
    assert PopBelow(b, 4) == PopBelow(b, 3) + B2N(b & 0x08 != 0) by { MaskValues(); }
  }

  lemma MaskValues()
    ensures Mask(0) == 0x01 && Mask(1) == 0x02 && Mask(2) == 0x04 && Mask(3) == 0x08
    ensures Mask(4) == 0x10 && Mask(5) == 0x20 && Mask(6) == 0x40 && Mask(7) == 0x80
  {
  }

  lemma BitOfByte(header: seq<Byte>, k: nat, j: nat, i: nat)
    requires k < |header| && j < 8 && i == 8 * k + j
    ensures SlotBit(header, i) == (header[k] & Mask(j) != 0)
  {
    assert i / 8 == k && i % 8 == j;
  }

  /** A prefix of a header has the same slot bits as the header over the
      prefix's range. */
  lemma PrefixSameBits(header: seq<Byte>, k: nat)
    requires k <= |header|
    ensures forall j :: 0 <= j < 8 * k ==> SlotBit(header[..k], j) == SlotBit(header, j)
  {
    forall j | 0 <= j < 8 * k
      ensures SlotBit(header[..k], j) == SlotBit(header, j)
    {
      assert j / 8 < k;
      assert header[..k][j / 8] == header[j / 8];
    }
  }

  /** The set bits of a header are the used indices over its whole range. */
  lemma {:induction false} SetBitsCountsUsed(header: seq<Byte>)
    ensures SetBits(header) == CountSlots(header, 0, 8 * |header|, true)
  {
    if header != [] {
      var n := |header|;
      var prefix := header[..n - 1];
      SetBitsCountsUsed(prefix);
      PrefixSameBits(header, n - 1);
      CountSlotsSameBits(prefix, header, 0, 8 * (n - 1), true);
      var mid := 8 * (n - 1);
      assert mid + 8 == 8 * n;
      CountSlotsSplit(header, 0, mid, mid + 8, true);
      ByteCount(header, n - 1);
      assert SetBits(header) == SetBits(prefix) + PopCount(header[n - 1]);
    }
  }

  /** The popcount of a byte after its high bit is dropped (Java adds 128 to
      a negative byte widened to int, which clears that bit). */
  lemma PopCountHighBit(b: Byte)
    ensures PopCount(b) == (if b & 0x80 != 0 then 1 else 0) + PopCount(b & 0x7F)
  {
  }

  /** One step of the shift loop: the low bit plus the popcount of the rest. */
  lemma PopCountShift(b: Byte)
    ensures PopCount(b) == (if b & 1 == 1 then 1 else 0) + PopCount(b >> 1)
  {
  }
}
