/**
 The bytes of a node: little-endian fields and the table of offsets that grows down from
 the end of the node, in front of the CRC.
 */
module PageMemory {
  import opened Layout

  type Byte = x: nat | x < 256

  type Memory = seq<Byte>

  const TWO_32: nat := 0x1_0000_0000
  const TWO_64: nat := 0x1_0000_0000_0000_0000

  function Le16(m: Memory, a: nat): nat
    requires a + 2 <= |m|
  {
    (m[a] as int) + 256 * (m[a + 1] as int)
  }

  function Le32(m: Memory, a: nat): nat
    requires a + 4 <= |m|
  {
    (m[a] as int) + 256 * (m[a + 1] as int) + 65536 * (m[a + 2] as int) + 16777216 * (m[a + 3] as int)
  }

  function Le64(m: Memory, a: nat): nat
    requires a + 8 <= |m|
  {
    Le32(m, a) + TWO_32 * Le32(m, a + 4)
  }

  /** vdfs4_get_offset_addr: where slot i of the offset table is. */
  function SlotAddr(size: nat, i: nat): int {
    size - TAIL - SLOT * (i + 1)
  }

  /** A slot that does not reach into the header. */
  predicate SlotIn(size: nat, i: nat) {
    SlotAddr(size, i) >= HEADER
  }

  function Off(m: Memory, i: nat): nat
    requires SlotIn(|m|, i)
  {
    Le32(m, SlotAddr(|m|, i))
  }

  predicate InSlot(size: nat, i: nat, a: int) {
    SlotAddr(size, i) <= a < SlotAddr(size, i) + SLOT
  }

  /** The memory after slot i is set to v and nothing else is changed. */
  ghost predicate SlotSet(m: Memory, i: nat, v: nat, w: Memory) {
    && |w| == |m| && SlotIn(|m|, i)
    && Off(w, i) == v
    && forall a :: 0 <= a < |m| && !InSlot(|m|, i, a) ==> w[a] == m[a]
  }

  lemma {:induction false} OtherSlots(m: Memory, i: nat, v: nat, w: Memory, j: nat)
    requires SlotSet(m, i, v, w) && SlotIn(|m|, j) && j != i
    ensures Off(w, j) == Off(m, j)
  {
    var a := SlotAddr(|m|, j);
    assert !InSlot(|m|, i, a) && !InSlot(|m|, i, a + 1) && !InSlot(|m|, i, a + 2) && !InSlot(|m|, i, a + 3);
    assert w[a] == m[a] && w[a + 1] == m[a + 1] && w[a + 2] == m[a + 2] && w[a + 3] == m[a + 3];
  }

  /** Slots below the first that may change, and bytes below the table, stay as they are. */
  lemma {:induction false} SameBytesSameSlot(m: Memory, w: Memory, j: nat)
    requires |w| == |m| && SlotIn(|m|, j)
    requires forall a :: SlotAddr(|m|, j) <= a < SlotAddr(|m|, j) + SLOT ==> w[a] == m[a]
    ensures Off(w, j) == Off(m, j)
  {
    var a := SlotAddr(|m|, j);
    assert w[a] == m[a] && w[a + 1] == m[a + 1] && w[a + 2] == m[a + 2] && w[a + 3] == m[a + 3];
  }

  /** The k-th byte of a number in little-endian order. */
  function ByteOf(v: nat, k: nat): Byte {
    if k == 0 then v % 256 else ByteOf(v / 256, k - 1)
  }

  lemma {:induction false} FourBytes(v: nat)
    requires v < TWO_32
    ensures (ByteOf(v, 0) as int) + 256 * (ByteOf(v, 1) as int) + 65536 * (ByteOf(v, 2) as int)
            + 16777216 * (ByteOf(v, 3) as int) == v
  {
    var a := v / 256;
    var b := a / 256;
    var c := b / 256;
    assert ByteOf(v, 1) == ByteOf(a, 0) == a % 256;
    assert ByteOf(v, 2) == ByteOf(a, 1) == ByteOf(b, 0) == b % 256;
    assert ByteOf(v, 3) == ByteOf(a, 2) == ByteOf(b, 1) == ByteOf(c, 0) == c % 256;
    assert c < 256;
  }

  lemma {:induction false} TwoBytes(v: nat)
    requires v < 0x1_0000
    ensures (ByteOf(v, 0) as int) + 256 * (ByteOf(v, 1) as int) == v
  {
    assert ByteOf(v, 1) == ByteOf(v / 256, 0);
  }

  /** A number in n bytes, the lowest first. */
  function ToBytes(v: nat, n: nat): (s: Memory)
    ensures |s| == n
  {
    seq<Byte>(n, k requires k >= 0 => ByteOf(v, k))
  }

  /** Of a number that does not fit into two bytes the high part is lost. */
  lemma {:induction false} Le16Back(v: nat)
    ensures Le16(ToBytes(v, 2), 0) == v % 0x1_0000
  {
    assert ByteOf(v, 1) == ByteOf(v / 256, 0);
  }

  lemma {:induction false} Le32Back(v: nat)
    requires v < TWO_32
    ensures Le32(ToBytes(v, 4), 0) == v
  {
    FourBytes(v);
  }

  /** A 64-bit number, the low half first. */
  function Quad(v: nat): (s: Memory)
    ensures |s| == 8
  {
    ToBytes(v % TWO_32, 4) + ToBytes(v / TWO_32, 4)
  }

  lemma {:induction false} Le64Back(v: nat)
    requires v < TWO_64
    ensures Le64(Quad(v), 0) == v
  {
    FourBytes(v % TWO_32);
    FourBytes(v / TWO_32);
  }

  lemma {:induction false} OffBound(m: Memory, i: nat)
    requires SlotIn(|m|, i)
    ensures Off(m, i) < TWO_32
  {
  }
}
