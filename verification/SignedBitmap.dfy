/**
 A bitmap on disk: every block starts with a magic and ends with a CRC, and the bits of the
 map lie between them (vdfs-tools/lib/utils.c, linux/fs/vdfs4/data.c).
 */
module SignedBitmap {
  import opened BitBytes
  import opened Division

  type Buffer = seq<bv8>

  datatype Geometry = Geometry(block: nat, magic: nat, crc: nat)

  predicate GeoOk(g: Geometry) {
    0 < g.crc && g.magic + g.crc < g.block
  }

  function BlockBits(g: Geometry): nat {
    8 * g.block
  }

  /** Bits of the map in one block. */
  function DataBits(g: Geometry): (d: nat)
    requires GeoOk(g)
    ensures d > 0
  {
    8 * (g.block - g.magic - g.crc)
  }

  /** A buffer of whole blocks holds this many bits of the map. */
  function Capacity(g: Geometry, size: nat): nat
    requires GeoOk(g)
  {
    DivNat(size, g.block);
    size / g.block * DataBits(g)
  }

  predicate PBit(m: Buffer, x: nat)
    requires x < 8 * |m|
  {
    Has(m[x / 8], x % 8)
  }

  /** Where bit p of the map is, counted in bits of the buffer. */
  function Phys(g: Geometry, p: nat): nat
    requires GeoOk(g)
  {
    DivNat(p, DataBits(g));
    Product(g.block, 0, p / DataBits(g));
    8 * (p / DataBits(g) * g.block + g.magic) + p % DataBits(g)
  }

  function BlockOf(g: Geometry, x: nat): nat
    requires GeoOk(g)
  {
    DivNat(x, BlockBits(g));
    x / BlockBits(g)
  }

  function PosOf(g: Geometry, x: nat): int
    requires GeoOk(g)
  {
    x % BlockBits(g) - 8 * g.magic
  }

  /** A bit of the buffer that is neither in a magic nor in a CRC. */
  predicate IsData(g: Geometry, x: nat)
    requires GeoOk(g)
  {
    0 <= PosOf(g, x) < DataBits(g)
  }

  function Logical(g: Geometry, x: nat): int
    requires GeoOk(g)
  {
    BlockOf(g, x) * DataBits(g) + PosOf(g, x)
  }

  /** Bits of the map and data bits of the buffer stand for each other. */
  lemma {:induction false} PhysInverse(g: Geometry, p: nat)
    requires GeoOk(g)
    ensures IsData(g, Phys(g, p)) && Logical(g, Phys(g, p)) == p && BlockOf(g, Phys(g, p)) == p / DataBits(g)
  {
    var d := DataBits(g);
    var b, o := p / d, p % d;
    assert Phys(g, p) == b * BlockBits(g) + (8 * g.magic + o);
    DivMod(BlockBits(g), b, 8 * g.magic + o);
    assert p == b * d + o;
  }

  lemma {:induction false} LogicalInverse(g: Geometry, x: nat)
    requires GeoOk(g) && IsData(g, x)
    ensures Logical(g, x) >= 0 && Phys(g, Logical(g, x)) == x
  {
    var b, o := BlockOf(g, x), PosOf(g, x);
    DivMod(DataBits(g), b, o);
    DivNat(x, BlockBits(g));
    assert x == b * BlockBits(g) + (8 * g.magic + o);
  }

  lemma {:induction false} PhysInBuffer(g: Geometry, p: nat, size: nat)
    requires GeoOk(g) && p < Capacity(g, size)
    ensures Phys(g, p) < 8 * size
  {
    var d, n := DataBits(g), size / g.block;
    var b := p / d;
    assert b < n by { assert p == b * d + p % d; if b >= n { Product(d, n, b); } }
    Product(g.block, b + 1, n);
    assert (b + 1) * g.block == b * g.block + g.block;
    assert n * g.block <= size;
  }

  predicate Bit(g: Geometry, m: Buffer, p: nat)
    requires GeoOk(g) && p < Capacity(g, |m|)
  {
    PhysInBuffer(g, p, |m|);
    PBit(m, Phys(g, p))
  }

  /** The tool and the kernel take the same block for a bit. */
  lemma {:induction false} SameBlock(g: Geometry, p: nat)
    requires GeoOk(g)
    ensures p / 8 / (g.block - g.magic - g.crc) == p / DataBits(g)
  {
    DivDiv(p, g.block - g.magic - g.crc);
  }

  /**
   The kernel rounds the address of a block's bits down to a machine word and counts bits from
   there; on a little-endian machine that is the same byte and the same bit of it.
   */
  lemma {:induction false} KernelBit(base: nat, bit: nat, word: nat)
    requires word == 4 || word == 8
    ensures var nr := bit + 8 * (base % word);
            && (base - base % word) + word * (nr / (8 * word)) + nr % (8 * word) / 8 == base + bit / 8
            && nr % (8 * word) % 8 == bit % 8
  {
    var k := base % word;
    var nr := bit + 8 * k;
    assert nr / 8 == bit / 8 + k;
    if word == 8 {
      assert nr / 8 == 8 * (nr / 64) + nr % 64 / 8;
    } else {
      assert nr / 8 == 4 * (nr / 32) + nr % 32 / 8;
    }
  }

  // ---------- writing a range of bits ----------

  /** Bits lo..hi of the map become v; nothing else in the buffer changes. */
  ghost predicate Wrote(g: Geometry, m: Buffer, w: Buffer, lo: nat, hi: nat, v: bool)
    requires GeoOk(g)
  {
    && |w| == |m|
    && forall x: nat :: x < 8 * |m| ==> (PBit(w, x) <==> if IsData(g, x) && lo <= Logical(g, x) < hi then v else PBit(m, x))
  }

  /** For the map this is union with, or removal of, a range. */
  lemma {:induction false} WroteMap(g: Geometry, m: Buffer, w: Buffer, lo: nat, hi: nat, v: bool)
    requires GeoOk(g) && Wrote(g, m, w, lo, hi, v)
    ensures forall p: nat :: p < Capacity(g, |m|) ==> (Bit(g, w, p) <==> if lo <= p < hi then v else Bit(g, m, p))
  {
    forall p: nat | p < Capacity(g, |m|) ensures Bit(g, w, p) <==> if lo <= p < hi then v else Bit(g, m, p) {
      PhysInBuffer(g, p, |m|);
      PhysInverse(g, p);
    }
  }

  /** No byte of a magic or of a CRC changes. */
  lemma {:induction false} WroteKeepsSignature(g: Geometry, m: Buffer, w: Buffer, lo: nat, hi: nat, v: bool)
    requires GeoOk(g) && Wrote(g, m, w, lo, hi, v)
    ensures forall a :: 0 <= a < |m| && (a % g.block < g.magic || a % g.block >= g.block - g.crc) ==> w[a] == m[a]
  {
    forall a | 0 <= a < |m| && (a % g.block < g.magic || a % g.block >= g.block - g.crc) ensures w[a] == m[a] {
      forall j | 0 <= j < 8 ensures Has(w[a], j) <==> Has(m[a], j) {
        var x := 8 * a + j;
        var b, o := a / g.block, a % g.block;
        assert x == b * BlockBits(g) + (8 * o + j);
        DivMod(BlockBits(g), b, 8 * o + j);
        assert !IsData(g, x) && x / 8 == a && x % 8 == j;
        assert PBit(w, x) <==> PBit(m, x);
      }
      SameBits(w[a], m[a]);
    }
  }

  /** The bits of one block between two positions, seen from the buffer and from the map. */
  lemma {:induction false} RangeInBlock(g: Geometry, x: nat, b: nat, o: nat, len: nat)
    requires GeoOk(g) && o + len <= DataBits(g)
    ensures var d := DataBits(g); var at := 8 * (b * g.block + g.magic) + o;
            at <= x < at + len <==> IsData(g, x) && b * d + o <= Logical(g, x) < b * d + o + len
  {
    var d, w, c := DataBits(g), BlockBits(g), BlockOf(g, x);
    DivNat(x, w);
    assert 8 * (b * g.block + g.magic) == b * w + 8 * g.magic;
    if c < b {
      Further(w, c, b);
      Further(d, c, b);
    } else if c > b {
      Further(w, b, c);
      Further(d, b, c);
    }
  }

  lemma {:induction false} WroteNothing(g: Geometry, m: Buffer, lo: nat, v: bool)
    requires GeoOk(g)
    ensures Wrote(g, m, m, lo, lo, v)
  {
  }

  ghost predicate RawWrote(m: Buffer, w: Buffer, at: nat, len: nat, v: bool) {
    && |w| == |m|
    && forall x: nat :: x < 8 * |m| ==> (PBit(w, x) <==> if at <= x < at + len then v else PBit(m, x))
  }

  /** A range written block by block. */
  lemma {:induction false} WroteBlock(g: Geometry, m: Buffer, w: Buffer, w': Buffer, lo: nat, b: nat, o: nat, len: nat, v: bool)
    requires GeoOk(g) && o + len <= DataBits(g) && lo <= b * DataBits(g) + o
    requires Wrote(g, m, w, lo, b * DataBits(g) + o, v)
    requires RawWrote(w, w', 8 * (b * g.block + g.magic) + o, len, v)
    ensures Wrote(g, m, w', lo, b * DataBits(g) + o + len, v)
  {
    hide PBit, IsData, Logical, DataBits;
    var mid := b * DataBits(g) + o;
    forall x: nat | x < 8 * |m|
      ensures PBit(w', x) <==> if IsData(g, x) && lo <= Logical(g, x) < mid + len then v else PBit(m, x)
    {
      RangeInBlock(g, x, b, o, len);
    }
  }

  /** What would be written behind the last block is not there to be written. */
  lemma {:induction false} WrotePast(g: Geometry, m: Buffer, w: Buffer, lo: nat, mid: nat, hi: nat, v: bool)
    requires GeoOk(g) && |m| % g.block == 0 && Wrote(g, m, w, lo, mid, v) && Capacity(g, |m|) <= mid <= hi
    ensures Wrote(g, m, w, lo, hi, v)
  {
    forall x: nat | x < 8 * |m| && IsData(g, x) ensures Logical(g, x) < Capacity(g, |m|) {
      DataInCapacity(g, x, |m|);
    }
    hide PBit, IsData, Logical, DataBits, Capacity;
  }

  lemma {:induction false} DataInCapacity(g: Geometry, x: nat, size: nat)
    requires GeoOk(g) && size % g.block == 0 && x < 8 * size && IsData(g, x)
    ensures Logical(g, x) < Capacity(g, size)
  {
    var n, c := size / g.block, BlockOf(g, x);
    DivNat(x, BlockBits(g));
    DivNat(size, g.block);
    assert 8 * size == n * BlockBits(g);
    if c >= n { Product(BlockBits(g), n, c); }
    assert c < n;
    Further(DataBits(g), c, n);
  }

  /** The bounds check of the tool, for bits that end at the given place in block b. */
  lemma {:induction false} BoundsCheck(g: Geometry, size: nat, b: nat, end: nat)
    requires GeoOk(g) && size % g.block == 0 && end <= DataBits(g)
    ensures b * g.block + g.magic + end / 8 > size - g.crc <==> b >= size / g.block
  {
    DivNat(size, g.block);
    if b < size / g.block {
      Further(g.block, b, size / g.block);
    } else {
      Product(g.block, size / g.block, b);
    }
  }

  /** The block of a bit is in the buffer exactly when the bit is in the map. */
  lemma {:induction false} InMap(g: Geometry, p: nat, size: nat)
    requires GeoOk(g)
    ensures p / DataBits(g) < size / g.block <==> p < Capacity(g, size)
  {
    var d, n, b := DataBits(g), size / g.block, p / DataBits(g);
    DivNat(p, d);
    DivNat(size, g.block);
    if b < n { Further(d, b, n); } else { Product(d, n, b); }
  }

  /** util_set_bits and util_clear_bits, at byte base of the buffer. */
  method WriteRaw(buf: array<bv8>, base: nat, addr: nat, count: nat, v: bool)
    requires 8 * base + addr + count <= 8 * buf.Length
    modifies buf
    ensures RawWrote(old(buf[..]), buf[..], 8 * base + addr, count, v)
  {
    hide RawWrote, With;
    ghost var m := buf[..];
    RawNothing(m, 8 * base + addr, v);
    for k := 0 to count
      invariant RawWrote(m, buf[..], 8 * base + addr, k, v)
    {
      var a, j := base + (addr + k) / 8, (addr + k) % 8;
      ghost var w := buf[..];
      OneBit(m, w, 8 * base + addr, k, v);
      buf[a] := With(buf[a], j, v);
      assert buf[..] == WithBit(w, 8 * base + addr + k, v);
    }
  }

  lemma {:induction false} RawNothing(m: Buffer, at: nat, v: bool)
    ensures RawWrote(m, m, at, 0, v)
  {
  }

  /** The buffer with one bit written. */
  function WithBit(m: Buffer, y: nat, v: bool): (w: Buffer)
    requires y < 8 * |m|
    ensures |w| == |m|
  {
    m[y / 8 := With(m[y / 8], y % 8, v)]
  }

  lemma {:induction false} BitWritten(m: Buffer, y: nat, v: bool, x: nat)
    requires y < 8 * |m| && x < 8 * |m|
    ensures PBit(WithBit(m, y, v), x) <==> if x == y then v else PBit(m, x)
  {
    hide Has, With;
    if x / 8 == y / 8 {
      WithHas(m[y / 8], y % 8, v, x % 8);
    }
  }

  lemma {:induction false} OneBit(m: Buffer, w: Buffer, at: nat, k: nat, v: bool)
    requires RawWrote(m, w, at, k, v) && at + k < 8 * |m|
    ensures RawWrote(m, WithBit(w, at + k, v), at, k + 1, v)
  {
    hide PBit, WithBit;
    assert |w| == |m|;
    forall x: nat | x < 8 * |m| ensures PBit(WithBit(w, at + k, v), x) <==> if at <= x < at + k + 1 then v else PBit(m, x) {
      BitWritten(w, at + k, v, x);
    }
  }

  /** The counters of the loops over blocks: bits from at on are left, and they start in block cur. */
  ghost predicate Walk(d: nat, addr: nat, count: nat, cur: nat, at: nat, left: nat)
    requires d > 0
  {
    && count > 0 && addr <= at && addr / d <= cur <= (addr + count - 1) / d + 1
    && (cur <= (addr + count - 1) / d ==> at == (if cur == addr / d then addr else cur * d) && left == addr + count - at)
    && (cur > (addr + count - 1) / d ==> at == addr + count)
  }

  lemma {:induction false} WalkStart(d: nat, addr: nat, count: nat)
    requires d > 0 && count > 0
    ensures addr / d >= 0 && addr / d <= (addr + count - 1) / d && Walk(d, addr, count, addr / d, addr, count)
  {
    DivNat(addr, d);
    DivOrder(addr, addr + count - 1, d);
  }

  /** One block of the walk: from its first position on as many bits as it has, or as are left. */
  lemma {:induction false} WalkStep(d: nat, addr: nat, count: nat, cur: nat, at: nat, left: nat, pos: int)
    requires d > 0 && Walk(d, addr, count, cur, at, left) && cur <= (addr + count - 1) / d
    requires pos == if cur == addr / d then addr % d else 0
    ensures 0 <= pos < d && addr <= at == cur * d + pos && left > 0
    ensures var length := if left < d - pos then left else d - pos;
            && at + length <= addr + count
            && Walk(d, addr, count, cur + 1, at + length, if left < d - pos then left else left - length)
            && (left < d - pos ==> Walk(d, addr, count, cur + 1, at + length, left - length))
  {
    DivNat(addr, d);
    BlockStep(d, addr, count, cur, at, pos);
  }

  /** How much of the range lies in the current block. */
  lemma {:induction false} BlockStep(d: nat, addr: nat, count: nat, cur: nat, at: nat, pos: nat)
    requires d > 0 && count > 0 && addr / d <= cur <= (addr + count - 1) / d
    requires at == if cur == addr / d then addr else cur * d
    requires pos == if cur == addr / d then addr % d else 0
    ensures at == cur * d + pos && pos < d && addr <= at < addr + count
    ensures cur < (addr + count - 1) / d ==> at + (d - pos) == (cur + 1) * d < addr + count
    ensures cur == (addr + count - 1) / d ==> addr + count <= at + (d - pos)
  {
    var last := addr + count - 1;
    DivNat(addr, d);
    DivNat(last, d);
    assert (cur + 1) * d == cur * d + d;
    if cur > addr / d { Further(d, addr / d, cur); }
    if cur < last / d {
      Further(d, cur, last / d);
    }
  }

  lemma {:induction false} PastEnd(g: Geometry, size: nat, cur: nat, pos: nat)
    requires GeoOk(g) && cur >= size / g.block
    ensures Capacity(g, size) <= cur * DataBits(g) + pos
  {
    DivNat(size, g.block);
    Product(DataBits(g), size / g.block, cur);
  }

  lemma {:induction false} RoomInBlock(g: Geometry, size: nat, cur: nat, end: nat)
    requires GeoOk(g) && cur < size / g.block && end <= DataBits(g)
    ensures 0 <= 8 * (cur * g.block + g.magic) && 8 * (cur * g.block + g.magic) + end <= 8 * size
  {
    DivNat(size, g.block);
    Further(g.block, cur, size / g.block);
  }

  /** The part of util_sign_set_bits for one block: the bounds check, then the bits. */
  method WriteBlock(buf: array<bv8>, g: Geometry, b: nat, pos: nat, len: nat, v: bool, ghost m: Buffer, ghost lo: nat)
    returns (ok: bool)
    requires GeoOk(g) && buf.Length % g.block == 0 && pos + len <= DataBits(g)
    requires lo <= b * DataBits(g) + pos && Wrote(g, m, buf[..], lo, b * DataBits(g) + pos, v)
    modifies buf
    ensures ok <==> b < buf.Length / g.block
    ensures ok ==> Wrote(g, m, buf[..], lo, b * DataBits(g) + pos + len, v)
    ensures !ok ==> buf[..] == old(buf[..])
  {
    hide Wrote, RawWrote, DataBits;
    BoundsCheck(g, buf.Length, b, pos + len);
    if b * g.block + g.magic + (pos + len) / 8 > buf.Length - g.crc {
      return false;
    }
    ghost var w := buf[..];
    RoomInBlock(g, buf.Length, b, pos + len);
    WriteRaw(buf, b * g.block + g.magic, pos, len, v);
    WroteBlock(g, m, w, buf[..], lo, b, pos, len, v);
    return true;
  }

  /** util_sign_set_bits for v, util_sign_clear_bits for !v. */
  method SignWrite(buf: array<bv8>, g: Geometry, addr: nat, count: nat, v: bool) returns (ok: bool)
    requires GeoOk(g) && buf.Length % g.block == 0
    modifies buf
    ensures ok <==> count == 0 || addr + count <= Capacity(g, buf.Length)
    ensures Wrote(g, old(buf[..]), buf[..], addr, addr + count, v)
  {
    hide Wrote, DataBits, Capacity, Walk;
    ghost var m := buf[..];
    WroteNothing(g, m, addr, v);
    if count == 0 {
      return true;
    }
    var bytes := g.block - g.magic - g.crc;
    SameBlock(g, addr);
    SameBlock(g, addr + count - 1);
    InMap(g, addr + count - 1, buf.Length);
    WalkStart(DataBits(g), addr, count);
    var start, end := addr / 8 / bytes, (addr + count - 1) / 8 / bytes;
    var left: nat := count;
    ghost var at: nat := addr;
    var cur: nat := start;
    while cur <= end
      invariant start <= cur <= end + 1 && Walk(DataBits(g), addr, count, cur, at, left)
      invariant Wrote(g, m, buf[..], addr, at, v)
      invariant cur > start ==> cur <= buf.Length / g.block
      decreases end + 1 - cur
    {
      var pos := if cur == start then addr % DataBits(g) else 0;
      WalkStep(DataBits(g), addr, count, cur, at, left, pos);
      var length := DataBits(g) - pos;
      if left < length {
        length := left;
      } else {
        left := left - length;
      }
      var written := WriteBlock(buf, g, cur, pos, length, v, m, addr);
      if !written {
        PastEnd(g, buf.Length, cur, pos);
        WrotePast(g, m, buf[..], addr, at, addr + count, v);
        return false;
      }
      at := at + length;
      cur := cur + 1;
    }
    WalkDone(DataBits(g), addr, count, cur, at, left);
    return true;
  }

  lemma {:induction false} WalkDone(d: nat, addr: nat, count: nat, cur: nat, at: nat, left: nat)
    requires d > 0 && Walk(d, addr, count, cur, at, left) && cur > (addr + count - 1) / d
    ensures at == addr + count
  {
  }

  lemma {:induction false} ByteOfBit(g: Geometry, p: nat, size: nat)
    requires GeoOk(g) && p < Capacity(g, size)
    ensures var a, o := p / DataBits(g) * g.block + g.magic, p % DataBits(g);
            && 0 <= a + o / 8 < size && 0 <= o && Phys(g, p) / 8 == a + o / 8 && Phys(g, p) % 8 == o % 8
  {
    DivNat(p, DataBits(g));
    PhysInBuffer(g, p, size);
  }

  datatype Tested = Value(bit: bool) | OutOfBuffer

  /** util_sign_test_bit. */
  method SignTest(buf: array<bv8>, g: Geometry, addr: nat) returns (r: Tested)
    requires GeoOk(g) && buf.Length % g.block == 0
    ensures r == if addr < Capacity(g, buf.Length) then Value(Bit(g, buf[..], addr)) else OutOfBuffer
  {
    hide Has, Capacity, DataBits;
    var bytes := g.block - g.magic - g.crc;
    DivNat(addr, DataBits(g));
    var b, pos := addr / 8 / bytes, addr % DataBits(g);
    SameBlock(g, addr);
    InMap(g, addr, buf.Length);
    BoundsCheck(g, buf.Length, b, pos);
    if b * g.block + g.magic + pos / 8 > buf.Length - g.crc {
      return OutOfBuffer;
    }
    ByteOfBit(g, addr, buf.Length);
    var a := b * g.block + g.magic + pos / 8;
    return Value(Has(buf[a], pos % 8));
  }

  // ---------- the kernel ----------

  /** vdfs4_test_and_set_bit and vdfs4_test_and_clear_bit, by machine words. */
  method TestAndWrite(buf: array<bv8>, word: nat, base: nat, bit: nat, v: bool) returns (was: bool)
    requires (word == 4 || word == 8) && 8 * base + bit < 8 * buf.Length
    modifies buf
    ensures buf[..] == WithBit(old(buf[..]), 8 * base + bit, v)
    ensures was == PBit(old(buf[..]), 8 * base + bit)
  {
    hide Has, With;
    KernelBit(base, bit, word);
    var nr := bit + 8 * (base % word);
    var a, j := (base - base % word) + word * (nr / (8 * word)) + nr % (8 * word) / 8, nr % (8 * word) % 8;
    was := Has(buf[a], j);
    buf[a] := With(buf[a], j, v);
  }

  lemma {:induction false} PhysAt(g: Geometry, b: nat, o: nat)
    requires GeoOk(g) && o < DataBits(g)
    ensures 0 <= b * DataBits(g) + o && Phys(g, b * DataBits(g) + o) == 8 * (b * g.block + g.magic) + o
  {
    DivMod(DataBits(g), b, o);
  }

  /** A bit behind the range written so far is as it was. */
  lemma {:induction false} NotYet(g: Geometry, m: Buffer, w: Buffer, lo: nat, p: nat, v: bool)
    requires GeoOk(g) && Wrote(g, m, w, lo, p, v) && p < Capacity(g, |m|)
    ensures Phys(g, p) < 8 * |w| && (PBit(w, Phys(g, p)) <==> Bit(g, m, p))
  {
    PhysInverse(g, p);
    PhysInBuffer(g, p, |m|);
    hide PBit, Logical, IsData, Capacity, Phys;
  }

  /** One more bit of a range written, and what it was before. */
  lemma {:induction false} KernelStep(g: Geometry, m: Buffer, w: Buffer, lo: nat, b: nat, o: nat, v: bool)
    requires GeoOk(g) && o < DataBits(g) && b < |m| / g.block && |w| == |m|
    requires lo <= b * DataBits(g) + o && Wrote(g, m, w, lo, b * DataBits(g) + o, v)
    ensures 0 <= 8 * (b * g.block + g.magic) && 8 * (b * g.block + g.magic) + o < 8 * |m|
    ensures 0 <= b * DataBits(g) + o < Capacity(g, |m|)
    ensures PBit(w, 8 * (b * g.block + g.magic) + o) <==> Bit(g, m, b * DataBits(g) + o)
    ensures Wrote(g, m, WithBit(w, 8 * (b * g.block + g.magic) + o, v), lo, b * DataBits(g) + o + 1, v)
  {
    hide PBit, WithBit, Wrote, Phys, Capacity, Bit, DataBits;
    var p, x := b * DataBits(g) + o, 8 * (b * g.block + g.magic) + o;
    RoomInBlock(g, |m|, b, o + 1);
    PhysAt(g, b, o);
    DivMod(DataBits(g), b, o);
    InMap(g, p, |m|);
    NotYet(g, m, w, lo, p, v);
    RawNothing(w, x, v);
    OneBit(w, w, x, 0, v);
    WroteBlock(g, m, w, WithBit(w, x, v), lo, b, o, 1, v);
  }

  ghost predicate NoneSet(g: Geometry, m: Buffer, lo: nat, hi: nat, v: bool)
    requires GeoOk(g)
  {
    forall p: nat :: lo <= p < hi && p < Capacity(g, |m|) ==> Bit(g, m, p) != v
  }

  /** vdfs4_set_bits: gives up at the first bit that is set already. */
  method KernelSet(buf: array<bv8>, word: nat, g: Geometry, offset: nat, count: nat) returns (ok: bool, ghost stop: nat)
    requires (word == 4 || word == 8) && GeoOk(g) && count > 0 && offset + count <= Capacity(g, buf.Length)
    modifies buf
    ensures offset <= stop <= offset + count && Wrote(g, old(buf[..]), buf[..], offset, stop, true)
    ensures NoneSet(g, old(buf[..]), offset, stop, true)
    ensures if ok then stop == offset + count else stop < offset + count && Bit(g, old(buf[..]), stop)
  {
    hide Wrote, PBit, DataBits, Capacity, WithBit, Bit, Walk, NoneSet;
    ghost var m := buf[..];
    WroteNothing(g, m, offset, true);
    NoneNothing(g, m, offset, true);
    InMap(g, offset + count - 1, buf.Length);
    WalkStart(DataBits(g), offset, count);
    var start, end := offset / DataBits(g), (offset + count - 1) / DataBits(g);
    var left: nat := count;
    stop := offset;
    var cur: nat := start;
    while cur <= end
      invariant start <= cur <= end + 1 && Walk(DataBits(g), offset, count, cur, stop, left) && |buf[..]| == |m|
      invariant Wrote(g, m, buf[..], offset, stop, true) && NoneSet(g, m, offset, stop, true)
      decreases end + 1 - cur
    {
      var pos := if cur == start then offset % DataBits(g) else 0;
      WalkStep(DataBits(g), offset, count, cur, stop, left, pos);
      var length := DataBits(g) - pos;
      if left < length {
        length := left;
      } else {
        left := left - length;
      }
      ghost var at := stop;
      for i := 0 to length
        invariant stop == at + i && |buf[..]| == |m|
        invariant Wrote(g, m, buf[..], offset, stop, true) && NoneSet(g, m, offset, stop, true)
      {
        KernelStep(g, m, buf[..], offset, cur, pos + i, true);
        NoneStep(g, m, offset, stop, true);
        var was := TestAndWrite(buf, word, cur * g.block + g.magic, pos + i, true);
        if was {
          AlreadySet(g, m, buf[..], offset, stop);
          return false, stop;
        }
        stop := stop + 1;
      }
      cur := cur + 1;
    }
    WalkDone(DataBits(g), offset, count, cur, stop, left);
    return true, stop;
  }

  lemma {:induction false} NoneNothing(g: Geometry, m: Buffer, lo: nat, v: bool)
    requires GeoOk(g)
    ensures NoneSet(g, m, lo, lo, v)
  {
  }

  lemma {:induction false} AlreadySet(g: Geometry, m: Buffer, w: Buffer, lo: nat, p: nat)
    requires GeoOk(g) && Wrote(g, m, w, lo, p + 1, true) && p < Capacity(g, |m|) && Bit(g, m, p)
    ensures Wrote(g, m, w, lo, p, true)
  {
    forall x: nat | x < 8 * |m| && IsData(g, x) && Logical(g, x) == p ensures PBit(m, x) {
      LogicalInverse(g, x);
    }
    hide PBit, Logical, IsData;
  }

  /** vdfs4_clear_bits: clears the whole range and reports whether a bit was clear already. */
  method KernelClear(buf: array<bv8>, word: nat, g: Geometry, offset: nat, count: nat) returns (ok: bool)
    requires (word == 4 || word == 8) && GeoOk(g) && count > 0 && offset + count <= Capacity(g, buf.Length)
    modifies buf
    ensures Wrote(g, old(buf[..]), buf[..], offset, offset + count, false)
    ensures ok <==> NoneSet(g, old(buf[..]), offset, offset + count, false)
  {
    hide Wrote, PBit, DataBits, Capacity, WithBit, Bit, Walk, NoneSet;
    ghost var m := buf[..];
    WroteNothing(g, m, offset, false);
    NoneNothing(g, m, offset, false);
    InMap(g, offset + count - 1, buf.Length);
    WalkStart(DataBits(g), offset, count);
    var start, end := offset / DataBits(g), (offset + count - 1) / DataBits(g);
    var left: nat := count;
    ok := true;
    ghost var at: nat := offset;
    var cur: nat := start;
    while cur <= end
      invariant start <= cur <= end + 1 && Walk(DataBits(g), offset, count, cur, at, left) && |buf[..]| == |m|
      invariant Wrote(g, m, buf[..], offset, at, false) && (ok <==> NoneSet(g, m, offset, at, false))
      decreases end + 1 - cur
    {
      var pos := if cur == start then offset % DataBits(g) else 0;
      WalkStep(DataBits(g), offset, count, cur, at, left, pos);
      var length := DataBits(g) - pos;
      if left < length {
        length := left;
      }
      left := left - length;
      ghost var first := at;
      for i := 0 to length
        invariant at == first + i && |buf[..]| == |m|
        invariant Wrote(g, m, buf[..], offset, at, false) && (ok <==> NoneSet(g, m, offset, at, false))
      {
        KernelStep(g, m, buf[..], offset, cur, pos + i, false);
        NoneStep(g, m, offset, at, false);
        var was := TestAndWrite(buf, word, cur * g.block + g.magic, pos + i, false);
        if !was {
          ok := false;
        }
        at := at + 1;
      }
      cur := cur + 1;
    }
    WalkDone(DataBits(g), offset, count, cur, at, left);
  }

  lemma {:induction false} NoneStep(g: Geometry, m: Buffer, lo: nat, p: nat, v: bool)
    requires GeoOk(g) && lo <= p < Capacity(g, |m|)
    ensures NoneSet(g, m, lo, p + 1, v) <==> NoneSet(g, m, lo, p, v) && Bit(g, m, p) != v
  {
  }

  // ---------- the size of the buffer ----------

  /** The bytes init_space_manager allocates for a map of n bits. */
  function BufferSize(g: Geometry, n: nat): int
    requires GeoOk(g)
  {
    var bytes, sign := (n + 7) / 8, g.magic + g.crc;
    var signed := bytes + sign * ((bytes + (g.block - sign) - 1) / (g.block - sign));
    (signed + g.block - 1) / g.block * g.block
  }

  /** They are whole blocks, and hold every bit of the map: the bounds check never fails for one. */
  lemma {:induction false} BufferLargeEnough(g: Geometry, n: nat)
    requires GeoOk(g)
    ensures BufferSize(g, n) >= 0 && BufferSize(g, n) % g.block == 0
    ensures n <= Capacity(g, BufferSize(g, n))
  {
    var bytes, d, sign := (n + 7) / 8, g.block - g.magic - g.crc, g.magic + g.crc;
    DivUp(bytes, d);
    var k := (bytes + d - 1) / d;
    var signed: nat := bytes + sign * k;
    DivUp(signed, g.block);
    var blocks: nat := (signed + g.block - 1) / g.block;
    BlocksForSigns(bytes, d, sign, k, blocks);
    Product(d, k, blocks);
    BlocksHoldBits(g, n, bytes, d, blocks);
  }

  /** So many whole blocks, each with room for d bytes of the map. */
  lemma {:induction false} BlocksHoldBits(g: Geometry, n: nat, bytes: nat, d: nat, blocks: nat)
    requires GeoOk(g) && d == g.block - g.magic - g.crc && n <= 8 * bytes && bytes <= blocks * d
    ensures blocks * g.block >= 0 && blocks * g.block % g.block == 0 && n <= Capacity(g, blocks * g.block)
  {
    Product(g.block, 0, blocks);
    DivMod(g.block, blocks, 0);
    assert blocks * DataBits(g) == 8 * (blocks * d);
  }

  /** Blocks that hold the bytes and a sign for every d of them are at least as many as the signs. */
  lemma {:induction false} BlocksForSigns(bytes: nat, d: nat, sign: nat, k: nat, blocks: nat)
    requires d > 0 && k * d < bytes + d && bytes + sign * k <= blocks * (d + sign)
    ensures k <= blocks
  {
    assert k * (d + sign) == k * d + sign * k;
    if blocks < k { Further(d + sign, blocks, k); }
  }
}
