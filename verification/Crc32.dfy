/**
 crc32_body (vdfs-tools/lib/crc32.c): up to three bytes to an aligned address, then words of
 four bytes by four tables, then the rest.  The reference is the CRC bit by bit, with the
 polynomial of section 8 of RFC 1952 and without its inversions.
 */
module Crc32 {

  type Word = bv32

  const POLY: Word := 0xedb8_8320

  function Xor(a: Word, b: Word): Word {
    a ^ b
  }

  function Carry(c: Word): Word {
    if c & 1 == 1 then POLY else 0
  }

  function Half(c: Word): Word {
    c >> 1
  }

  /** One bit of the division. */
  function Shift(c: Word): Word {
    Xor(Carry(c), Half(c))
  }

  /** Eight bits of it. */
  function Shift8(c: Word): Word {
    Shift(Shift(Shift(Shift(Shift(Shift(Shift(Shift(c))))))))
  }

  function Wide(b: bv8): Word {
    b as Word
  }

  /** The reference: every byte is added at the low end and divided out. */
  function Crc(c: Word, data: seq<bv8>): Word
    decreases |data|
  {
    if data == [] then c else Shift8(Xor(Crc(c, data[..|data| - 1]), Wide(data[|data| - 1])))
  }

  /** Entry n of the four tables. */
  function Tab(k: nat, n: Word): Word
    requires k < 4
  {
    if k == 0 then Shift8(n)
    else if k == 1 then Shift8(Shift8(n))
    else if k == 2 then Shift8(Shift8(Shift8(n)))
    else Shift8(Shift8(Shift8(Shift8(n))))
  }

  function Low(c: Word): Word {
    c & 255
  }

  function High(c: Word): Word {
    c & 0xffff_ff00
  }

  // the shifts of the source by 16 and 24 bits are repeated ones by 8
  function Down(c: Word): Word {
    c >> 8
  }

  /** DO_CRC. */
  function ByteStep(c: Word, b: bv8): Word {
    Xor(Tab(0, Low(Xor(c, Wide(b)))), Down(c))
  }

  /** DO_CRC4, on the value that the word was added to. */
  function WordStep(x: Word): Word {
    Xor(Xor(Xor(Tab(3, Low(x)), Tab(2, Low(Down(x)))), Tab(1, Low(Down(Down(x))))), Tab(0, Low(Down(Down(Down(x))))))
  }

  /** The load of four bytes as a little-endian word. */
  function Load(b0: bv8, b1: bv8, b2: bv8, b3: bv8): Word {
    Wide(b0) | (Wide(b1) << 8) | (Wide(b2) << 16) | (Wide(b3) << 24)
  }

  // ---------- the division is linear ----------

  lemma {:induction false} XorSwap(a: Word, b: Word)
    ensures Xor(a, b) == Xor(b, a)
  {
  }

  lemma {:induction false} XorAssoc(a: Word, b: Word, c: Word)
    ensures Xor(Xor(a, b), c) == Xor(a, Xor(b, c))
  {
  }

  lemma {:induction false} XorFour(a: Word, b: Word, c: Word, d: Word)
    ensures Xor(Xor(a, b), Xor(c, d)) == Xor(Xor(a, c), Xor(b, d))
  {
    hide Xor;
    XorAssoc(a, b, Xor(c, d));
    XorAssoc(b, c, d);
    XorSwap(b, c);
    XorAssoc(c, b, d);
    XorAssoc(a, c, Xor(b, d));
  }

  lemma {:induction false} CarryLinear(a: Word, b: Word)
    ensures Carry(Xor(a, b)) == Xor(Carry(a), Carry(b))
  {
    assert (a ^ b) & 1 == (a & 1) ^ (b & 1);
    assert a & 1 == 0 || a & 1 == 1;
    assert b & 1 == 0 || b & 1 == 1;
  }

  lemma {:induction false} HalfLinear(a: Word, b: Word)
    ensures Half(Xor(a, b)) == Xor(Half(a), Half(b))
  {
  }

  lemma {:induction false} ShiftLinear(a: Word, b: Word)
    ensures Shift(Xor(a, b)) == Xor(Shift(a), Shift(b))
  {
    hide Xor, Carry, Half;
    CarryLinear(a, b);
    HalfLinear(a, b);
    XorFour(Carry(a), Carry(b), Half(a), Half(b));
  }

  lemma {:induction false} Linear(a: Word, b: Word)
    ensures Shift8(Xor(a, b)) == Xor(Shift8(a), Shift8(b))
  {
    hide Xor, Shift;
    ShiftLinear(a, b);
    var a1, b1 := Shift(a), Shift(b);
    ShiftLinear(a1, b1);
    var a2, b2 := Shift(a1), Shift(b1);
    ShiftLinear(a2, b2);
    var a3, b3 := Shift(a2), Shift(b2);
    ShiftLinear(a3, b3);
    var a4, b4 := Shift(a3), Shift(b3);
    ShiftLinear(a4, b4);
    var a5, b5 := Shift(a4), Shift(b4);
    ShiftLinear(a5, b5);
    var a6, b6 := Shift(a5), Shift(b5);
    ShiftLinear(a6, b6);
    ShiftLinear(Shift(a6), Shift(b6));
  }

  /** Four bytes' worth of the division at once. */
  function Shift32(c: Word): Word {
    Shift8(Shift8(Shift8(Shift8(c))))
  }

  // ---------- a byte by the table ----------

  /** A value with an empty low byte is only moved. */
  lemma {:induction false} HighMoves(c: Word)
    ensures Shift8(High(c)) == Down(c)
  {
  }

  lemma {:induction false} LowAndHigh(c: Word)
    ensures c == Xor(Low(c), High(c))
  {
  }

  /** The low byte goes through the table, the others move down. */
  lemma {:induction false} TableStep(c: Word)
    ensures Shift8(c) == Xor(Tab(0, Low(c)), Down(c))
  {
    hide Xor, Shift8, Low, High, Down;
    LowAndHigh(c);
    Linear(Low(c), High(c));
    HighMoves(c);
  }

  lemma {:induction false} ByteBelow(c: Word, b: bv8)
    ensures Down(Xor(c, Wide(b))) == Down(c)
  {
  }

  /** A byte by the table is a byte bit by bit. */
  lemma {:induction false} ByteStepDivides(c: Word, b: bv8)
    ensures ByteStep(c, b) == Shift8(Xor(c, Wide(b)))
  {
    hide Xor, Shift8, Low, Wide, Down, Tab;
    TableStep(Xor(c, Wide(b)));
    ByteBelow(c, b);
  }

  // ---------- a word by the four tables ----------

  lemma {:induction false} NothingLeft(x: Word)
    ensures Xor(Tab(0, Low(Down(Down(Down(x))))), Down(Down(Down(Down(x))))) == Tab(0, Low(Down(Down(Down(x)))))
  {
    hide Shift8;
    assert Down(Down(Down(Down(x)))) == 0;
  }

  /** DO_CRC4 divides out four bytes. */
  lemma {:induction false} WordStepDivides(x: Word)
    ensures WordStep(x) == Shift32(x)
  {
    NothingLeft(x);
    hide Xor, Shift8, Low, Down;
    var x1, x2, x3 := Down(x), Down(Down(x)), Down(Down(Down(x)));
    TableStep(x);
    TableStep(x1);
    TableStep(x2);
    TableStep(x3);
    var t0, t1, t2 := Shift8(Low(x)), Shift8(Low(x1)), Shift8(Low(x2));
    Linear(t0, x1);
    Linear(Shift8(t0), Xor(t1, x2));
    Linear(t1, x2);
    Linear(Shift8(Shift8(t0)), Xor(Shift8(t1), Xor(t2, x3)));
    Linear(Shift8(t1), Xor(t2, x3));
    Linear(t2, x3);
    XorAssoc(Tab(3, Low(x)), Tab(2, Low(x1)), Xor(Tab(1, Low(x2)), Tab(0, Low(x3))));
    XorAssoc(Xor(Tab(3, Low(x)), Tab(2, Low(x1))), Tab(1, Low(x2)), Tab(0, Low(x3)));
  }

  /** Dividing out the low byte of a word that is added leaves the rest of it to be added. */
  lemma {:induction false} Peel(c: Word, w: Word)
    ensures Shift8(Xor(c, w)) == Xor(Shift8(Xor(c, Low(w))), Down(w))
  {
    hide Xor, Shift8, Low, High, Down;
    LowAndHigh(w);
    XorAssoc(c, Low(w), High(w));
    Linear(Xor(c, Low(w)), High(w));
    HighMoves(w);
  }

  lemma {:induction false} LoadBytes(b0: bv8, b1: bv8, b2: bv8, b3: bv8)
    ensures var w := Load(b0, b1, b2, b3);
            && Low(w) == Wide(b0) && Low(Down(w)) == Wide(b1)
            && Low(Down(Down(w))) == Wide(b2) && Low(Down(Down(Down(w)))) == Wide(b3)
  {
  }

  lemma {:induction false} AllPeeled(c: Word, w: Word)
    ensures Xor(c, Down(Down(Down(Down(w))))) == c
  {
    assert Down(Down(Down(Down(w)))) == 0;
  }

  /** Four bytes one by one are one word. */
  lemma {:induction false} FourBytes(c: Word, b0: bv8, b1: bv8, b2: bv8, b3: bv8)
    ensures Shift8(Xor(Shift8(Xor(Shift8(Xor(Shift8(Xor(c, Wide(b0))), Wide(b1))), Wide(b2))), Wide(b3)))
            == Shift32(Xor(c, Load(b0, b1, b2, b3)))
  {
    hide Xor, Shift8, Wide, Load, Low, Down;
    var w := Load(b0, b1, b2, b3);
    LoadBytes(b0, b1, b2, b3);
    Peel(c, w);
    var c1 := Shift8(Xor(c, Wide(b0)));
    Peel(c1, Down(w));
    var c2 := Shift8(Xor(c1, Wide(b1)));
    Peel(c2, Down(Down(w)));
    var c3 := Shift8(Xor(c2, Wide(b2)));
    Peel(c3, Down(Down(Down(w))));
    AllPeeled(Shift8(Xor(c3, Wide(b3))), w);
  }

  // ---------- the whole buffer ----------

  lemma {:induction false} CrcNext(c: Word, data: seq<bv8>, i: nat)
    requires i < |data|
    ensures Crc(c, data[..i + 1]) == Shift8(Xor(Crc(c, data[..i]), Wide(data[i])))
  {
    assert data[..i + 1][..i] == data[..i];
  }

  lemma {:induction false} CrcFour(c: Word, data: seq<bv8>, i: nat)
    requires i + 4 <= |data|
    ensures Crc(c, data[..i + 4]) == WordStep(Xor(Crc(c, data[..i]), Load(data[i], data[i + 1], data[i + 2], data[i + 3])))
  {
    hide Crc, Shift8, Xor, Wide, Load, WordStep, Shift32;
    CrcNext(c, data, i);
    CrcNext(c, data, i + 1);
    CrcNext(c, data, i + 2);
    CrcNext(c, data, i + 3);
    FourBytes(Crc(c, data[..i]), data[i], data[i + 1], data[i + 2], data[i + 3]);
    WordStepDivides(Xor(Crc(c, data[..i]), Load(data[i], data[i + 1], data[i + 2], data[i + 3])));
  }

  /** crc32_body of a buffer at any address. */
  method CrcBody(seed: Word, data: seq<bv8>, address: nat) returns (crc: Word)
    ensures crc == Crc(seed, data)
  {
    hide Crc, Shift8, Xor, Wide, Load, WordStep, ByteStep;
    crc := seed;
    CrcEmpty(seed, data);
    var i := 0;
    while i < |data| && (address + i) % 4 != 0
      invariant i <= |data| && crc == Crc(seed, data[..i])
    {
      ByteStepDivides(crc, data[i]);
      CrcNext(seed, data, i);
      crc := ByteStep(crc, data[i]);
      i := i + 1;
    }
    var rest, words := (|data| - i) % 4, (|data| - i) / 4;
    while words > 0
      invariant 0 <= words && i + 4 * words + rest == |data| && crc == Crc(seed, data[..i])
    {
      CrcFour(seed, data, i);
      crc := Xor(crc, Load(data[i], data[i + 1], data[i + 2], data[i + 3]));
      crc := WordStep(crc);
      i := i + 4;
      words := words - 1;
    }
    while rest > 0
      invariant 0 <= rest && i + rest == |data| && crc == Crc(seed, data[..i])
    {
      ByteStepDivides(crc, data[i]);
      CrcNext(seed, data, i);
      crc := ByteStep(crc, data[i]);
      i := i + 1;
      rest := rest - 1;
    }
    assert data[..i] == data;
  }

  lemma {:induction false} CrcEmpty(c: Word, data: seq<bv8>)
    ensures Crc(c, data[..0]) == c
  {
  }

  /** A checksum can be taken in pieces. */
  lemma {:induction false} CrcConcat(c: Word, a: seq<bv8>, b: seq<bv8>)
    ensures Crc(Crc(c, a), b) == Crc(c, a + b)
    decreases |b|
  {
    hide Shift8, Xor, Wide;
    if b == [] {
      assert a + b == a;
    } else {
      assert (a + b)[..|a + b| - 1] == a + b[..|b| - 1];
      CrcConcat(c, a, b[..|b| - 1]);
    }
  }

  /** The tables are linear, so their entries at powers of two fix the others. */
  lemma {:induction false} TabLinear(k: nat, a: Word, b: Word)
    requires k < 4
    ensures Tab(k, Xor(a, b)) == Xor(Tab(k, a), Tab(k, b))
  {
    hide Xor, Shift8;
    Linear(a, b);
    Linear(Shift8(a), Shift8(b));
    Linear(Shift8(Shift8(a)), Shift8(Shift8(b)));
    Linear(Shift8(Shift8(Shift8(a))), Shift8(Shift8(Shift8(b))));
  }

  function Pick(i: nat, a: Word, b: Word, c: Word, d: Word, e: Word, f: Word, g: Word, h: Word): Word {
    if i == 0 then a else if i == 1 then b else if i == 2 then c else if i == 3 then d
    else if i == 4 then e else if i == 5 then f else if i == 6 then g else h
  }

  /** The i-th bit alone. */
  function Power(i: nat): Word {
    Pick(i, 1, 2, 4, 8, 16, 32, 64, 128)
  }

  /** The entries of the source's tables at 1, 2, 4, ..., 128. */
  function Entry(k: nat, i: nat): Word {
    if k == 0 then Pick(i, 0x7707_3096, 0xee0e_612c, 0x076d_c419, 0x0edb_8832, 0x1db7_1064, 0x3b6e_20c8, 0x76dc_4190, 0xedb8_8320)
    else if k == 1 then Pick(i, 0x191b_3141, 0x3236_6282, 0x646c_c504, 0xc8d9_8a08, 0x4ac2_1251, 0x9584_24a2, 0xf079_4f05, 0x3b83_984b)
    else if k == 2 then Pick(i, 0x01c2_6a37, 0x0384_d46e, 0x0709_a8dc, 0x0e13_51b8, 0x1c26_a370, 0x384d_46e0, 0x709a_8dc0, 0xe135_1b80)
    else Pick(i, 0xb8bc_6765, 0xaa09_c88b, 0x8f62_9757, 0xc5b4_28ef, 0x5019_579f, 0xa032_af3e, 0x9b14_583d, 0xed59_b63b)
  }

  lemma {:induction false} FirstTable(i: nat)
    requires i < 8
    ensures Shift8(Power(i)) == Entry(0, i)
  {
  }

  lemma {:induction false} SecondTable(i: nat)
    requires i < 8
    ensures Shift8(Entry(0, i)) == Entry(1, i)
  {
  }

  lemma {:induction false} ThirdTable(i: nat)
    requires i < 8
    ensures Shift8(Entry(1, i)) == Entry(2, i)
  {
  }

  lemma {:induction false} FourthTable(i: nat)
    requires i < 8
    ensures Shift8(Entry(2, i)) == Entry(3, i)
  {
  }

  /** The tables have the entries of the source there. */
  lemma {:induction false} TabConstants(k: nat, i: nat)
    requires k < 4 && i < 8
    ensures Tab(k, Power(i)) == Entry(k, i)
  {
    hide Shift8, Power, Entry;
    FirstTable(i);
    SecondTable(i);
    ThirdTable(i);
    FourthTable(i);
  }

  /** The sum of eight words. */
  function Sum8(a: Word, b: Word, c: Word, d: Word, e: Word, f: Word, g: Word, h: Word): Word {
    Xor(Xor(Xor(a, b), Xor(c, d)), Xor(Xor(e, f), Xor(g, h)))
  }

  /** A word where n has its i-th bit, zero elsewhere. */
  function Where(n: Word, i: nat, x: Word): Word {
    if n & Power(i) != 0 then x else 0
  }

  lemma {:induction false} AllBits(n: Word)
    ensures Low(n) == Sum8(Where(n, 0, 1), Where(n, 1, 2), Where(n, 2, 4), Where(n, 3, 8),
                           Where(n, 4, 16), Where(n, 5, 32), Where(n, 6, 64), Where(n, 7, 128))
  {
  }

  lemma {:induction false} TabSum(k: nat, a: Word, b: Word, c: Word, d: Word, e: Word, f: Word, g: Word, h: Word)
    requires k < 4
    ensures Tab(k, Sum8(a, b, c, d, e, f, g, h))
            == Sum8(Tab(k, a), Tab(k, b), Tab(k, c), Tab(k, d), Tab(k, e), Tab(k, f), Tab(k, g), Tab(k, h))
  {
    hide Tab, Xor;
    TabLinear(k, Xor(Xor(a, b), Xor(c, d)), Xor(Xor(e, f), Xor(g, h)));
    TabLinear(k, Xor(a, b), Xor(c, d));
    TabLinear(k, Xor(e, f), Xor(g, h));
    TabLinear(k, a, b);
    TabLinear(k, c, d);
    TabLinear(k, e, f);
    TabLinear(k, g, h);
  }

  lemma {:induction false} TabWhere(k: nat, n: Word, i: nat)
    requires k < 4 && i < 8
    ensures Tab(k, Where(n, i, Power(i))) == Where(n, i, Entry(k, i))
  {
    TabConstants(k, i);
    assert Shift8(0) == 0;
    hide Shift8, Power, Entry;
  }

  /** The source's 32 entries fix all 1024: entry n of a table is the sum of those at the bits of n. */
  lemma {:induction false} TabFixed(k: nat, n: Word)
    requires k < 4
    ensures Tab(k, Low(n)) ==
            Sum8(Where(n, 0, Entry(k, 0)), Where(n, 1, Entry(k, 1)), Where(n, 2, Entry(k, 2)), Where(n, 3, Entry(k, 3)),
                 Where(n, 4, Entry(k, 4)), Where(n, 5, Entry(k, 5)), Where(n, 6, Entry(k, 6)), Where(n, 7, Entry(k, 7)))
  {
    hide Tab, Low, Where, Sum8, Entry;
    AllBits(n);
    TabSum(k, Where(n, 0, 1), Where(n, 1, 2), Where(n, 2, 4), Where(n, 3, 8),
           Where(n, 4, 16), Where(n, 5, 32), Where(n, 6, 64), Where(n, 7, 128));
    TabWhere(k, n, 0);
    TabWhere(k, n, 1);
    TabWhere(k, n, 2);
    TabWhere(k, n, 3);
    TabWhere(k, n, 4);
    TabWhere(k, n, 5);
    TabWhere(k, n, 6);
    TabWhere(k, n, 7);
  }
}
