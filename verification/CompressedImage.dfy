/**
 A compressed file as bytes: the chunks, the table of extents, the hashes and the descriptor at
 the end, as compress_file writes them, and how read_descriptor_info finds the table again.
 */
module CompressedImage {
  import opened PageMemory
  import opened ChunkCodec
  import opened ChunkLayout
  import opened CompressedFileModule

  // sizeof(struct vdfs4_comp_extent), sizeof(struct vdfs4_comp_file_descr), and the length of older descriptors
  const EXT_SIZE: nat := 16
  const DESCR_SIZE: nat := 40
  const DESCR_SIZE_05: nat := 32
  const LAYOUT_05: nat := 5
  const LAYOUT_06: nat := 6
  // extents_num is a __le16
  const COUNT_LIMIT: nat := 0x1_0000

  datatype Auth = NoAuth | Md5 | Sha1 | Sha256
  datatype Sign = Unsigned | Rsa1024 | Rsa2048

  function HashLen(a: Auth): nat {
    match a case NoAuth => 0 case Md5 => 16 case Sha1 => 20 case Sha256 => 32
  }

  function SignLen(s: Sign): nat {
    match s case Unsigned => 0 case Rsa1024 => 128 case Rsa2048 => 256
  }

  // the first byte of the magic
  function AuthByte(a: Auth): Byte {
    match a case NoAuth => 67 case Md5 => 73 case Sha1 => 72 case Sha256 => 104
  }

  function AuthOf(b: Byte): Auth {
    if b == 73 then Md5 else if b == 72 then Sha1 else if b == 104 then Sha256 else NoAuth
  }

  function SignByte(s: Sign): Byte {
    match s case Unsigned => 0 case Rsa1024 => 1 case Rsa2048 => 2
  }

  function SignOf(b: Byte): Sign {
    if b == 1 then Rsa1024 else if b == 2 then Rsa2048 else Unsigned
  }

  // ---------- the table ----------

  predicate Fits(e: Ext) {
    e.len < TWO_32 && e.start < TWO_64
  }

  /** An extent: magic "XT", flags, length and start. */
  function EncodeExt(e: Ext): (s: Bytes)
    ensures |s| == EXT_SIZE
  {
    [88, 84] + ToBytes(if e.plain then 1 else 0, 2) + ToBytes(e.len, 4) + Quad(e.start)
  }

  function DecodeExt(s: Bytes): Ext
    requires |s| == EXT_SIZE
  {
    Ext(Le16(s, 2) % 2 == 1, Le64(s, 8), Le32(s, 4))
  }

  lemma {:induction false} ExtBack(e: Ext)
    requires Fits(e)
    ensures DecodeExt(EncodeExt(e)) == e
  {
    var s, f := EncodeExt(e), if e.plain then 1 else 0;
    var len, start := ToBytes(e.len, 4), Quad(e.start);
    Le16Back(f);
    Le32Back(e.len);
    Le64Back(e.start);
    hide ToBytes, Quad;
    assert s == [88, 84] + ToBytes(f, 2) + len + start;
    assert forall k :: 0 <= k < 2 ==> s[2 + k] == ToBytes(f, 2)[k];
    assert forall k :: 0 <= k < 4 ==> s[4 + k] == len[k];
    assert forall k :: 0 <= k < 8 ==> s[8 + k] == start[k];
    assert Le16(s, 2) == Le16(ToBytes(f, 2), 0) && Le32(s, 4) == Le32(len, 0);
    assert Le32(s, 8) == Le32(start, 0) && Le32(s, 12) == Le32(start, 4);
  }

  function EncodeTable(table: seq<Ext>): (s: Bytes)
    ensures |s| == EXT_SIZE * |table|
  {
    if table == [] then [] else EncodeExt(table[0]) + EncodeTable(table[1..])
  }

  function DecodeTable(s: Bytes, n: nat): (table: seq<Ext>)
    requires |s| == EXT_SIZE * n
    ensures |table| == n
  {
    if n == 0 then [] else [DecodeExt(s[..EXT_SIZE])] + DecodeTable(s[EXT_SIZE..], n - 1)
  }

  lemma {:induction false} TableBack(table: seq<Ext>)
    requires forall i :: 0 <= i < |table| ==> Fits(table[i])
    ensures DecodeTable(EncodeTable(table), |table|) == table
  {
    if table != [] {
      hide DecodeExt, EncodeExt, Fits;
      var s := EncodeTable(table);
      assert s[..EXT_SIZE] == EncodeExt(table[0]) && s[EXT_SIZE..] == EncodeTable(table[1..]);
      ExtBack(table[0]);
      TableBack(table[1..]);
    }
  }

  // ---------- the file ----------

  // what the descriptor holds besides: codec is the rest of the magic, tail the fields behind the layout version
  datatype Descr = Descr(auth: Auth, sign: Sign, codec: Bytes, tail: Bytes)

  predicate KnownCodec(m: Bytes) {
    m == [90, 105, 112] || m == [71, 122, 112] || m == [90, 115, 116] || m == [76, 122, 111]
  }

  predicate DescrOk(d: Descr) {
    KnownCodec(d.codec) && |d.tail| == 24 && (d.auth == NoAuth ==> d.sign == Unsigned)
  }

  /** The descriptor: extents_num has sixteen bits. */
  function EncodeDescr(d: Descr, n: nat): (s: Bytes)
    requires DescrOk(d)
    ensures |s| == DESCR_SIZE
  {
    Zeros(7) + [SignByte(d.sign)] + [AuthByte(d.auth)] + d.codec + ToBytes(n, 2) + ToBytes(LAYOUT_06, 2) + d.tail
  }

  /** The bytes of hashes and signature for n chunks. */
  function HashArea(auth: Auth, sign: Sign, n: nat): nat {
    if auth == NoAuth then 0 else HashLen(auth) * (n + 1) + SignLen(sign)
  }

  function FooterLen(auth: Auth, sign: Sign, descrSize: nat, n: nat): nat {
    descrSize + n * EXT_SIZE + HashArea(auth, sign, n)
  }

  /** The file that compress_file writes: chunks, zeros to a multiple of an extent, table, hashes, descriptor. */
  function Image(dst: Bytes, table: seq<Ext>, hashes: Bytes, d: Descr): Bytes
    requires DescrOk(d)
  {
    dst + Zeros((EXT_SIZE - |dst| % EXT_SIZE) % EXT_SIZE) + EncodeTable(table) + hashes + EncodeDescr(d, |table|)
  }

  datatype Loaded = Table(extents: seq<Ext>) | Bad

  /** read_descriptor_info: where the table is follows from the end of the file. */
  function ReadTable(file: Bytes): Loaded {
    if |file| < DESCR_SIZE then Bad
    else
      var s := file[|file| - DESCR_SIZE..];
      if !KnownCodec(s[9..12]) then Bad
      else
        var v05 := Le16(s, 14) == LAYOUT_05;
        var n := Le16(s, 12);
        if n > |file| / EXT_SIZE then Bad
        else if n == 0 then Table([])
        else
          var footer := FooterLen(AuthOf(s[8]), if v05 then Rsa1024 else SignOf(s[7]), if v05 then DESCR_SIZE_05 else DESCR_SIZE, n);
          if footer > |file| then Bad
          else
            var at := |file| - footer;
            Table(DecodeTable(file[at..at + n * EXT_SIZE], n))
  }

  /** What is read of a descriptor that was written: all but the high bits of the number of extents. */
  lemma {:induction false} DescrFields(d: Descr, n: nat)
    requires DescrOk(d)
    ensures var s := EncodeDescr(d, n);
            && s[9..12] == d.codec && AuthOf(s[8]) == d.auth && SignOf(s[7]) == d.sign
            && Le16(s, 14) == LAYOUT_06 && Le16(s, 12) == n % COUNT_LIMIT
  {
    var s := EncodeDescr(d, n);
    Le16Back(n);
    Le16Back(LAYOUT_06);
    hide ToBytes;
    assert s[9..12] == d.codec && s[12..14] == ToBytes(n, 2) && s[14..16] == ToBytes(LAYOUT_06, 2);
    assert forall k :: 0 <= k < 2 ==> s[12 + k] == ToBytes(n, 2)[k] && s[14 + k] == ToBytes(LAYOUT_06, 2)[k];
  }

  /** Where the parts of the file are, counted from its end. */
  lemma {:induction false} Parts(a: Bytes, b: Bytes, c: Bytes, e: Bytes)
    ensures var file := a + b + c + e; var at := |file| - |e| - |c| - |b|;
            file[|file| - |e|..] == e && at >= 0 && file[at..at + |b|] == b
  {
    var file := a + b + c + e;
    assert file == (a + b + c) + e && file == a + (b + (c + e));
    assert file[|a|..] == b + (c + e);
  }

  /** The reader takes for the table what stands before the hashes of as many chunks as the descriptor says. */
  lemma {:induction false} ReadParts(a: Bytes, b: Bytes, c: Bytes, d: Descr, n: nat)
    requires DescrOk(d) && |b| == EXT_SIZE * (n % COUNT_LIMIT) && |c| == HashArea(d.auth, d.sign, n % COUNT_LIMIT)
    ensures ReadTable(a + b + c + EncodeDescr(d, n)) == Table(DecodeTable(b, n % COUNT_LIMIT))
  {
    DescrFields(d, n);
    hide DecodeTable, EncodeDescr, HashArea, AuthOf, SignOf, KnownCodec;
    assert KnownCodec(EncodeDescr(d, n)[9..12]);
    Parts(a, b, c, EncodeDescr(d, n));
  }

  // ---------- any file ----------

  /** The codec's part of the magic, where it is looked for. */
  function MagicAt(file: Bytes): Bytes
    requires |file| >= DESCR_SIZE
  {
    file[|file| - 31..|file| - 28]
  }

  /** The number of extents in the descriptor. */
  function CountAt(file: Bytes): nat
    requires |file| >= DESCR_SIZE
  {
    Le16(file, |file| - 28)
  }

  /** The bytes from the table to the end of the file, as the descriptor has it. */
  function FooterAt(file: Bytes): nat
    requires |file| >= DESCR_SIZE
  {
    var old5 := Le16(file, |file| - 26) == LAYOUT_05;
    FooterLen(AuthOf(file[|file| - 32]), if old5 then Rsa1024 else SignOf(file[|file| - 33]),
              if old5 then DESCR_SIZE_05 else DESCR_SIZE, CountAt(file))
  }

  /**
   Which files are taken for compressed ones: those with room for a descriptor, a known magic and
   room for the table, if it is not empty.  The test of the number of extents alone refuses no other.
   */
  lemma {:induction false} RefusedExactly(file: Bytes)
    ensures ReadTable(file).Bad? <==>
            |file| < DESCR_SIZE || !KnownCodec(MagicAt(file)) || (CountAt(file) > 0 && FooterAt(file) > |file|)
    ensures ReadTable(file).Table? ==> |ReadTable(file).extents| == CountAt(file)
  {
    if |file| >= DESCR_SIZE {
      var s := file[|file| - DESCR_SIZE..];
      assert s[9..12] == MagicAt(file) && Le16(s, 12) == CountAt(file) && Le16(s, 14) == Le16(file, |file| - 26);
      assert s[8] == file[|file| - 32] && s[7] == file[|file| - 33];
      hide KnownCodec, AuthOf, SignOf, Le16, HashArea;
      assert CountAt(file) > |file| / EXT_SIZE ==> CountAt(file) * EXT_SIZE > |file|;
    }
  }

  // ---------- files of layout 5 ----------

  /** The descriptor of layout 5 starts with the magic, and its signature is always of the same kind. */
  function EncodeDescr05(d: Descr, n: nat): (s: Bytes)
    requires DescrOk(d)
    ensures |s| == DESCR_SIZE_05
  {
    [AuthByte(d.auth)] + d.codec + ToBytes(n, 2) + ToBytes(LAYOUT_05, 2) + d.tail
  }

  function Image05(dst: Bytes, table: seq<Ext>, hashes: Bytes, d: Descr): Bytes
    requires DescrOk(d)
  {
    dst + Zeros((EXT_SIZE - |dst| % EXT_SIZE) % EXT_SIZE) + EncodeTable(table) + hashes + EncodeDescr05(d, |table|)
  }

  lemma {:induction false} DescrFields05(file: Bytes, lead: Bytes, d: Descr, n: nat)
    requires DescrOk(d) && file == lead + EncodeDescr05(d, n) && |lead| >= 8
    ensures |file| >= DESCR_SIZE && MagicAt(file) == d.codec && CountAt(file) == n % COUNT_LIMIT
    ensures FooterAt(file) == FooterLen(d.auth, Rsa1024, DESCR_SIZE_05, n % COUNT_LIMIT)
  {
    var s := EncodeDescr05(d, n);
    Le16Back(n);
    Le16Back(LAYOUT_05);
    hide ToBytes, FooterLen;
    assert forall k :: 0 <= k < DESCR_SIZE_05 ==> file[|lead| + k] == s[k];
    assert s[1..4] == d.codec && s[0] == AuthByte(d.auth);
    assert forall k :: 0 <= k < 2 ==> s[4 + k] == ToBytes(n, 2)[k] && s[6 + k] == ToBytes(LAYOUT_05, 2)[k];
  }

  /** Where the table is, in a file that is taken for a compressed one. */
  lemma {:induction false} TableAt(file: Bytes, at: int, n: nat)
    requires |file| >= DESCR_SIZE && KnownCodec(MagicAt(file)) && n == CountAt(file) && at == |file| - FooterAt(file) >= 0
    ensures at + n * EXT_SIZE <= |file| && ReadTable(file) == Table(DecodeTable(file[at..at + n * EXT_SIZE], n))
  {
    RefusedExactly(file);
    var s := file[|file| - DESCR_SIZE..];
    assert s[9..12] == MagicAt(file) && Le16(s, 12) == CountAt(file) && Le16(s, 14) == Le16(file, |file| - 26);
    assert s[8] == file[|file| - 32] && s[7] == file[|file| - 33];
    hide KnownCodec, AuthOf, SignOf, Le16, HashArea;
  }

  lemma {:induction false} ReadParts05(a: Bytes, b: Bytes, c: Bytes, d: Descr, n: nat)
    requires DescrOk(d) && |b| == EXT_SIZE * (n % COUNT_LIMIT) && |c| == HashArea(d.auth, Rsa1024, n % COUNT_LIMIT)
    requires |a + b + c| >= 8
    ensures ReadTable(a + b + c + EncodeDescr05(d, n)) == Table(DecodeTable(b, n % COUNT_LIMIT))
  {
    hide DecodeTable, EncodeDescr05, HashArea, KnownCodec, MagicAt, CountAt, FooterAt, ReadTable;
    var e := EncodeDescr05(d, n);
    var file := a + b + c + e;
    DescrFields05(file, a + b + c, d, n);
    Parts(a, b, c, e);
    TableAt(file, |file| - |e| - |c| - |b|, n % COUNT_LIMIT);
  }

  /**
   The table of a file of layout 5 is found exactly when it has fewer than 65536 extents and the file has
   room for the newer descriptor.
   */
  lemma {:induction false} Table05Found(dst: Bytes, table: seq<Ext>, hashes: Bytes, d: Descr)
    requires DescrOk(d) && |hashes| == HashArea(d.auth, Rsa1024, |table|)
    requires forall i :: 0 <= i < |table| ==> Fits(table[i])
    ensures var file := Image05(dst, table, hashes, d);
            ReadTable(file) == Table(table) <==> |table| < COUNT_LIMIT && |file| >= DESCR_SIZE
  {
    var lead := dst + Zeros((EXT_SIZE - |dst| % EXT_SIZE) % EXT_SIZE);
    TableBack(table);
    Found05(lead, EncodeTable(table), hashes, table, d);
  }

  lemma {:induction false} Found05(lead: Bytes, bytes: Bytes, hashes: Bytes, table: seq<Ext>, d: Descr)
    requires DescrOk(d) && |hashes| == HashArea(d.auth, Rsa1024, |table|)
    requires |bytes| == EXT_SIZE * |table| && DecodeTable(bytes, |table|) == table
    ensures var file := lead + bytes + hashes + EncodeDescr05(d, |table|);
            ReadTable(file) == Table(table) <==> |table| < COUNT_LIMIT && |file| >= DESCR_SIZE
  {
    hide DecodeTable, HashArea, EncodeDescr05, ReadTable, DescrOk;
    var front, n := lead + bytes + hashes, |table|;
    var file := front + EncodeDescr05(d, n);
    assert |file| == |front| + DESCR_SIZE_05;
    if |front| >= 8 && n < COUNT_LIMIT { ReadParts05(lead, bytes, hashes, d, n); }
    if |front| < 8 || n >= COUNT_LIMIT { NotFound05(front, table, d); }
  }

  lemma {:induction false} NotFound05(front: Bytes, table: seq<Ext>, d: Descr)
    requires DescrOk(d) && (|front| < 8 || |table| >= COUNT_LIMIT)
    ensures ReadTable(front + EncodeDescr05(d, |table|)) != Table(table)
  {
    hide EncodeDescr05, ReadTable, KnownCodec, MagicAt, CountAt, FooterAt;
    var file := front + EncodeDescr05(d, |table|);
    RefusedExactly(file);
    if |front| >= 8 { DescrFields05(file, front, d, |table|); }
  }

  lemma {:induction false} EncodeConcat(s: seq<Ext>, t: seq<Ext>)
    ensures EncodeTable(s + t) == EncodeTable(s) + EncodeTable(t)
  {
    if s == [] {
      assert s + t == t;
    } else {
      hide EncodeExt;
      assert (s + t)[1..] == s[1..] + t;
      EncodeConcat(s[1..], t);
    }
  }

  /** Without hashes, or with few enough chunks, the table read is the end of the one written. */
  lemma {:induction false} TailRead(dst: Bytes, table: seq<Ext>, hashes: Bytes, d: Descr)
    requires DescrOk(d) && |hashes| == HashArea(d.auth, d.sign, |table|)
    requires d.auth == NoAuth || |table| < COUNT_LIMIT
    requires forall i :: |table| - |table| % COUNT_LIMIT <= i < |table| ==> Fits(table[i])
    ensures ReadTable(Image(dst, table, hashes, d)) == Table(table[|table| - |table| % COUNT_LIMIT..])
  {
    hide Fits, EncodeTable, DecodeTable, EncodeDescr, ReadTable, Zeros, DescrOk;
    var n, m := |table|, |table| % COUNT_LIMIT;
    var s, t := table[..n - m], table[n - m..];
    assert s + t == table;
    EncodeConcat(s, t);
    TableBack(t);
    var lead := dst + Zeros((EXT_SIZE - |dst| % EXT_SIZE) % EXT_SIZE);
    ReadParts(lead + EncodeTable(s), EncodeTable(t), hashes, d, n);
    assert lead + (EncodeTable(s) + EncodeTable(t)) == lead + EncodeTable(s) + EncodeTable(t);
  }

  /** Where in the hashes the reader looks for the table of a file with too many chunks. */
  function Astray(auth: Auth, n: nat): int {
    HashLen(auth) * (n - n % COUNT_LIMIT) - EXT_SIZE * (n % COUNT_LIMIT)
  }

  lemma {:induction false} AstrayInside(auth: Auth, sign: Sign, n: nat)
    requires auth != NoAuth && n >= COUNT_LIMIT
    ensures var m, at := n % COUNT_LIMIT, Astray(auth, n);
            0 <= at && at + EXT_SIZE * m + HashArea(auth, sign, m) == HashArea(auth, sign, n)
  {
    var m := n % COUNT_LIMIT;
    assert n - m >= COUNT_LIMIT;
    match auth case Md5 => case Sha1 => case Sha256 =>
  }

  /** With hashes and too many chunks, bytes of the hashes are taken for the table. */
  lemma {:induction false} HashRead(dst: Bytes, table: seq<Ext>, hashes: Bytes, d: Descr)
    requires DescrOk(d) && |hashes| == HashArea(d.auth, d.sign, |table|)
    requires d.auth != NoAuth && |table| >= COUNT_LIMIT
    ensures var m, at := |table| % COUNT_LIMIT, Astray(d.auth, |table|);
            && 0 <= at && at + EXT_SIZE * m <= |hashes|
            && ReadTable(Image(dst, table, hashes, d)) == Table(DecodeTable(hashes[at..at + EXT_SIZE * m], m))
  {
    hide EncodeTable, DecodeTable, EncodeDescr, ReadTable, Zeros, DescrOk;
    var n := |table|;
    var m, at := n % COUNT_LIMIT, Astray(d.auth, n);
    AstrayInside(d.auth, d.sign, n);
    hide Astray, HashArea;
    var x, y, z := hashes[..at], hashes[at..at + EXT_SIZE * m], hashes[at + EXT_SIZE * m..];
    var lead := dst + Zeros((EXT_SIZE - |dst| % EXT_SIZE) % EXT_SIZE) + EncodeTable(table);
    assert hashes == x + y + z;
    ReadParts(lead + x, y, z, d, n);
    assert lead + hashes == lead + x + y + z;
  }

  /**
   The table is found again exactly when its number of extents fits into the sixteen bits of the
   descriptor: with more chunks only the remainder is read, from another place.
   */
  lemma {:induction false} TableFound(dst: Bytes, table: seq<Ext>, hashes: Bytes, d: Descr)
    requires DescrOk(d) && |hashes| == HashArea(d.auth, d.sign, |table|)
    requires forall i :: 0 <= i < |table| ==> Fits(table[i])
    ensures ReadTable(Image(dst, table, hashes, d)) == Table(table) <==> |table| < COUNT_LIMIT
  {
    hide Fits, DecodeTable, ReadTable, HashArea, Astray;
    if d.auth == NoAuth || |table| < COUNT_LIMIT {
      TailRead(dst, table, hashes, d);
      assert table[0..] == table;
    } else {
      HashRead(dst, table, hashes, d);
    }
  }

  /** The extents of a file of less than 2^64 bytes can be written down. */
  lemma {:induction false} AllFit(codec: Codec, par: Params, table: seq<Ext>, dst: Bytes, size: nat, chunks: seq<Bytes>)
    requires |chunks| == |table| && Readable(codec, table, dst, chunks) && |dst| <= size < TWO_64
    requires par.chunkSize < TWO_32 && forall i :: 0 <= i < |table| ==> table[i].len <= par.chunkSize
    ensures forall i :: 0 <= i < |table| ==> Fits(table[i])
  {
    hide Restore;
    forall i | 0 <= i < |table| ensures Fits(table[i]) {
      assert ReadableAt(codec, table[i], dst, chunks[i]);
    }
  }

  lemma {:induction false} ImageExtends(dst: Bytes, table: seq<Ext>, hashes: Bytes, d: Descr)
    requires DescrOk(d)
    ensures var file := Image(dst, table, hashes, d); |dst| <= |file| && file == dst + file[|dst|..]
  {
    hide EncodeTable, EncodeDescr;
    var file := Image(dst, table, hashes, d);
    assert file[..|dst|] == dst;
  }

  /** The table that is found in the file decodes to the chunks. */
  ghost predicate Decodes(codec: Codec, file: Bytes, chunks: seq<Bytes>) {
    var t := ReadTable(file);
    t.Table? && |t.extents| == |chunks| && Readable(codec, t.extents, file, chunks)
  }

  /** The decoder on nothing but the bytes of the file; a file that is no compressed one is refused. */
  method Load(codec: Codec, file: Bytes, ghost chunks: seq<Bytes>) returns (r: Decoded)
    ensures r == Invalid <==>
            |file| < DESCR_SIZE || !KnownCodec(MagicAt(file)) || (CountAt(file) > 0 && FooterAt(file) > |file|)
    ensures ReadTable(file).Table? ==> r == Unpacked(codec, ReadTable(file).extents, file)
    ensures Decodes(codec, file, chunks) ==> r == Data(Upto(chunks, |chunks|))
  {
    hide ReadTable, Readable, Upto, KnownCodec, MagicAt, CountAt, FooterAt, Pieces, Stop;
    RefusedExactly(file);
    var t := ReadTable(file);
    if t.Bad? {
      return Invalid;
    }
    r := Decompress(codec, t.extents, file);
    if Decodes(codec, file, chunks) { ReadablePieces(codec, t.extents, file, chunks); }
  }

  // ---------- what is left of a file ----------

  function After(s: Bytes, k: nat): Bytes {
    if k <= |s| then s[k..] else []
  }

  /** Numbers below the widths of the extents' fields: the length of a chunk, and every place in the file. */
  predicate Addressable(par: Params, file: Bytes) {
    par.chunkSize < TWO_32 && |file| < TWO_64
  }

  /** The table that is read decodes to the last chunks: their number is that of all chunks modulo 2^16. */
  lemma {:induction false} ImageDecodes(codec: Codec, par: Params, dst: Bytes, table: seq<Ext>, hashes: Bytes, d: Descr,
                                        chunks: seq<Bytes>)
    requires DescrOk(d) && |hashes| == HashArea(d.auth, d.sign, |table|)
    requires |chunks| == |table| && Readable(codec, table, dst, chunks)
    requires forall i :: 0 <= i < |table| ==> table[i].len <= par.chunkSize
    requires |table| % COUNT_LIMIT == 0
          || (Addressable(par, Image(dst, table, hashes, d)) && (d.auth == NoAuth || |table| < COUNT_LIMIT))
    ensures Decodes(codec, Image(dst, table, hashes, d), chunks[|chunks| - |chunks| % COUNT_LIMIT..])
  {
    hide Image, ReadTable, HashArea, DecodeTable, Restore;
    var file, k := Image(dst, table, hashes, d), |table| - |table| % COUNT_LIMIT;
    ImageExtends(dst, table, hashes, d);
    if d.auth == NoAuth || |table| < COUNT_LIMIT {
      if Addressable(par, file) { AllFit(codec, par, table, dst, |file|, chunks); }
      TailRead(dst, table, hashes, d);
      ReadableLonger(codec, table, dst, file[|dst|..], chunks);
      assert forall i :: 0 <= i < |table| - k ==> ReadableAt(codec, table[k..][i], file, chunks[k..][i]);
    } else {
      HashRead(dst, table, hashes, d);
    }
  }

  lemma {:induction false} UptoSplit(chunks: seq<Bytes>, k: nat, j: nat)
    requires k + j <= |chunks|
    ensures Upto(chunks, k + j) == Upto(chunks, k) + Upto(chunks[k..], j)
  {
    if j > 0 { UptoSplit(chunks, k, j - 1); }
  }

  lemma {:induction false} UptoLength(par: Params, chunks: seq<Bytes>, k: nat)
    requires ChunksOk(par, chunks) && k <= |chunks|
    ensures |Upto(chunks, k)| <= k * par.chunkSize && (k < |chunks| ==> |Upto(chunks, k)| == k * par.chunkSize)
    ensures k > 0 ==> |Upto(chunks, k)| > 0
  {
    if k > 0 {
      UptoLength(par, chunks, k - 1);
      assert k * par.chunkSize == (k - 1) * par.chunkSize + par.chunkSize;
    }
  }

  /** The chunks from the k-th on are the file from its k * chunk_size-th byte on. */
  lemma {:induction false} TailOfChunks(par: Params, chunks: seq<Bytes>, src: Bytes, k: nat)
    requires ChunksOk(par, chunks) && Upto(chunks, |chunks|) == src && k <= |chunks|
    ensures Upto(chunks[k..], |chunks| - k) == After(src, k * par.chunkSize)
    ensures k > 0 ==> |Upto(chunks[k..], |chunks| - k)| < |src|
  {
    UptoSplit(chunks, k, |chunks| - k);
    UptoLength(par, chunks, k);
    hide ChunksOk, Upto;
  }

  /**
   From a file to its compressed form as bytes, and back: for every file, every interleaving of
   the workers, every kind of hash and signature, and whatever hashes are written.  The number of
   chunks has sixteen bits in the descriptor, so the file comes back if and only if it has fewer
   than 65536 chunks; of a longer one without hashes only the last chunks do, and nothing when
   their number is a multiple of 65536.
   */
  method StoreAndLoad(codec: Codec, par: Params, src: Bytes, schedule: seq<Step>, hashes: Bytes, d: Descr)
    returns (file: Bytes, r: Decoded)
    requires ParamsOk(par) && RoundTrips(codec, par) && DescrOk(d)
    requires var n := (|src| + par.chunkSize - 1) / par.chunkSize;
             Interleaving(schedule, n) && |hashes| == HashArea(d.auth, d.sign, n)
    ensures var n := (|src| + par.chunkSize - 1) / par.chunkSize;
            && (Addressable(par, file) && n < COUNT_LIMIT ==> r == Data(src))
            && (Addressable(par, file) && d.auth == NoAuth ==>
                  && r == Data(After(src, (n - n % COUNT_LIMIT) * par.chunkSize))
                  && (r == Data(src) <==> n < COUNT_LIMIT))
            && (n > 0 && n % COUNT_LIMIT == 0 ==> r == Data([]) != Data(src))
  {
    hide RoundTrips, Interleaving, Image, BlocksN, HashArea, Decodes, KnownCodec, MagicAt, CountAt, FooterAt, StoredAs, Readable, Upto, After, ChunksOk, Addressable;
    var table, dst, size, chunks := CompressFile(codec, par, src, schedule);
    file := Image(dst, table, hashes, d);
    ghost var k := |chunks| - |chunks| % COUNT_LIMIT;
    r := Load(codec, file, chunks[k..]);
    TailOfChunks(par, chunks, src, k);
    UptoStep(chunks[k..], 0);
    if |table| % COUNT_LIMIT == 0 || (Addressable(par, file) && (d.auth == NoAuth || |table| < COUNT_LIMIT)) {
      ImageDecodes(codec, par, dst, table, hashes, d, chunks);
    }
  }

  /** A file of 256 MiB in chunks of one block is written, and nothing of it comes back. */
  method LongFile(codec: Codec, d: Descr) returns (src: Bytes, file: Bytes, r: Decoded)
    requires RoundTrips(codec, Params(BLOCK, 0, 0)) && DescrOk(d)
    ensures |src| == 0x1000_0000 && r == Data([])
  {
    hide RoundTrips, Interleaving, OneByOne, HashArea;
    src := Zeros(0x1000_0000);
    OneByOneOk(COUNT_LIMIT);
    file, r := StoreAndLoad(codec, Params(BLOCK, 0, 0), src, OneByOne(COUNT_LIMIT), Zeros(HashArea(d.auth, d.sign, COUNT_LIMIT)), d);
  }
}
