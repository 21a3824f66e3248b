/**
 How one chunk of a file is stored (vdfs-tools/lib/compress.c), and the arithmetic of where
 a stored chunk may start.  The codec is a pair of functions that undo each other.
 */
module ChunkCodec {
  import opened PageMemory
  import opened Division

  type Bytes = seq<Byte>

  const BLOCK: nat := 4096
  // HW_DECOMPRESSOR_PAGES_NUM pages
  const MAX_PACKED: nat := 32 * 4096

  datatype Codec = Codec(enc: Bytes -> Bytes, dec: Bytes -> Bytes)

  function Zeros(n: nat): (z: Bytes)
    ensures |z| == n
  {
    seq<Byte>(n, _ => 0)
  }

  // align is the entry of compr_align: 64 for zlib and gzip, 0 for the others
  datatype Params = Params(chunkSize: nat, align: nat, minRatio: nat)

  predicate ParamsOk(par: Params) {
    && par.chunkSize >= BLOCK && par.chunkSize % BLOCK == 0
    && (par.align == 0 || par.align == 64)
    && par.minRatio <= 100
  }

  /**
   A codec never answers with nothing, and what it makes of a chunk is undone.  Zeros behind its
   output must not disturb it only where alignment adds them: fewer than align, none for align 0.
   */
  ghost predicate RoundTrips(codec: Codec, par: Params) {
    forall c :: 0 < |c| <= par.chunkSize ==>
      && |codec.enc(c)| > 0
      && forall k: nat :: k == 0 || k < par.align ==> codec.dec(codec.enc(c) + Zeros(k)) == c
  }

  function AlignUp(len: nat, align: nat): (r: nat)
    requires align == 0 || align == 64
    ensures len <= r && (align == 64 ==> r < len + 64 && r % 64 == 0) && (align == 0 ==> r == len)
  {
    if align == 0 then len else (len + 63) / 64 * 64
  }

  // plain: the chunk is kept as it is.  data is what goes to the temporary file, len its part that counts
  datatype Stored = Stored(plain: bool, len: nat, data: Bytes)

  function Plain(par: Params, chunk: Bytes): Stored
    requires ParamsOk(par)
  {
    Stored(true, |chunk|, chunk + Zeros(AlignUp(|chunk|, par.align) - |chunk|))
  }

  /** compress_chunk, and what compress_chunk_thread writes for it. */
  function Store(codec: Codec, par: Params, chunk: Bytes): (s: Stored)
    requires ParamsOk(par) && chunk != []
  {
    var c := codec.enc(chunk);
    if 100 - |c| * 100 / |chunk| <= par.minRatio then Plain(par, chunk)
    else
      var len := AlignUp(|c|, par.align);
      if len > MAX_PACKED then Plain(par, chunk) else Stored(false, len, c + Zeros(len - |c|))
  }

  /** The body of the loop of decompress_file, on the bytes it has read. */
  function Restore(codec: Codec, plain: bool, data: Bytes): Bytes {
    if plain then data else codec.dec(data)
  }

  lemma {:induction false} Aligned(len: nat, chunkSize: nat, align: nat)
    requires len <= chunkSize && chunkSize % BLOCK == 0 && (align == 0 || align == 64)
    ensures AlignUp(len, align) <= chunkSize && AlignUp(chunkSize, align) == chunkSize
  {
    var k := 64 * (chunkSize / BLOCK);
    assert chunkSize == 64 * k;
    assert (len + 63) / 64 <= k;
    assert (chunkSize + 63) / 64 == k;
  }

  /** A ratio above the limit means that the codec has made the chunk smaller. */
  lemma {:induction false} Smaller(c: nat, len: nat, minRatio: nat)
    requires len > 0 && 100 - c * 100 / len > minRatio
    ensures c < len
  {
    var q := c * 100 / len;
    assert c * 100 == len * q + c * 100 % len;
    assert len * q <= len * 99;
  }

  /**
   A chunk stays as it is exactly when the codec saves too little of it, in per cent, or when its
   compressed form, aligned, is longer than the hardware can take.
   */
  ghost predicate KeptPlain(codec: Codec, par: Params, chunk: Bytes)
    requires ParamsOk(par)
  {
    || 100 * |codec.enc(chunk)| >= (100 - par.minRatio) * |chunk|
    || AlignUp(|codec.enc(chunk)|, par.align) > MAX_PACKED
  }

  /** The bytes that stand for a chunk: itself, or its compressed form with the zeros of the alignment. */
  ghost function Form(codec: Codec, par: Params, chunk: Bytes): (f: Bytes)
    requires ParamsOk(par)
    ensures !KeptPlain(codec, par, chunk) ==> codec.enc(chunk) <= f
  {
    if KeptPlain(codec, par, chunk) then chunk
    else codec.enc(chunk) + Zeros(AlignUp(|codec.enc(chunk)|, par.align) - |codec.enc(chunk)|)
  }

  lemma {:induction false} RatioIsShare(c: nat, len: nat, minRatio: nat)
    requires len > 0 && minRatio <= 100
    ensures 100 - c * 100 / len <= minRatio <==> 100 * c >= (100 - minRatio) * len
  {
    var q, k := c * 100 / len, 100 - minRatio;
    DivNat(c * 100, len);
    if q >= k { Product(len, k, q); } else { Further(len, q, k); }
  }

  /** Which chunks are compressed, and the bytes that are stored for each. */
  lemma {:induction false} StoreChoice(codec: Codec, par: Params, chunk: Bytes)
    requires ParamsOk(par) && chunk != []
    ensures var s := Store(codec, par, chunk);
            && (s.plain <==> KeptPlain(codec, par, chunk))
            && s.len == |Form(codec, par, chunk)| <= |s.data| && s.data[..s.len] == Form(codec, par, chunk)
  {
    var s, c := Store(codec, par, chunk), codec.enc(chunk);
    RatioIsShare(|c|, |chunk|, par.minRatio);
    if s.plain {
      assert s.data[..s.len] == chunk;
    } else {
      assert s.data[..s.len] == s.data;
    }
  }

  /** What is stored for a chunk, decoded, is the chunk; a compressed one is never longer than a chunk. */
  lemma {:induction false} StoreRestores(codec: Codec, par: Params, chunk: Bytes)
    requires ParamsOk(par) && RoundTrips(codec, par) && 0 < |chunk| <= par.chunkSize
    ensures var s := Store(codec, par, chunk);
            && 0 < s.len <= par.chunkSize && s.len <= |s.data| <= par.chunkSize
            && (s.plain ==> s.len == |chunk| && |s.data| == AlignUp(|chunk|, par.align))
            && (!s.plain ==> |s.data| == s.len <= MAX_PACKED)
            && Restore(codec, s.plain, s.data[..s.len]) == chunk
  {
    var s, c := Store(codec, par, chunk), codec.enc(chunk);
    if s.plain {
      Aligned(|chunk|, par.chunkSize, par.align);
      assert s.data[..s.len] == chunk;
    } else {
      Smaller(|c|, |chunk|, par.minRatio);
      Aligned(|c|, par.chunkSize, par.align);
      assert codec.dec(c + Zeros(s.len - |c|)) == chunk;
      assert s.data[..s.len] == s.data;
    }
  }

  /** blocks_n as __get_chunk_extent of the kernel counts it. */
  function BlocksN(start: nat, len: nat): int {
    (start + len + BLOCK - 1) / BLOCK - start / BLOCK
  }

  /** The zeros compress_file writes before a compressed chunk. */
  function Padding(cur: nat, len: nat, chunkSize: nat): int {
    var over := len + cur % BLOCK - chunkSize;
    if over > 0 then BLOCK - over else 0
  }

  lemma {:induction false} BlocksOfOffset(start: nat, len: nat, q: nat)
    requires len > 0
    ensures BlocksN(start, len) <= q <==> start % BLOCK + len <= q * BLOCK
  {
    var o := start % BLOCK;
    assert start == BLOCK * (start / BLOCK) + o;
    assert BlocksN(start, len) == (o + len + BLOCK - 1) / BLOCK;
  }

  /** With the padding every compressed chunk spans at most the blocks of a chunk. */
  lemma {:induction false} PaddingFits(cur: nat, len: nat, chunkSize: nat)
    requires 0 < len <= chunkSize && chunkSize % BLOCK == 0
    ensures 0 <= Padding(cur, len, chunkSize) < BLOCK
    ensures BlocksN(cur + Padding(cur, len, chunkSize), len) <= chunkSize / BLOCK
  {
    var pad, q := Padding(cur, len, chunkSize), chunkSize / BLOCK;
    assert chunkSize == q * BLOCK;
    if pad > 0 {
      assert cur + pad + len == BLOCK * (cur / BLOCK) + BLOCK + q * BLOCK;
      BlocksOfOffset(cur + pad, len, q);
      EndOfBlock(cur + pad, len, q);
    } else {
      BlocksOfOffset(cur, len, q);
    }
  }

  /** A chunk that ends with a block and is no longer than q blocks spans at most q. */
  lemma {:induction false} EndOfBlock(start: nat, len: nat, q: nat)
    requires 0 < len <= q * BLOCK && (start + len) % BLOCK == 0
    ensures start % BLOCK + len <= q * BLOCK
  {
    var o := start % BLOCK;
    assert start == BLOCK * (start / BLOCK) + o;
    var e := (start + len) / BLOCK - start / BLOCK;
    assert o + len == BLOCK * e;
  }

  /** The padding is written exactly when the chunk would span too many blocks without it. */
  lemma {:induction false} PaddingNeeded(cur: nat, len: nat, chunkSize: nat)
    requires 0 < len <= chunkSize && chunkSize % BLOCK == 0
    ensures Padding(cur, len, chunkSize) > 0 <==> BlocksN(cur, len) > chunkSize / BLOCK
  {
    BlocksOfOffset(cur, len, chunkSize / BLOCK);
  }
}
