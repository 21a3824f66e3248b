/**
 Building and reading a compressed file.  The workers append the stored chunks to the
 temporary files in any order; the layout then writes the final file; the decoder reads it.
 */
module CompressedFileModule {
  import opened ChunkCodec
  import opened ChunkLayout
  import opened Division

  /** The first k chunks of the file, one after the other. */
  ghost function Upto(chunks: seq<Bytes>, k: nat): Bytes
    requires k <= |chunks|
  {
    if k == 0 then [] else Upto(chunks, k - 1) + chunks[k - 1]
  }

  /** Every chunk but the last is full, and none is empty. */
  ghost predicate ChunksOk(par: Params, chunks: seq<Bytes>) {
    && (forall i :: 0 <= i < |chunks| ==> 0 < |chunks[i]| <= par.chunkSize)
    && (forall i :: 0 <= i < |chunks| - 1 ==> |chunks[i]| == par.chunkSize)
  }

  /** The read loop of compress_file: as many chunks as ALIGN(size, chunk_size) / chunk_size says. */
  method ReadChunks(par: Params, src: Bytes) returns (chunks: seq<Bytes>)
    requires ParamsOk(par)
    ensures ChunksOk(par, chunks) && Upto(chunks, |chunks|) == src
    ensures |chunks| == (|src| + par.chunkSize - 1) / par.chunkSize
  {
    chunks := [];
    var at := 0;
    while at < |src|
      invariant at <= |src| && ReadSoFar(par.chunkSize, |src|, |chunks|, at)
      invariant at < |src| ==> forall i :: 0 <= i < |chunks| ==> |chunks[i]| == par.chunkSize
      invariant ChunksOk(par, chunks) && Upto(chunks, |chunks|) == src[..at]
      decreases |src| - at
    {
      hide ReadSoFar;
      var end := if at + par.chunkSize <= |src| then at + par.chunkSize else |src|;
      OneRead(par.chunkSize, |src|, |chunks|, at);
      UptoLonger(chunks, src[at..end], |chunks|);
      assert src[..at] + src[at..end] == src[..end];
      chunks := chunks + [src[at..end]];
      at := end;
    }
    assert src[..at] == src;
    CountChunks(|chunks|, |src|, par.chunkSize);
  }

  /** After n reads: n full chunks, or the end of the file inside or at the end of the last one. */
  ghost predicate ReadSoFar(size: nat, total: nat, n: nat, at: nat) {
    && (at == n * size || at == total <= n * size)
    && (n == 0 || (n - 1) * size < total)
  }

  lemma {:induction false} OneRead(size: nat, total: nat, n: nat, at: nat)
    requires size > 0 && at < total && ReadSoFar(size, total, n, at)
    ensures ReadSoFar(size, total, n + 1, if at + size <= total then at + size else total)
  {
    assert (n + 1) * size == n * size + size;
  }

  lemma {:induction false} UptoLonger(chunks: seq<Bytes>, c: Bytes, k: nat)
    requires k <= |chunks|
    ensures Upto(chunks + [c], k) == Upto(chunks, k)
  {
    if k > 0 { UptoLonger(chunks, c, k - 1); }
  }

  lemma {:induction false} CountChunks(n: nat, size: nat, chunkSize: nat)
    requires chunkSize > 0 && size <= n * chunkSize && (n == 0 || (n - 1) * chunkSize < size)
    ensures n == (size + chunkSize - 1) / chunkSize
  {
    var r := size + chunkSize - 1 - n * chunkSize;
    assert 0 <= r < chunkSize;
    assert size + chunkSize - 1 == n * chunkSize + r;
    DivMod(chunkSize, n, r);
  }

  /** What every worker will store, and that it can be read back. */
  ghost function StoredAll(codec: Codec, par: Params, chunks: seq<Bytes>): (st: seq<Stored>)
    requires ParamsOk(par) && ChunksOk(par, chunks)
    ensures |st| == |chunks| && forall i :: 0 <= i < |st| ==> st[i] == Store(codec, par, chunks[i])
  {
    seq(|chunks|, i requires 0 <= i < |chunks| => Store(codec, par, chunks[i]))
  }

  lemma {:induction false} WeightStep(w: seq<nat>, s: set<nat>, k: nat)
    requires k < |w|
    ensures Weight(w, s, k + 1) == Weight(w, s, k) + if k in s then w[k] else 0
  {
  }

  /**
   The chunks appended so far are in the temporary files: each file is tiled by the chunks of its
   kind in the order they came.
   */
  ghost predicate Progress(st: seq<Stored>, table: seq<Ext>, plainTmp: Bytes, packedTmp: Bytes,
                           appended: set<nat>, plainOrder: seq<nat>, order: seq<nat>) {
    && AllKept(st, table, plainTmp, packedTmp, appended)
    && Tiles(st, table, plainTmp, appended, plainOrder, true)
    && Tiles(st, table, packedTmp, appended, order, false)
  }

  ghost predicate Tiles(st: seq<Stored>, table: seq<Ext>, tmp: Bytes, appended: set<nat>, order: seq<nat>, plain: bool) {
    && Tiled(st, table, order, plain)
    && (forall i :: i in appended && i < |st| && st[i].plain == plain ==> i in order)
    && (forall i :: i in order ==> i in appended)
    && |tmp| == Before(st, order, |order|)
  }

  lemma {:induction false} ProgressFacts(st: seq<Stored>, table: seq<Ext>, plainTmp: Bytes, packedTmp: Bytes,
                                         appended: set<nat>, plainOrder: seq<nat>, order: seq<nat>)
    requires Progress(st, table, plainTmp, packedTmp, appended, plainOrder, order)
    ensures |table| == |st| && forall i :: i in appended ==> i < |st|
  {
  }

  /** The append of one chunk, as the file it goes to sees it and as the other one does. */
  lemma {:induction false} TilesNext(st: seq<Stored>, table: seq<Ext>, tmp: Bytes, appended: set<nat>, order: seq<nat>,
                                     plain: bool, i: nat, e: Ext)
    requires Tiles(st, table, tmp, appended, order, plain) && i < |st| && i !in appended && |st[i].data| > 0
    ensures st[i].plain == plain && e.start == |tmp| ==>
              Tiles(st, table[i := e], tmp + st[i].data, appended + {i}, order + [i], plain)
    ensures st[i].plain != plain ==> Tiles(st, table[i := e], tmp, appended + {i}, order, plain)
  {
    hide Before;
    assert i !in order;
    if st[i].plain != plain {
      TiledOther(st, table, order, plain, i, e);
    } else if e.start == |tmp| {
      TiledAppend(st, table, order, plain, i, e);
    }
  }

  lemma {:induction false} ProgressNext(st: seq<Stored>, table: seq<Ext>, plainTmp: Bytes, packedTmp: Bytes,
                                        appended: set<nat>, plainOrder: seq<nat>, order: seq<nat>, i: nat)
    requires Progress(st, table, plainTmp, packedTmp, appended, plainOrder, order)
    requires i < |st| && i !in appended && |st[i].data| > 0
    ensures |table| == |st|
    ensures st[i].plain ==>
              Progress(st, table[i := Ext(true, |plainTmp|, st[i].len)], plainTmp + st[i].data, packedTmp,
                       appended + {i}, plainOrder + [i], order)
    ensures !st[i].plain ==>
              Progress(st, table[i := Ext(false, |packedTmp|, st[i].len)], plainTmp, packedTmp + st[i].data,
                       appended + {i}, plainOrder, order + [i])
  {
    var e := Ext(st[i].plain, if st[i].plain then |plainTmp| else |packedTmp|, st[i].len);
    AppendKept(st, table, plainTmp, packedTmp, appended, i, e);
    hide AllKept, Tiles;
    TilesNext(st, table, plainTmp, appended, plainOrder, true, i, e);
    TilesNext(st, table, packedTmp, appended, order, false, i, e);
  }

  class Packer {
    const codec: Codec
    const par: Params
    const chunks: seq<Bytes>

    // ext_table, the two temporary files and the offsets at which they end
    var table: seq<Ext>
    var plainTmp: Bytes
    var packedTmp: Bytes
    var plainOff: nat
    var packedOff: nat
    // chunks_count: the workers that have not finished; new_file_size
    var left: nat
    var fileSize: nat

    // the chunks appended and finished so far, and the orders of the plain and of the compressed ones
    ghost var appended: set<nat>
    ghost var finished: set<nat>
    ghost var plainOrder: seq<nat>
    ghost var order: seq<nat>

    ghost predicate Ready() {
      ParamsOk(par) && RoundTrips(codec, par) && ChunksOk(par, chunks)
    }

    ghost function Items(): (st: seq<Stored>)
      requires Ready()
      ensures |st| == |chunks|
    {
      StoredAll(codec, par, chunks)
    }

    /** Holds after any number of worker steps, in any order. */
    ghost predicate Valid()
      reads this
    {
      && Ready()
      && finished <= appended
      && Progress(Items(), table, plainTmp, packedTmp, appended, plainOrder, order)
      && plainOff == |plainTmp| && packedOff == |packedTmp|
      && left + Weight(Ones(|chunks|), finished, |chunks|) == |chunks|
      && fileSize == Weight(Sizes(Items()), finished, |chunks|)
    }

    constructor (codec: Codec, par: Params, chunks: seq<Bytes>)
      requires ParamsOk(par) && RoundTrips(codec, par) && ChunksOk(par, chunks)
      ensures Valid() && this.codec == codec && this.par == par && this.chunks == chunks
      ensures appended == {} && finished == {}
    {
      this.codec, this.par, this.chunks := codec, par, chunks;
      table := seq(|chunks|, _ => Ext(false, 0, 0));
      plainTmp, packedTmp, plainOff, packedOff := [], [], 0, 0;
      left, fileSize := |chunks|, 0;
      appended, finished, plainOrder, order := {}, {}, [], [];
      new;
      WeightEmpty(Ones(|chunks|), |chunks|);
      WeightEmpty(Sizes(Items()), |chunks|);
    }

    /** The part of compress_chunk_thread under the lock of a temporary file. */
    method Append(i: nat)
      requires Valid() && i < |chunks| && i !in appended
      modifies this
      ensures Valid() && appended == old(appended) + {i} && finished == old(finished)
    {
      hide Weight, RoundTrips, Progress;
      ghost var st := Items();
      StoreRestores(codec, par, chunks[i]);
      var s := Store(codec, par, chunks[i]);
      ProgressNext(st, table, plainTmp, packedTmp, appended, plainOrder, order, i);
      hide Store;
      if s.plain {
        table := table[i := Ext(true, plainOff, s.len)];
        plainTmp := plainTmp + s.data;
        plainOff := plainOff + |s.data|;
        plainOrder := plainOrder + [i];
      } else {
        table := table[i := Ext(false, packedOff, s.len)];
        packedTmp := packedTmp + s.data;
        packedOff := packedOff + |s.data|;
        order := order + [i];
      }
      appended := appended + {i};
    }

    /** The end of compress_chunk_thread, under write_mutex. */
    method Finish(i: nat)
      requires Valid() && i in appended && i !in finished
      modifies this
      ensures Valid() && appended == old(appended) && finished == old(finished) + {i}
    {
      hide Progress, RoundTrips;
      ProgressFacts(Items(), table, plainTmp, packedTmp, appended, plainOrder, order);
      WeightAdd(Ones(|chunks|), finished, i, |chunks|);
      WeightAdd(Sizes(Items()), finished, i, |chunks|);
      WeightFull(|chunks|, finished + {i}, |chunks|);
      hide Weight;
      left := left - 1;
      fileSize := fileSize + |Store(codec, par, chunks[i]).data|;
      hide Store;
      finished := finished + {i};
    }

    /** Every interleaving of the workers ends with the count of chunks at zero. */
    method RunWorkers(schedule: seq<Step>)
      requires Valid() && appended == {} && finished == {} && Interleaving(schedule, |chunks|)
      modifies this
      ensures Valid() && left == 0
    {
      hide RoundTrips, Progress, Store, Weight, ChunksOk;
      for k := 0 to |schedule|
        invariant Valid()
        invariant forall i: nat :: i in appended <==> Appends(i) in schedule[..k]
        invariant forall i: nat :: i in finished <==> Finishes(i) in schedule[..k]
      {
        assert StepOk(schedule[..k], schedule[k], |chunks|);
        OneMore(schedule, k);
        match schedule[k]
        case Appends(i) => Append(i);
        case Finishes(i) => Finish(i);
      }
      assert schedule[..|schedule|] == schedule;
      WeightFull(|chunks|, finished, |chunks|);
    }

    /** The loop of compress_file over the chunks that stay as they are, in the order of the file. */
    method WritePlain() returns (dst: Bytes, written: nat)
      requires Valid() && Everyone(|chunks|, appended)
      modifies this`table
      ensures PlainDone(par, Items(), old(table), table, dst, written, |chunks|)
    {
      hide Progress, Store, RoundTrips, PlainDone, Weight;
      ghost var st, was := Items(), table;
      ItemsOk(codec, par, chunks);
      AllInTemp(st, table, plainTmp, packedTmp, appended, plainOrder, order);
      PlainNone(par, st, table);
      dst, written := [], 0;
      for i := 0 to |chunks|
        invariant PlainDone(par, st, was, table, dst, written, i)
      {
        PlainStep(par, st, was, table, dst, written, i);
        assert Kept(st[i], was[i], plainTmp, packedTmp);
        if table[i].plain {
          var e := table[i];
          var data := plainTmp[e.start..e.start + AlignUp(e.len, par.align)];
          table := table[i := Ext(true, |dst|, e.len)];
          dst := dst + data;
          written := written + 1;
        }
      }
    }

    /** The layout part of compress_file, once wait_file_finish has seen the count of chunks at zero. */
    method LayOut() returns (dst: Bytes)
      requires Valid() && left == 0
      modifies this`table, this`fileSize
      ensures Complete(par, Items(), table, dst)
      ensures fileSize == |dst|
    {
      hide Progress, Store, RoundTrips, PlainDone, PackedDone, Weight, Before, Tiled, Complete;
      ghost var st, was, size := Items(), table, fileSize;
      ItemsOk(codec, par, chunks);
      WeightFull(|chunks|, finished, |chunks|);
      InOrder(st, table, plainTmp, packedTmp, appended, plainOrder, order);
      Totals(st, table, order, finished);
      var written: nat;
      dst, written := WritePlain();
      ghost var plain, plains := |dst|, written;
      var copy := table;
      PackedNone(par, st, was, copy, dst, written, order);
      BeforeStep(st, order, 0);
      var cur := 0;
      ghost var k := 0;
      while written < |chunks|
        invariant k <= |order| && written == plains + k && cur == Before(st, order, k)
        invariant PackedDone(par, st, copy, table, dst, order, k)
        invariant fileSize + plain + Before(st, order, k) == size + |dst|
        decreases |chunks| - written
      {
        var index := FindStarting(copy, cur);
        Located(st, was, copy, plainTmp, packedTmp, order, k, index);
        assert index >= 0;
        OrderDistinct(st, was, order, false, k);
        PackedPut(par, st, copy, table, dst, order, k);
        var e := table[index];
        var pad := Padding(|dst|, e.len, par.chunkSize);
        dst := dst + Zeros(pad) + packedTmp[cur..cur + e.len];
        fileSize := fileSize + pad;
        table := table[index := Ext(e.plain, |dst| - e.len, e.len)];
        cur := cur + e.len;
        written := written + 1;
        k := k + 1;
        BeforeStep(st, order, k);
      }
      PackedAll(par, st, copy, table, dst, order);
    }
  }

  ghost predicate Everyone(n: nat, s: set<nat>) {
    forall i :: 0 <= i < n ==> i in s
  }

  /** What the layout needs to know of the stored chunks. */
  ghost predicate StoredOk(par: Params, st: seq<Stored>) {
    && ParamsOk(par)
    && forall i :: 0 <= i < |st| ==> ItemOk(par, st[i], i == |st| - 1)
  }

  ghost predicate ItemOk(par: Params, s: Stored, last: bool)
    requires ParamsOk(par)
  {
    && 0 < s.len <= par.chunkSize && s.len <= |s.data|
    && (s.plain && !last ==> |s.data| == par.chunkSize)
    && (s.plain ==> |s.data| == AlignUp(s.len, par.align))
    && (!s.plain ==> |s.data| == s.len)
  }

  lemma {:induction false} ItemsOk(codec: Codec, par: Params, chunks: seq<Bytes>)
    requires ParamsOk(par) && RoundTrips(codec, par) && ChunksOk(par, chunks)
    ensures StoredOk(par, StoredAll(codec, par, chunks))
  {
    var st := StoredAll(codec, par, chunks);
    forall i | 0 <= i < |st| ensures ItemOk(par, st[i], i == |st| - 1) {
      StoreRestores(codec, par, chunks[i]);
      Aligned(|chunks[i]|, par.chunkSize, par.align);
    }
  }

  lemma {:induction false} AllInTemp(st: seq<Stored>, table: seq<Ext>, plainTmp: Bytes, packedTmp: Bytes,
                                     appended: set<nat>, plainOrder: seq<nat>, order: seq<nat>)
    requires Progress(st, table, plainTmp, packedTmp, appended, plainOrder, order) && Everyone(|st|, appended)
    ensures |table| == |st| && forall i :: 0 <= i < |st| ==> Kept(st[i], table[i], plainTmp, packedTmp)
  {
    hide Tiles;
  }

  // ---------- the chunks that stay as they are ----------

  ghost predicate PlainDone(par: Params, st: seq<Stored>, was: seq<Ext>, table: seq<Ext>, dst: Bytes, written: nat, k: nat) {
    && k <= |st| == |was| == |table|
    && (forall j :: 0 <= j < |st| && (j >= k || !st[j].plain) ==> table[j] == was[j])
    && LaidOut(st, table, dst, par.chunkSize, PlainUpto(st, k))
    && |dst| == Weight(Sizes(st), PlainSet(st), k) && written == Weight(Ones(|st|), PlainSet(st), k)
    && (k < |st| ==> |dst| % BLOCK == 0)
  }

  lemma {:induction false} PlainNone(par: Params, st: seq<Stored>, table: seq<Ext>)
    requires |table| == |st|
    ensures PlainDone(par, st, table, table, [], 0, 0)
  {
  }

  lemma {:induction false} PlainSkip(par: Params, st: seq<Stored>, was: seq<Ext>, table: seq<Ext>, dst: Bytes, written: nat, k: nat)
    requires PlainDone(par, st, was, table, dst, written, k) && k < |st| && !st[k].plain
    ensures PlainDone(par, st, was, table, dst, written, k + 1)
  {
    hide LaidOut;
    PlainNext(st, k);
    hide PlainUpto, PlainSet;
    WeightStep(Sizes(st), PlainSet(st), k);
    WeightStep(Ones(|st|), PlainSet(st), k);
  }

  lemma {:induction false} PlainPut(par: Params, st: seq<Stored>, was: seq<Ext>, table: seq<Ext>, dst: Bytes, written: nat, k: nat)
    requires StoredOk(par, st) && PlainDone(par, st, was, table, dst, written, k) && k < |st| && st[k].plain
    ensures |table| == |st|
    ensures PlainDone(par, st, was, table[k := Ext(true, |dst|, st[k].len)], dst + st[k].data, written + 1, k + 1)
  {
    hide LaidOut, Weight;
    var table' := table[k := Ext(true, |dst|, st[k].len)];
    assert forall j :: 0 <= j < |st| && (j >= k + 1 || !st[j].plain) ==> table'[j] == was[j];
    PlainWeights(par, st, dst, written, k);
    PlainNext(st, k);
    hide PlainUpto, PlainSet, StoredOk;
    LaidOutNext(st, table, dst, par.chunkSize, PlainUpto(st, k), k, 0);
    assert dst + Zeros(0) + st[k].data == dst + st[k].data;
  }

  /** The sizes that go with one more chunk; all but the last are whole chunks. */
  lemma {:induction false} PlainWeights(par: Params, st: seq<Stored>, dst: Bytes, written: nat, k: nat)
    requires StoredOk(par, st) && k < |st| && st[k].plain
    requires |dst| == Weight(Sizes(st), PlainSet(st), k) && written == Weight(Ones(|st|), PlainSet(st), k)
    ensures |dst + st[k].data| == Weight(Sizes(st), PlainSet(st), k + 1)
    ensures written + 1 == Weight(Ones(|st|), PlainSet(st), k + 1)
    ensures |dst| % BLOCK == 0 && k + 1 < |st| ==> |dst + st[k].data| % BLOCK == 0
  {
    assert ItemOk(par, st[k], k == |st| - 1);
    hide StoredOk;
    PlainNext(st, k);
    hide PlainSet;
    WeightStep(Sizes(st), PlainSet(st), k);
    WeightStep(Ones(|st|), PlainSet(st), k);
  }

  lemma {:induction false} PlainStep(par: Params, st: seq<Stored>, was: seq<Ext>, table: seq<Ext>, dst: Bytes, written: nat, k: nat)
    requires StoredOk(par, st) && PlainDone(par, st, was, table, dst, written, k) && k < |st|
    ensures |table| == |st| == |was| && table[k] == was[k]
    ensures st[k].plain ==> PlainDone(par, st, was, table[k := Ext(true, |dst|, st[k].len)], dst + st[k].data, written + 1, k + 1)
    ensures !st[k].plain ==> PlainDone(par, st, was, table, dst, written, k + 1)
  {
    assert |table| == |st| == |was| && table[k] == was[k];
    hide PlainDone;
    if st[k].plain {
      PlainPut(par, st, was, table, dst, written, k);
    } else {
      PlainSkip(par, st, was, table, dst, written, k);
    }
  }

  // ---------- the compressed chunks ----------

  /** get_comp_extent_starting_at. */
  method FindStarting(table: seq<Ext>, at: nat) returns (index: int)
    ensures index >= 0 ==> index < |table| && !table[index].plain && table[index].start == at
    ensures index < 0 ==> forall i :: 0 <= i < |table| ==> table[i].plain || table[i].start != at
  {
    for i := 0 to |table|
      invariant forall j :: 0 <= j < i ==> table[j].plain || table[j].start != at
    {
      if !table[i].plain && table[i].start == at {
        return i;
      }
    }
    return -1;
  }

  /** Every chunk is in the file, no two of them share a byte, and each can be read where it is. */
  ghost predicate Complete(par: Params, st: seq<Stored>, table: seq<Ext>, dst: Bytes) {
    && |table| == |st|
    && (forall i :: 0 <= i < |st| ==> At(st[i], table[i], dst, par.chunkSize))
    && (forall i, j :: 0 <= i < j < |st| ==> Apart(st[i], table[i], st[j], table[j]))
  }

  ghost predicate Covers(st: seq<Stored>, order: seq<nat>) {
    forall i :: 0 <= i < |st| ==> (i in order <==> !st[i].plain)
  }

  lemma {:induction false} InOrder(st: seq<Stored>, table: seq<Ext>, plainTmp: Bytes, packedTmp: Bytes,
                                   appended: set<nat>, plainOrder: seq<nat>, order: seq<nat>)
    requires Progress(st, table, plainTmp, packedTmp, appended, plainOrder, order) && Everyone(|st|, appended)
    ensures Tiled(st, table, order, false) && Covers(st, order) && forall j :: 0 <= j < |order| ==> order[j] < |st|
    ensures forall i :: 0 <= i < |st| ==> Kept(st[i], table[i], plainTmp, packedTmp)
  {
    hide Before;
  }

  lemma {:induction false} Totals(st: seq<Stored>, table: seq<Ext>, order: seq<nat>, finished: set<nat>)
    requires Tiled(st, table, order, false) && Covers(st, order) && Everyone(|st|, finished)
    ensures Weight(Sizes(st), PlainSet(st), |st|) + Before(st, order, |order|) == Weight(Sizes(st), finished, |st|)
    ensures Weight(Ones(|st|), PlainSet(st), |st|) + |order| == |st|
  {
    hide Before, Weight;
    BeforeWeighs(st, table, order, false, |order|);
    assert order[..|order|] == order;
    WeightSplit(Sizes(st), PlainSet(st), SetOf(order), finished, |st|);
    WeightSplit(Ones(|st|), PlainSet(st), SetOf(order), finished, |st|);
    WeightFull(|st|, finished, |st|);
  }

  ghost predicate PackedDone(par: Params, st: seq<Stored>, copy: seq<Ext>, table: seq<Ext>, dst: Bytes, order: seq<nat>, k: nat) {
    && |st| == |copy| == |table| && k <= |order|
    && LaidOut(st, table, dst, par.chunkSize, PlainSet(st) + SetOf(order[..k]))
    && forall j :: 0 <= j < |st| && j !in PlainSet(st) + SetOf(order[..k]) ==> table[j] == copy[j]
  }

  lemma {:induction false} PackedNone(par: Params, st: seq<Stored>, was: seq<Ext>, copy: seq<Ext>, dst: Bytes, written: nat,
                                      order: seq<nat>)
    requires PlainDone(par, st, was, copy, dst, written, |st|)
    ensures PackedDone(par, st, copy, copy, dst, order, 0)
    ensures |was| == |copy| == |st|
    ensures forall j :: 0 <= j < |st| ==> if st[j].plain then copy[j].plain else copy[j] == was[j]
    ensures |dst| == Weight(Sizes(st), PlainSet(st), |st|) && written == Weight(Ones(|st|), PlainSet(st), |st|)
  {
    hide Weight;
    assert PlainUpto(st, |st|) == PlainSet(st) == PlainSet(st) + SetOf(order[..0]);
    forall j | 0 <= j < |st| && st[j].plain ensures copy[j].plain {
      assert j in PlainUpto(st, |st|);
    }
  }

  /** The copy loop finds the chunk that was appended next; its assertion never fails. */
  lemma {:induction false} Located(st: seq<Stored>, was: seq<Ext>, copy: seq<Ext>, plainTmp: Bytes, packedTmp: Bytes,
                                   order: seq<nat>, k: nat, index: int)
    requires Tiled(st, was, order, false) && Covers(st, order) && |copy| == |st| && k < |order|
    requires forall j :: 0 <= j < |st| ==> Kept(st[j], was[j], plainTmp, packedTmp)
    requires forall j :: 0 <= j < |st| ==> if st[j].plain then copy[j].plain else copy[j] == was[j]
    requires index >= 0 ==> index < |copy| && !copy[index].plain && copy[index].start == Before(st, order, k)
    requires index < 0 ==> forall i :: 0 <= i < |copy| ==> copy[i].plain || copy[i].start != Before(st, order, k)
    ensures index == order[k] && Kept(st[index], copy[index], plainTmp, packedTmp) && !st[index].plain
    ensures copy[index].start == Before(st, order, k)
  {
    hide Before;
    var i := order[k];
    assert copy[i] == was[i] && Kept(st[i], was[i], plainTmp, packedTmp);
    assert index >= 0;
    assert Kept(st[index], was[index], plainTmp, packedTmp);
    StartIsUnique(st, was, order, false, k, index);
  }

  lemma {:induction false} PackedPut(par: Params, st: seq<Stored>, copy: seq<Ext>, table: seq<Ext>, dst: Bytes, order: seq<nat>, k: nat)
    requires StoredOk(par, st) && PackedDone(par, st, copy, table, dst, order, k) && k < |order|
    requires order[k] < |st| && !st[order[k]].plain && order[k] !in order[..k]
    ensures |st| == |copy| == |table| && table[order[k]] == copy[order[k]]
    ensures |st[order[k]].data| == st[order[k]].len
    ensures var i := order[k];
            var pad := Padding(|dst|, st[i].len, par.chunkSize);
            pad >= 0 && PackedDone(par, st, copy, table[i := Ext(false, |dst| + pad, st[i].len)],
                                   dst + Zeros(pad) + st[i].data, order, k + 1)
  {
    hide LaidOut, BlocksN, Padding;
    var i := order[k];
    var placed := PlainSet(st) + SetOf(order[..k]);
    assert order[..k + 1] == order[..k] + [i];
    assert PlainSet(st) + SetOf(order[..k + 1]) == placed + {i};
    assert i !in placed;
    hide PlainSet, SetOf;
    assert ItemOk(par, st[i], i == |st| - 1);
    hide StoredOk;
    PaddingFits(|dst|, st[i].len, par.chunkSize);
    LaidOutNext(st, table, dst, par.chunkSize, placed, i, Padding(|dst|, st[i].len, par.chunkSize));
  }

  lemma {:induction false} PackedAll(par: Params, st: seq<Stored>, copy: seq<Ext>, table: seq<Ext>, dst: Bytes, order: seq<nat>)
    requires PackedDone(par, st, copy, table, dst, order, |order|) && Covers(st, order)
    ensures Complete(par, st, table, dst)
  {
    hide At, Apart;
    var placed := PlainSet(st) + SetOf(order[..|order|]);
    assert order[..|order|] == order;
    assert forall i :: 0 <= i < |st| ==> i in placed;
  }

  ghost function PlainUpto(st: seq<Stored>, k: nat): set<nat> {
    set i: nat | i < k && i < |st| && st[i].plain
  }

  lemma {:induction false} PlainNext(st: seq<Stored>, i: nat)
    requires i < |st|
    ensures PlainUpto(st, i + 1) == if st[i].plain then PlainUpto(st, i) + {i} else PlainUpto(st, i)
    ensures i !in PlainUpto(st, i) && (i in PlainSet(st) <==> st[i].plain)
  {
  }

  lemma {:induction false} AppendKept(st: seq<Stored>, table: seq<Ext>, plainTmp: Bytes, packedTmp: Bytes,
                                      appended: set<nat>, i: nat, e: Ext)
    requires AllKept(st, table, plainTmp, packedTmp, appended) && i < |st| && i !in appended
    requires e == Ext(st[i].plain, if st[i].plain then |plainTmp| else |packedTmp|, st[i].len)
    ensures AllKept(st, table[i := e], if st[i].plain then plainTmp + st[i].data else plainTmp,
                    if st[i].plain then packedTmp else packedTmp + st[i].data, appended + {i})
  {
    var x, y := if st[i].plain then st[i].data else [], if st[i].plain then [] else st[i].data;
    assert plainTmp + [] == plainTmp && packedTmp + [] == packedTmp;
    forall j | j in appended ensures Kept(st[j], table[j], plainTmp + x, packedTmp + y) {
      KeptLonger(st[j], table[j], plainTmp, packedTmp, x, y);
    }
    assert (plainTmp + x)[|plainTmp|..] == x && (packedTmp + y)[|packedTmp|..] == y;
  }

  lemma {:induction false} TiledOther(st: seq<Stored>, table: seq<Ext>, order: seq<nat>, plain: bool, i: nat, e: Ext)
    requires Tiled(st, table, order, plain) && i < |st| && i !in order
    ensures Tiled(st, table[i := e], order, plain)
  {
  }

  // ---------- reading the file ----------

  // Invalid is the answer to a file without a descriptor
  datatype Decoded = Data(bytes: Bytes) | ShortRead | Invalid

  /** pread of len bytes: fewer when the file ends before. */
  function Read(file: Bytes, start: nat, len: nat): Bytes {
    if start >= |file| then [] else if start + len <= |file| then file[start..start + len] else file[start..]
  }

  /** The extent is in the file with all its bytes. */
  predicate FullRead(e: Ext, file: Bytes) {
    e.len > 0 && e.start + e.len <= |file|
  }

  /** What the extents decode to, one by one. */
  ghost function Pieces(codec: Codec, table: seq<Ext>, file: Bytes): (p: seq<Bytes>)
    ensures |p| == |table|
    ensures forall i :: 0 <= i < |p| ==> p[i] == Restore(codec, table[i].plain, Read(file, table[i].start, table[i].len))
  {
    seq(|table|, i requires 0 <= i < |table| => Restore(codec, table[i].plain, Read(file, table[i].start, table[i].len)))
  }

  /** The first extent from k on that is not in the file with all its bytes. */
  ghost function Stop(table: seq<Ext>, file: Bytes, k: nat): (i: nat)
    requires k <= |table|
    ensures k <= i <= |table|
    decreases |table| - k
  {
    if k == |table| || !FullRead(table[k], file) then k else Stop(table, file, k + 1)
  }

  /**
   What any table and any file decode to: the extents up to the first that is not all in the file.  One
   of which nothing is there ends the data, one of which a part is there is an error.
   */
  ghost function Unpacked(codec: Codec, table: seq<Ext>, file: Bytes): Decoded {
    var k := Stop(table, file, 0);
    if k < |table| && Read(file, table[k].start, table[k].len) != [] then ShortRead
    else Data(Upto(Pieces(codec, table, file), k))
  }

  /** The loop of decompress_file. */
  method Decompress(codec: Codec, table: seq<Ext>, file: Bytes) returns (r: Decoded)
    ensures r == Unpacked(codec, table, file)
  {
    hide Upto, Restore, Pieces, Stop, Read;
    ghost var pieces := Pieces(codec, table, file);
    UptoStep(pieces, 0);
    var out := [];
    var k := 0;
    while k < |table|
      invariant 0 <= k <= |table| && out == Upto(pieces, k) && Stop(table, file, 0) == Stop(table, file, k)
    {
      var e := table[k];
      UptoStep(pieces, k);
      StopStep(table, file, k);
      var input := Read(file, e.start, e.len);
      if input == [] {
        break;
      }
      if |input| != e.len {
        return ShortRead;
      }
      out := out + Restore(codec, e.plain, input);
      k := k + 1;
    }
    if k == |table| { StopEnd(table, file); }
    return Data(out);
  }

  lemma {:induction false} StopStep(table: seq<Ext>, file: Bytes, k: nat)
    requires k < |table|
    ensures var input := Read(file, table[k].start, table[k].len);
            Stop(table, file, k) == if input != [] && |input| == table[k].len then Stop(table, file, k + 1) else k
  {
  }

  lemma {:induction false} StopEnd(table: seq<Ext>, file: Bytes)
    ensures Stop(table, file, |table|) == |table|
  {
  }

  /** Extents that decode to chunks are all in the file, and their pieces are the chunks. */
  lemma {:induction false} ReadablePieces(codec: Codec, table: seq<Ext>, file: Bytes, chunks: seq<Bytes>)
    requires |chunks| == |table| && Readable(codec, table, file, chunks)
    ensures Stop(table, file, 0) == |table| && Pieces(codec, table, file) == chunks
  {
    hide Restore;
    forall i | 0 <= i < |table|
      ensures FullRead(table[i], file) && Pieces(codec, table, file)[i] == chunks[i]
    {
      ReadStep(codec, table, file, chunks, i);
      assert ReadableAt(codec, table[i], file, chunks[i]);
    }
    NoStop(table, file, 0);
  }

  lemma {:induction false} NoStop(table: seq<Ext>, file: Bytes, k: nat)
    requires k <= |table| && forall i :: k <= i < |table| ==> FullRead(table[i], file)
    ensures Stop(table, file, k) == |table|
    decreases |table| - k
  {
    if k < |table| { NoStop(table, file, k + 1); }
  }

  lemma {:induction false} UptoStep(chunks: seq<Bytes>, k: nat)
    requires k <= |chunks|
    ensures Upto(chunks, 0) == [] && (k < |chunks| ==> Upto(chunks, k + 1) == Upto(chunks, k) + chunks[k])
  {
  }

  lemma {:induction false} ReadStep(codec: Codec, table: seq<Ext>, file: Bytes, chunks: seq<Bytes>, k: nat)
    requires |chunks| == |table| && Readable(codec, table, file, chunks) && k < |table|
    ensures var input := Read(file, table[k].start, table[k].len);
            input != [] && |input| == table[k].len && Restore(codec, table[k].plain, input) == chunks[k]
  {
    hide Restore;
    assert ReadableAt(codec, table[k], file, chunks[k]);
  }

  ghost predicate ReadableAt(codec: Codec, e: Ext, file: Bytes, chunk: Bytes) {
    && e.len > 0 && e.start + e.len <= |file|
    && Restore(codec, e.plain, file[e.start..e.start + e.len]) == chunk
  }

  ghost predicate Readable(codec: Codec, table: seq<Ext>, file: Bytes, chunks: seq<Bytes>)
    requires |chunks| == |table|
  {
    forall i :: 0 <= i < |table| ==> ReadableAt(codec, table[i], file, chunks[i])
  }

  /** A complete layout can be read back. */
  lemma {:induction false} LayoutReadable(codec: Codec, par: Params, chunks: seq<Bytes>, table: seq<Ext>, dst: Bytes)
    requires ParamsOk(par) && RoundTrips(codec, par) && ChunksOk(par, chunks)
    requires Complete(par, StoredAll(codec, par, chunks), table, dst)
    ensures |table| == |chunks| && Readable(codec, table, dst, chunks)
  {
    hide Store, RoundTrips, At;
    var st := StoredAll(codec, par, chunks);
    forall i | 0 <= i < |table| ensures ReadableAt(codec, table[i], dst, chunks[i]) {
      assert At(st[i], table[i], dst, par.chunkSize);
      StoredReadable(codec, par, chunks[i], table[i], dst);
    }
  }

  lemma {:induction false} StoredReadable(codec: Codec, par: Params, chunk: Bytes, e: Ext, dst: Bytes)
    requires ParamsOk(par) && RoundTrips(codec, par) && 0 < |chunk| <= par.chunkSize
    requires At(Store(codec, par, chunk), e, dst, par.chunkSize)
    ensures ReadableAt(codec, e, dst, chunk)
  {
    var s := Store(codec, par, chunk);
    StoreRestores(codec, par, chunk);
    hide Store, RoundTrips;
    SubSlice(dst, [], e.start, e.len, s.data);
    assert dst + [] == dst;
  }

  /** What is written behind the chunks does not disturb them. */
  lemma {:induction false} ReadableLonger(codec: Codec, table: seq<Ext>, dst: Bytes, more: Bytes, chunks: seq<Bytes>)
    requires |chunks| == |table| && Readable(codec, table, dst, chunks)
    ensures Readable(codec, table, dst + more, chunks)
  {
    hide Restore;
    forall i | 0 <= i < |table| ensures ReadableAt(codec, table[i], dst + more, chunks[i]) {
      var e := table[i];
      assert ReadableAt(codec, e, dst, chunks[i]);
      var data := dst[e.start..e.start + e.len];
      SubSlice(dst, more, e.start, e.len, data);
      assert data[..e.len] == data;
    }
  }

  lemma {:induction false} SubSlice(dst: Bytes, footer: Bytes, start: nat, len: nat, data: Bytes)
    requires len <= |data| && start + |data| <= |dst| && dst[start..start + |data|] == data
    ensures (dst + footer)[start..start + len] == data[..len]
  {
    forall x | 0 <= x < len ensures (dst + footer)[start + x] == data[x] {
      assert dst[start..start + |data|][x] == data[x];
    }
  }

  /**
   The kernel reads page k of a chunk that stays as it is from block start_block + k: this is
   right because such a chunk starts on a block boundary.
   */
  lemma {:induction false} KernelReadsPlain(codec: Codec, par: Params, chunks: seq<Bytes>, table: seq<Ext>, dst: Bytes,
                                            i: nat, k: nat, x: nat)
    requires ParamsOk(par) && RoundTrips(codec, par) && ChunksOk(par, chunks)
    requires Complete(par, StoredAll(codec, par, chunks), table, dst)
    requires i < |chunks| && table[i].plain && x < BLOCK && k * BLOCK + x < |chunks[i]|
    ensures var a := (table[i].start / BLOCK + k) * BLOCK + x;
            a < |dst| && dst[a] == chunks[i][k * BLOCK + x]
  {
    var s, e := StoredAll(codec, par, chunks)[i], table[i];
    assert At(s, e, dst, par.chunkSize);
    StoreRestores(codec, par, chunks[i]);
    var y := k * BLOCK + x;
    assert dst[e.start..e.start + |s.data|][y] == s.data[..s.len][y];
  }

  /** One step of a worker: it appends a chunk, or reports it finished. */
  datatype Step = Appends(i: nat) | Finishes(i: nat)

  /** Each chunk is appended once and then finished once, in any interleaving with the others. */
  ghost predicate Interleaving(schedule: seq<Step>, n: nat) {
    && (forall k :: 0 <= k < |schedule| ==> StepOk(schedule[..k], schedule[k], n))
    && (forall i: nat :: i < n ==> Finishes(i) in schedule)
  }

  lemma {:induction false} OneMore(schedule: seq<Step>, k: nat)
    requires k < |schedule|
    ensures forall s :: s in schedule[..k + 1] <==> s in schedule[..k] || s == schedule[k]
  {
    assert schedule[..k + 1] == schedule[..k] + [schedule[k]];
  }

  ghost predicate StepOk(before: seq<Step>, step: Step, n: nat) {
    match step
    case Appends(i) => i < n && step !in before
    case Finishes(i) => Appends(i) in before && step !in before
  }

  /** One worker after the other. */
  function OneByOne(n: nat): (schedule: seq<Step>)
    ensures |schedule| == 2 * n
  {
    seq(2 * n, k requires k >= 0 => if k % 2 == 0 then Appends(k / 2) else Finishes(k / 2))
  }

  lemma {:induction false} OneByOneOk(n: nat)
    ensures Interleaving(OneByOne(n), n)
  {
    var s := OneByOne(n);
    forall k | 0 <= k < |s| ensures StepOk(s[..k], s[k], n) {
      if k % 2 == 1 { assert s[..k][k - 1] == Appends(k / 2); }
    }
    forall i: nat | i < n ensures Finishes(i) in s {
      assert s[2 * i + 1] == Finishes(i);
    }
  }

  /** Compressing a file and decompressing it, for every interleaving of the workers. */
  method RoundTrip(codec: Codec, par: Params, src: Bytes, schedule: seq<Step>) returns (r: Decoded)
    requires ParamsOk(par) && RoundTrips(codec, par)
    requires Interleaving(schedule, (|src| + par.chunkSize - 1) / par.chunkSize)
    ensures r == Data(src)
  {
    hide Readable, Interleaving, Upto, RoundTrips, BlocksN, StoredAs, Pieces, Stop, ChunksOk;
    var table, dst, size, chunks := CompressFile(codec, par, src, schedule);
    r := Decompress(codec, table, dst);
    ReadablePieces(codec, table, dst, chunks);
  }

  /**
   compress_file from the source to the final file, for every interleaving of the workers:
   the chunks of the file can be read back, they share no byte, and the kernel can read each.
   */
  method CompressFile(codec: Codec, par: Params, src: Bytes, schedule: seq<Step>)
    returns (table: seq<Ext>, dst: Bytes, size: nat, ghost chunks: seq<Bytes>)
    requires ParamsOk(par) && RoundTrips(codec, par)
    requires Interleaving(schedule, (|src| + par.chunkSize - 1) / par.chunkSize)
    ensures ChunksOk(par, chunks) && Upto(chunks, |chunks|) == src && |chunks| == |table|
    ensures Readable(codec, table, dst, chunks)
    ensures forall i, j :: 0 <= i < j < |table| ==>
                table[i].start + table[i].len <= table[j].start || table[j].start + table[j].len <= table[i].start
    ensures forall i :: 0 <= i < |table| ==>
                if table[i].plain then table[i].start % BLOCK == 0
                else BlocksN(table[i].start, table[i].len) <= par.chunkSize / BLOCK
    ensures forall i :: 0 <= i < |table| ==> table[i].len <= par.chunkSize
    ensures forall i :: 0 <= i < |table| ==> StoredAs(codec, par, chunks[i], table[i], dst)
    ensures size == |dst| && |table| == (|src| + par.chunkSize - 1) / par.chunkSize
  {
    hide RoundTrips, ChunksOk, Store, Complete;
    var read := ReadChunks(par, src);
    chunks := read;
    var p := new Packer(codec, par, read);
    p.RunWorkers(schedule);
    dst := p.LayOut();
    table, size := p.table, p.fileSize;
    ItemsOk(codec, par, chunks);
    ReadyForKernel(par, StoredAll(codec, par, chunks), table, dst);
    LayoutReadable(codec, par, chunks, table, dst);
    AllStoredAs(codec, par, chunks, table, dst);
  }

  /** The chunk is in the file compressed or as it is, whichever its saving asks for, and in no other form. */
  ghost predicate StoredAs(codec: Codec, par: Params, chunk: Bytes, e: Ext, dst: Bytes)
    requires ParamsOk(par)
  {
    && (e.plain <==> KeptPlain(codec, par, chunk))
    && e.start + e.len <= |dst| && dst[e.start..e.start + e.len] == Form(codec, par, chunk)
  }

  lemma {:induction false} AllStoredAs(codec: Codec, par: Params, chunks: seq<Bytes>, table: seq<Ext>, dst: Bytes)
    requires ParamsOk(par) && ChunksOk(par, chunks) && Complete(par, StoredAll(codec, par, chunks), table, dst)
    ensures |table| == |chunks| && forall i :: 0 <= i < |table| ==> StoredAs(codec, par, chunks[i], table[i], dst)
  {
    var st := StoredAll(codec, par, chunks);
    hide Store, Form, KeptPlain, BlocksN;
    forall i | 0 <= i < |table| ensures StoredAs(codec, par, chunks[i], table[i], dst) {
      var e, s := table[i], st[i];
      assert At(s, e, dst, par.chunkSize);
      StoreChoice(codec, par, chunks[i]);
      SubSlice(dst, [], e.start, e.len, s.data);
      assert dst + [] == dst;
    }
  }

  lemma {:induction false} ReadyForKernel(par: Params, st: seq<Stored>, table: seq<Ext>, dst: Bytes)
    requires StoredOk(par, st) && Complete(par, st, table, dst)
    ensures forall i, j :: 0 <= i < j < |table| ==>
                table[i].start + table[i].len <= table[j].start || table[j].start + table[j].len <= table[i].start
    ensures forall i :: 0 <= i < |table| ==>
                if table[i].plain then table[i].start % BLOCK == 0
                else BlocksN(table[i].start, table[i].len) <= par.chunkSize / BLOCK
    ensures forall i :: 0 <= i < |table| ==> table[i].len <= par.chunkSize
  {
    hide BlocksN, AlignUp;
    forall i | 0 <= i < |table|
      ensures At(st[i], table[i], dst, par.chunkSize) && table[i].len <= |st[i].data| && table[i].len <= par.chunkSize
    {
      assert ItemOk(par, st[i], i == |st| - 1);
    }
    forall i, j | 0 <= i < j < |table|
      ensures table[i].start + table[i].len <= table[j].start || table[j].start + table[j].len <= table[i].start
    {
      assert Apart(st[i], table[i], st[j], table[j]);
    }
  }
}
