/**
 The table of a compressed file: where chunks lie in the temporary files while the workers
 append them in any order, and where they lie in the final file.
 */
module ChunkLayout {
  import opened ChunkCodec

  datatype Ext = Ext(plain: bool, start: nat, len: nat)

  // ---------- sums over sets of chunks, in whatever order the chunks come ----------

  ghost function Weight(w: seq<nat>, s: set<nat>, k: nat): nat
    requires k <= |w|
  {
    if k == 0 then 0 else Weight(w, s, k - 1) + if k - 1 in s then w[k - 1] else 0
  }

  lemma {:induction false} WeightAdd(w: seq<nat>, s: set<nat>, i: nat, k: nat)
    requires k <= |w| && i !in s
    ensures Weight(w, s + {i}, k) == Weight(w, s, k) + if i < k then w[i] else 0
  {
    if k > 0 { WeightAdd(w, s, i, k - 1); }
  }

  lemma {:induction false} WeightEmpty(w: seq<nat>, k: nat)
    requires k <= |w|
    ensures Weight(w, {}, k) == 0
  {
    if k > 0 { WeightEmpty(w, k - 1); }
  }

  /** Sets that share out the first k chunks share out their weight. */
  lemma {:induction false} WeightSplit(w: seq<nat>, a: set<nat>, b: set<nat>, c: set<nat>, k: nat)
    requires k <= |w| && forall i :: 0 <= i < k ==> i in c && (i in a <==> i !in b)
    ensures Weight(w, a, k) + Weight(w, b, k) == Weight(w, c, k)
  {
    if k > 0 { WeightSplit(w, a, b, c, k - 1); }
  }

  ghost function Ones(n: nat): (w: seq<nat>)
    ensures |w| == n && forall i :: 0 <= i < n ==> w[i] == 1
  {
    seq<nat>(n, _ => 1)
  }

  /** A set that weighs as much as all chunks has all of them. */
  lemma {:induction false} WeightFull(n: nat, s: set<nat>, k: nat)
    requires k <= n
    ensures Weight(Ones(n), s, k) <= k
    ensures Weight(Ones(n), s, k) == k <==> forall i :: 0 <= i < k ==> i in s
  {
    if k > 0 { WeightFull(n, s, k - 1); }
  }

  ghost function Sizes(st: seq<Stored>): (w: seq<nat>)
    ensures |w| == |st| && forall i :: 0 <= i < |st| ==> w[i] == |st[i].data|
  {
    seq<nat>(|st|, i requires 0 <= i < |st| => |st[i].data|)
  }

  ghost function PlainSet(st: seq<Stored>): set<nat> {
    set i: nat | i < |st| && st[i].plain
  }

  ghost function SetOf(order: seq<nat>): set<nat> {
    set i | i in order
  }

  // ---------- the temporary files ----------

  /** The bytes of a chunk are in its temporary file at the start its extent names. */
  ghost predicate Kept(s: Stored, e: Ext, plainTmp: Bytes, packedTmp: Bytes) {
    var tmp := if s.plain then plainTmp else packedTmp;
    && e.plain == s.plain && e.len == s.len
    && e.start + |s.data| <= |tmp| && tmp[e.start..e.start + |s.data|] == s.data
  }

  lemma {:induction false} KeptLonger(s: Stored, e: Ext, plainTmp: Bytes, packedTmp: Bytes, x: Bytes, y: Bytes)
    requires Kept(s, e, plainTmp, packedTmp)
    ensures Kept(s, e, plainTmp + x, packedTmp + y)
  {
    assert (plainTmp + x)[..|plainTmp|] == plainTmp && (packedTmp + y)[..|packedTmp|] == packedTmp;
    var tmp, longer := if s.plain then plainTmp else packedTmp, if s.plain then plainTmp + x else packedTmp + y;
    assert longer[e.start..e.start + |s.data|] == tmp[e.start..e.start + |s.data|];
  }

  ghost predicate AllKept(st: seq<Stored>, table: seq<Ext>, plainTmp: Bytes, packedTmp: Bytes, appended: set<nat>) {
    && |table| == |st|
    && forall i :: i in appended ==> i < |st| && Kept(st[i], table[i], plainTmp, packedTmp)
  }

  /** Where the k-th of the chunks appended to a temporary file starts. */
  ghost function Before(st: seq<Stored>, order: seq<nat>, k: nat): nat
    requires k <= |order| && forall j :: 0 <= j < |order| ==> order[j] < |st|
  {
    if k == 0 then 0 else Before(st, order, k - 1) + |st[order[k - 1]].data|
  }

  lemma {:induction false} BeforeStep(st: seq<Stored>, order: seq<nat>, k: nat)
    requires k <= |order| && forall j :: 0 <= j < |order| ==> order[j] < |st|
    ensures k == 0 ==> Before(st, order, k) == 0
    ensures k > 0 ==> Before(st, order, k) == Before(st, order, k - 1) + |st[order[k - 1]].data|
  {
  }

  ghost predicate AllOf(st: seq<Stored>, order: seq<nat>, plain: bool) {
    forall j :: 0 <= j < |order| ==> order[j] < |st| && st[order[j]].plain == plain && |st[order[j]].data| > 0
  }

  /** The starts of the plain, or of the compressed, chunks tile their temporary file in the order of the appends. */
  ghost predicate Tiled(st: seq<Stored>, table: seq<Ext>, order: seq<nat>, plain: bool) {
    && |table| == |st| && AllOf(st, order, plain)
    && forall j :: 0 <= j < |order| ==> table[order[j]].start == Before(st, order, j)
  }

  lemma {:induction false} BeforeAscends(st: seq<Stored>, order: seq<nat>, plain: bool, j: nat, k: nat)
    requires AllOf(st, order, plain) && j < k <= |order|
    ensures Before(st, order, j) < Before(st, order, k)
  {
    if j + 1 < k { BeforeAscends(st, order, plain, j, k - 1); }
  }

  lemma {:induction false} BeforeLonger(st: seq<Stored>, order: seq<nat>, plain: bool, i: nat, k: nat)
    requires AllOf(st, order + [i], plain) && k <= |order|
    ensures AllOf(st, order, plain) && Before(st, order + [i], k) == Before(st, order, k)
  {
    assert forall j :: 0 <= j < |order| ==> (order + [i])[j] == order[j];
    if k > 0 { BeforeLonger(st, order, plain, i, k - 1); }
  }

  /** The prefix of the order weighs what was appended so far. */
  lemma {:induction false} BeforeWeighs(st: seq<Stored>, table: seq<Ext>, order: seq<nat>, plain: bool, k: nat)
    requires Tiled(st, table, order, plain) && k <= |order|
    ensures Weight(Sizes(st), SetOf(order[..k]), |st|) == Before(st, order, k)
    ensures Weight(Ones(|st|), SetOf(order[..k]), |st|) == k
  {
    hide Before, Weight;
    BeforeStep(st, order, k);
    if k == 0 {
      assert SetOf(order[..0]) == {};
      WeightEmpty(Sizes(st), |st|);
      WeightEmpty(Ones(|st|), |st|);
    } else {
      BeforeWeighs(st, table, order, plain, k - 1);
      var i := order[k - 1];
      assert order[..k] == order[..k - 1] + [i];
      assert SetOf(order[..k]) == SetOf(order[..k - 1]) + {i};
      OrderDistinct(st, table, order, plain, k - 1);
      WeightAdd(Sizes(st), SetOf(order[..k - 1]), i, |st|);
      WeightAdd(Ones(|st|), SetOf(order[..k - 1]), i, |st|);
    }
  }

  lemma {:induction false} OrderDistinct(st: seq<Stored>, table: seq<Ext>, order: seq<nat>, plain: bool, k: nat)
    requires Tiled(st, table, order, plain) && k < |order|
    ensures order[k] !in order[..k]
  {
    hide Before;
    forall j | 0 <= j < k ensures order[j] != order[k] { BeforeAscends(st, order, plain, j, k); }
  }

  /** An extent of a temporary file that starts where its k-th append did is that of the k-th append. */
  lemma {:induction false} StartIsUnique(st: seq<Stored>, table: seq<Ext>, order: seq<nat>, plain: bool, k: nat, i: nat)
    requires Tiled(st, table, order, plain) && k < |order| && i in order && table[i].start == Before(st, order, k)
    ensures i == order[k]
  {
    hide Before;
    var m :| 0 <= m < |order| && order[m] == i;
    if m < k { BeforeAscends(st, order, plain, m, k); }
    if m > k { BeforeAscends(st, order, plain, k, m); }
  }

  lemma {:induction false} TiledAppend(st: seq<Stored>, table: seq<Ext>, order: seq<nat>, plain: bool, i: nat, e: Ext)
    requires Tiled(st, table, order, plain) && i < |st| && st[i].plain == plain && |st[i].data| > 0 && i !in order
    requires e.start == Before(st, order, |order|)
    ensures Tiled(st, table[i := e], order + [i], plain)
    ensures Before(st, order + [i], |order| + 1) == e.start + |st[i].data|
  {
    hide Before;
    var o := order + [i];
    BeforeStep(st, o, |o|);
    forall j | 0 <= j < |o| ensures table[i := e][o[j]].start == Before(st, o, j) {
      BeforeLonger(st, order, plain, i, j);
    }
    BeforeLonger(st, order, plain, i, |order|);
  }

  // ---------- the final file ----------

  /** A stored chunk is in the file, where the kernel and the decoder can read it. */
  ghost predicate At(s: Stored, e: Ext, dst: Bytes, chunkSize: nat) {
    && e.plain == s.plain && e.len == s.len
    && e.start + |s.data| <= |dst| && dst[e.start..e.start + |s.data|] == s.data
    && (s.plain ==> e.start % BLOCK == 0)
    && (!s.plain ==> BlocksN(e.start, e.len) <= chunkSize / BLOCK)
  }

  ghost predicate Apart(s: Stored, e: Ext, t: Stored, f: Ext) {
    e.start + |s.data| <= f.start || f.start + |t.data| <= e.start
  }

  ghost predicate LaidOut(st: seq<Stored>, table: seq<Ext>, dst: Bytes, chunkSize: nat, placed: set<nat>) {
    && |table| == |st|
    && (forall i :: i in placed ==> i < |st| && At(st[i], table[i], dst, chunkSize))
    && (forall i, j :: i in placed && j in placed && i != j ==> Apart(st[i], table[i], st[j], table[j]))
  }

  lemma {:induction false} AtLonger(s: Stored, e: Ext, dst: Bytes, chunkSize: nat, more: Bytes)
    requires At(s, e, dst, chunkSize)
    ensures At(s, e, dst + more, chunkSize)
  {
    assert (dst + more)[e.start..e.start + |s.data|] == dst[e.start..e.start + |s.data|];
  }

  /** Writing one more chunk behind the others, with zeros before it or not. */
  lemma {:induction false} LaidOutNext(st: seq<Stored>, table: seq<Ext>, dst: Bytes, chunkSize: nat, placed: set<nat>,
                                       i: nat, pad: nat)
    requires LaidOut(st, table, dst, chunkSize, placed) && i < |st| && i !in placed
    requires st[i].plain ==> (|dst| + pad) % BLOCK == 0
    requires !st[i].plain ==> BlocksN(|dst| + pad, st[i].len) <= chunkSize / BLOCK
    ensures LaidOut(st, table[i := Ext(st[i].plain, |dst| + pad, st[i].len)], dst + Zeros(pad) + st[i].data, chunkSize, placed + {i})
  {
    var e := Ext(st[i].plain, |dst| + pad, st[i].len);
    var table', dst' := table[i := e], dst + Zeros(pad) + st[i].data;
    assert dst'[|dst| + pad..] == st[i].data;
    assert dst' == dst + (Zeros(pad) + st[i].data);
    forall j | j in placed + {i} ensures j < |st| && At(st[j], table'[j], dst', chunkSize) {
      if j != i { AtLonger(st[j], table[j], dst, chunkSize, Zeros(pad) + st[i].data); }
    }
    hide Zeros;
    forall j | j in placed ensures Apart(st[j], table'[j], st[i], e) {
      assert At(st[j], table[j], dst, chunkSize);
    }
  }
}
