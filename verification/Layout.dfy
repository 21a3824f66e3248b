/**
 Records, pages and the byte arithmetic shared by the slotted page and the tree.

 A record carries its key, the length of the key, the length of the whole record
 and its value.  The tree code only ever uses the sign that the tree's comparison
 function returns, so a key is represented by its rank in that order.  The value
 of an index record is the id of a child node.
 */
module Layout {

  // sizeof(struct vdfs4_gen_node_descr)
  const HEADER: nat := 32
  // sizeof(vdfs4_bt_off_t)
  const SLOT: nat := 4
  // VDFS4_BNODE_FIRST_OFFSET, the room kept for the CRC at the end of a node
  const TAIL: nat := 4
  // header, CRC and the slot that holds the offset of the free area
  const FIXED: nat := HEADER + SLOT + TAIL

  const MIN_NODE_SIZE: nat := 8192
  const MAX_NODE_SIZE: nat := 65536

  // sizeof(struct vdfs4_generic_key)
  const MIN_KEY_LEN: nat := 8
  // VDFS4_MAX_BTREE_KEY_LEN
  const MAX_KEY_LEN: nat := 288
  // VDFS4_MAX_BTREE_REC_LEN
  const MAX_REC_LEN: nat := 600
  // sizeof(struct generic_index_value)
  const INDEX_VALUE: nat := 4

  // VDFS4_INVALID_NODE_ID
  const NO_NODE: nat := 0

  datatype Rec = Rec(key: int, klen: nat, rlen: nat, val: nat)

  predicate NodeSizeOk(n: nat) {
    MIN_NODE_SIZE <= n <= MAX_NODE_SIZE
  }

  predicate RecOk(r: Rec) {
    MIN_KEY_LEN <= r.klen <= MAX_KEY_LEN && r.klen <= r.rlen <= MAX_REC_LEN
  }

  predicate RecsOk(s: seq<Rec>) {
    forall i :: 0 <= i < |s| ==> RecOk(s[i])
  }

  /** Bytes that the first k records take in a node: the records and their slots. */
  function BytesTo(s: seq<Rec>, k: nat): nat
    requires k <= |s|
  {
    if k == 0 then 0 else BytesTo(s, k - 1) + s[k - 1].rlen + SLOT
  }

  /** Bytes that a run of records takes in a node. */
  function Bytes(s: seq<Rec>): nat {
    BytesTo(s, |s|)
  }

  /** The free_space field of a node that holds exactly the given records. */
  function FreeSpace(n: nat, s: seq<Rec>): int {
    n - FIXED - Bytes(s)
  }

  lemma {:induction false} BytesPrefix(a: seq<Rec>, b: seq<Rec>, k: nat)
    requires k <= |a| <= |b| && a == b[..|a|]
    ensures BytesTo(a, k) == BytesTo(b, k)
  {
    if k > 0 {
      BytesPrefix(a, b, k - 1);
    }
  }

  lemma {:induction false} BytesConcatTo(a: seq<Rec>, b: seq<Rec>, k: nat)
    requires k <= |b|
    ensures BytesTo(a + b, |a| + k) == Bytes(a) + BytesTo(b, k)
  {
    if k == 0 {
      BytesPrefix(a, a + b, |a|);
    } else {
      BytesConcatTo(a, b, k - 1);
    }
  }

  lemma {:induction false} BytesConcat(a: seq<Rec>, b: seq<Rec>)
    ensures Bytes(a + b) == Bytes(a) + Bytes(b)
  {
    BytesConcatTo(a, b, |b|);
  }

  lemma {:induction false} BytesAppend(s: seq<Rec>, r: Rec)
    ensures Bytes(s + [r]) == Bytes(s) + r.rlen + SLOT
  {
    BytesPrefix(s, s + [r], |s|);
  }

  function InsertAt<T>(s: seq<T>, pos: nat, r: T): (t: seq<T>)
    requires pos <= |s|
    ensures |t| == |s| + 1
  {
    s[..pos] + [r] + s[pos..]
  }

  function DeleteAt<T>(s: seq<T>, pos: nat): (t: seq<T>)
    requires pos < |s|
    ensures |t| == |s| - 1
  {
    s[..pos] + s[pos + 1..]
  }

  /** The elements i..j of a sequence replaced by others. */
  function Splice<T>(s: seq<T>, i: nat, j: nat, mid: seq<T>): seq<T>
    requires i <= j <= |s|
  {
    s[..i] + mid + s[j..]
  }

  lemma {:induction false} BytesInsert(s: seq<Rec>, pos: nat, r: Rec)
    requires pos <= |s|
    ensures Bytes(InsertAt(s, pos, r)) == Bytes(s) + r.rlen + SLOT
  {
    BytesConcat(s[..pos] + [r], s[pos..]);
    BytesAppend(s[..pos], r);
    assert s == s[..pos] + s[pos..];
    BytesConcat(s[..pos], s[pos..]);
  }

  lemma {:induction false} BytesDelete(s: seq<Rec>, pos: nat)
    requires pos < |s|
    ensures Bytes(DeleteAt(s, pos)) == Bytes(s) - s[pos].rlen - SLOT
  {
    BytesConcat(s[..pos], s[pos + 1..]);
    assert s == InsertAt(DeleteAt(s, pos), pos, s[pos]);
    BytesInsert(DeleteAt(s, pos), pos, s[pos]);
  }
}
