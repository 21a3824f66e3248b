/**
 Nodes as the tree sees them and nodes as bytes.  A view says how a tree reads a record: the rank of
 the key in the order of its comparison function, and the number its value stands for.  Under every
 view the operations on the bytes of a node do what the tree's operations do to its records.
 */
module PagedNode {
  import opened Layout
  import opened Bnode
  import opened PageMemory
  import opened SlottedPage
  import opened BnodePageModule

  // offset of key_len in struct vdfs4_generic_key
  const KEY_LEN_FIELD: nat := 4

  datatype View = View(rank: Raw -> int, val: Raw -> nat)

  /** A key as it is handed in: its key_len field is its length. */
  predicate KeyBytes(key: Raw) {
    MIN_KEY_LEN <= |key| <= MAX_KEY_LEN && Le16(key, KEY_LEN_FIELD) == |key|
  }

  /** A stored record whose key_len field is that of a key inside it. */
  predicate Framed(r: Raw) {
    RawOk(r) && MIN_KEY_LEN <= Le16(r, KEY_LEN_FIELD) <= MAX_KEY_LEN && Le16(r, KEY_LEN_FIELD) <= |r|
  }

  /** The record that a key and a value make. */
  function Made(v: View, key: Raw, value: Raw): Rec
    requires |key| >= MIN_KEY_LEN
  {
    Rec(v.rank(key[MIN_KEY_LEN..]), |key|, |key| + |value|, v.val(value))
  }

  /** What the tree sees of a stored record. */
  function Seen(v: View, r: Raw): Rec
    requires Framed(r)
  {
    var len := Le16(r, KEY_LEN_FIELD);
    Made(v, r[..len], r[len..])
  }

  ghost predicate SeenAs(v: View, raws: seq<Raw>, recs: seq<Rec>) {
    |raws| == |recs| && forall i :: 0 <= i < |raws| ==> Framed(raws[i]) && Seen(v, raws[i]) == recs[i]
  }

  /** The page is a good one, and the tree sees these records in it. */
  ghost predicate Represents(v: View, page: BnodePage, recs: seq<Rec>)
    reads page, page.data
  {
    page.Valid() && SeenAs(v, page.recs, recs)
  }

  /** The free space that the page keeps is the one that the tree reckons with, so both answer every test alike. */
  lemma {:induction false} FreeAgrees(v: View, page: BnodePage, recs: seq<Rec>)
    requires Represents(v, page, recs)
    ensures page.free == FreeSpace(page.size, recs) && page.count == |recs|
    ensures NodeSizeOk(page.size) && page.data.Length == page.size
    ensures RecsOk(recs) && Bytes(recs) + FIXED <= page.size
  {
    hide Holds, Le16;
    SameFreeSpace(page.size, page.data[..], page.free, page.recs, page.phys, page.rank, recs);
  }

  // ---------- records ----------

  /** Two bytes are fixed by the number they stand for. */
  lemma {:induction false} SamePair(a: Byte, b: Byte, c: Byte, d: Byte)
    requires (a as int) + 256 * (b as int) == (c as int) + 256 * (d as int)
    ensures a == c && b == d
  {
  }

  /** Copying a whole record copies it, its length field included. */
  lemma {:induction false} SameRecord(raw: Raw, r: Raw)
    requires RawOk(raw) && |r| == |raw| && Le16(r, LEN_FIELD) == |raw|
    requires forall k :: 0 <= k < |raw| && k != LEN_FIELD && k != LEN_FIELD + 1 ==> r[k] == raw[k]
    ensures r == raw
  {
    SamePair(r[LEN_FIELD], r[LEN_FIELD + 1], raw[LEN_FIELD], raw[LEN_FIELD + 1]);
  }

  /** A key with the record length patched in, and the value behind it, are seen as the record they make. */
  lemma {:induction false} PlacedSeen(v: View, key: Raw, value: Raw, r: Raw)
    requires KeyBytes(key) && |r| == |key| + |value| <= MAX_REC_LEN && Le16(r, LEN_FIELD) == |r|
    requires forall k :: 0 <= k < |key| && k != LEN_FIELD && k != LEN_FIELD + 1 ==> r[k] == key[k]
    ensures var q := Patched(r, |key|, value); Framed(q) && Seen(v, q) == Made(v, key, value)
  {
    var q := Patched(r, |key|, value);
    assert forall k :: 0 <= k < |key| ==> q[k] == r[k];
    assert Le16(q, KEY_LEN_FIELD) == |key|;
    assert q[..|key|][MIN_KEY_LEN..] == key[MIN_KEY_LEN..];
    assert q[|key|..] == value;
  }

  lemma {:induction false} SeenInserted(v: View, raws: seq<Raw>, recs: seq<Rec>, pos: nat, r: Raw)
    requires SeenAs(v, raws, recs) && pos <= |recs| && Framed(r)
    ensures SeenAs(v, InsertAt(raws, pos, r), InsertAt(recs, pos, Seen(v, r)))
  {
    hide Framed, Seen;
  }

  lemma {:induction false} SeenDeleted(v: View, raws: seq<Raw>, recs: seq<Rec>, pos: nat)
    requires SeenAs(v, raws, recs) && pos < |recs|
    ensures SeenAs(v, DeleteAt(raws, pos), DeleteAt(recs, pos))
  {
    hide Framed, Seen;
  }

  lemma {:induction false} SeenJoined(v: View, raws: seq<Raw>, recs: seq<Rec>, more: seq<Raw>, others: seq<Rec>)
    requires SeenAs(v, raws, recs) && SeenAs(v, more, others)
    ensures SeenAs(v, raws + more, recs + others)
  {
    hide Framed, Seen;
  }

  // ---------- the operations of a node ----------

  /** insert_key_into_bnode and the value that its caller writes. */
  method InsertRecord(v: View, page: BnodePage, key: Raw, value: Raw, pos: nat, ghost recs: seq<Rec>)
    requires Represents(v, page, recs) && KeyBytes(key) && |key| + |value| <= MAX_REC_LEN && pos <= |recs|
    requires !IsNodeFull(page.size, recs, |key| + |value|)
    modifies page, page.data
    ensures Represents(v, page, InsertAt(recs, pos, Made(v, key, value)))
  {
    hide BnodePage.Valid, SeenAs, KeyBytes, Le16, InsertAt, Patched, Made;
    FreeAgrees(v, page, recs);
    KeyLengths(key);
    ghost var raws := page.recs;
    ghost var r := page.Place(key, |key| + |value|, pos);
    SeenLength(v, raws, recs);
    InsertedAt(raws, pos, r);
    page.SetValue(pos, |key|, value);
    PlacedSeen(v, key, value, r);
    SeenInserted(v, raws, recs, pos, Patched(r, |key|, value));
    InsertThenSet(raws, pos, r, Patched(r, |key|, value));
  }

  lemma {:induction false} KeyLengths(key: Raw)
    requires KeyBytes(key)
    ensures MIN_KEY_LEN <= |key| <= MAX_KEY_LEN
  {
  }

  lemma {:induction false} SeenLength(v: View, raws: seq<Raw>, recs: seq<Rec>)
    requires SeenAs(v, raws, recs)
    ensures |raws| == |recs|
  {
  }

  lemma {:induction false} InsertedAt(raws: seq<Raw>, pos: nat, r: Raw)
    requires pos <= |raws|
    ensures InsertAt(raws, pos, r)[pos] == r
  {
  }

  lemma {:induction false} InsertThenSet(raws: seq<Raw>, pos: nat, r: Raw, q: Raw)
    requires pos <= |raws|
    ensures InsertAt(raws, pos, r)[pos := q] == InsertAt(raws, pos, q)
  {
  }

  /** append_bnode of a record from another node. */
  method AppendRecord(v: View, page: BnodePage, raw: Raw, ghost recs: seq<Rec>)
    requires Represents(v, page, recs) && Framed(raw) && !IsNodeFull(page.size, recs, |raw|)
    modifies page, page.data
    ensures Represents(v, page, recs + [Seen(v, raw)])
  {
    RawLengths(raw);
    hide BnodePage.Valid, SeenAs, Le16, Framed, RawOk;
    FreeAgrees(v, page, recs);
    ghost var raws := page.recs;
    ghost var r := PlaceLast(page, raw);
    SameRecord(raw, r);
    SeenOne(v, raws, recs, raw);
  }

  lemma {:induction false} RawLengths(raw: Raw)
    requires Framed(raw)
    ensures RawOk(raw) && MIN_KEY_LEN <= |raw| <= MAX_REC_LEN
  {
  }

  lemma {:induction false} SeenOne(v: View, raws: seq<Raw>, recs: seq<Rec>, raw: Raw)
    requires SeenAs(v, raws, recs) && Framed(raw)
    ensures SeenAs(v, raws + [raw], recs + [Seen(v, raw)])
  {
    hide Framed, Seen;
  }

  /** delete_from_node. */
  method DeleteRecord(v: View, page: BnodePage, pos: nat, ghost recs: seq<Rec>)
    requires Represents(v, page, recs) && pos < |recs|
    modifies page, page.data
    ensures Represents(v, page, DeleteAt(recs, pos))
  {
    hide BnodePage.Valid, SeenAs, DeleteAt;
    FreeAgrees(v, page, recs);
    SeenDeleted(v, page.recs, recs, pos);
    page.Delete(pos);
  }

  /** btree_merge: the test of rebalance on the tree's records is enough for the bytes. */
  method MergeNodes(v: View, left: BnodePage, right: BnodePage, ghost l: seq<Rec>, ghost q: seq<Rec>)
    requires Represents(v, left, l) && Represents(v, right, q) && right != left && right.data != left.data && right.size == left.size
    requires FreeSpace(left.size, l) + FreeSpace(left.size, q) >= left.size
    modifies left, left.data
    ensures Represents(v, left, l + q)
  {
    hide BnodePage.Valid, SeenAs, FreeSpace;
    FreeAgrees(v, left, l);
    FreeAgrees(v, right, q);
    SeenJoined(v, left.recs, l, right.recs, q);
    left.AppendAll(right);
  }

  /**
   split_bnode on the bytes of two nodes.  The left node is copied and emptied, and its records and
   the new one are placed into the halves one by one; no record finds too little room.  The halves
   are those that the tree's split makes of the records.
   */
  method SplitNode(v: View, left: BnodePage, right: BnodePage, key: Raw, value: Raw, counted: nat, pos: nat, ghost recs: seq<Rec>)
    returns (ghost l: seq<Rec>, ghost q: seq<Rec>)
    requires Represents(v, left, recs) && recs != [] && right != left && right.data != left.data
    requires right.size == left.size == right.data.Length
    requires KeyBytes(key) && |key| + |value| <= MAX_REC_LEN && counted <= MAX_REC_LEN && pos <= |recs|
    requires IsNodeFull(left.size, recs, |key| + |value|)
    modifies left, left.data, right, right.data
    ensures Represents(v, left, l) && Represents(v, right, q)
    ensures l + q == InsertAt(recs, pos, Made(v, key, value))
    ensures |l| == CutFrom(left.size, CountedLens(recs, pos, counted), 0)
    ensures |l| >= 2 && |q| >= 2 && Roomy(left.size, l) && Roomy(left.size, q)
  {
    hide Represents, CutFrom, CountedLens, Roomy, KeyBytes, IsNodeFull, RecsOk;
    FreeAgrees(v, left, recs);
    KeyLengths(key);
    assert SplitPending(left.size, recs, Made(v, key, value), counted, pos);
    hide SplitPending, Made;
    var orig := CopyNode(v, left, recs);
    EmptyNode(v, right);
    EmptyNode(v, left);
    l, q := Distribute(v, orig, left, right, key, value, counted, pos, recs);
  }

  method CopyNode(v: View, page: BnodePage, ghost recs: seq<Rec>) returns (orig: BnodePage)
    requires Represents(v, page, recs)
    ensures Represents(v, orig, recs) && fresh(orig) && fresh(orig.data) && orig.count == |recs|
  {
    hide Holds, SeenAs;
    FreeAgrees(v, page, recs);
    orig := new BnodePage.Copy(page);
  }

  method EmptyNode(v: View, page: BnodePage)
    requires NodeSizeOk(page.size) && page.data.Length == page.size
    modifies page, page.data
    ensures Represents(v, page, [])
  {
    hide Holds;
    page.Init();
  }

  /** The loop of split_bnode, from the copy to the two empty nodes. */
  method Distribute(v: View, orig: BnodePage, left: BnodePage, right: BnodePage, key: Raw, value: Raw, counted: nat, pos: nat,
                    ghost recs: seq<Rec>)
    returns (ghost l: seq<Rec>, ghost q: seq<Rec>)
    requires Represents(v, orig, recs) && Represents(v, left, []) && Represents(v, right, []) && orig.count == |recs|
    requires orig !in {left, right} && orig.data !in {left.data, right.data} && left != right && left.data != right.data
    requires left.size == right.size && KeyBytes(key) && |key| + |value| <= MAX_REC_LEN
    requires |key| >= MIN_KEY_LEN && SplitPending(left.size, recs, Made(v, key, value), counted, pos)
    modifies left, left.data, right, right.data
    ensures Represents(v, left, l) && Represents(v, right, q)
    ensures l + q == InsertAt(recs, pos, Made(v, key, value))
    ensures |l| == CutFrom(left.size, CountedLens(recs, pos, counted), 0)
    ensures |l| >= 2 && |q| >= 2 && Roomy(left.size, l) && Roomy(left.size, q)
  {
    var n := left.size;
    ghost var r := Made(v, key, value);
    assert r.rlen == |key| + |value|;
    SplitStart(n, recs, r, counted, pos);
    var i, inserted, used: nat, inRight := 0, false, FIXED, false;
    ghost var h := Halves(0, false, [], [], FIXED, false);
    ghost var err: int, sw: nat := 0, 0;
    hide Represents, SplitLoop, SplitPending, CutFrom, CountedLens, Roomy, Appended, KeyBytes, Made, FreeSpace;
    while i < orig.count || !inserted
      invariant Represents(v, orig, recs) && Represents(v, left, h.left) && Represents(v, right, h.right)
      invariant h.i == i && h.inserted == inserted && h.used == used && h.inRight == inRight
      invariant SplitLoop(n, recs, r, counted, pos, h, sw, err)
      decreases 2 * |recs| + 1 - 2 * i - (if inserted then 1 else 0)
    {
      sw, err := SplitRound(n, recs, r, counted, pos, h, sw, err);
      var isNew := i == pos && !inserted;
      var len := PlaceOne(v, orig, left, right, inRight, key, value, counted, isNew, i, recs, h.left, h.right);
      ghost var cur := if isNew then r else recs[i];
      AppendedParts(n, h, pos, cur, len);
      h := Appended(n, h, pos, cur, len);
      used := used + len + SLOT;
      if used > n / 2 {
        inRight := true;
      }
      if isNew {
        inserted := true;
      } else {
        i := i + 1;
      }
    }
    SplitEnd(n, recs, r, counted, pos, h, sw, err);
    l, q := h.left, h.right;
  }

  lemma {:induction false} AppendedParts(n: nat, h: Halves, pos: nat, cur: Rec, len: nat)
    ensures var g := Appended(n, h, pos, cur, len);
            && g.left == (if h.inRight then h.left else h.left + [cur])
            && g.right == (if h.inRight then h.right + [cur] else h.right)
            && g.used == h.used + len + SLOT && g.inRight == (h.inRight || g.used > n / 2)
            && if NewNext(h, pos) then g.i == h.i && g.inserted else g.i == h.i + 1 && g.inserted == h.inserted
  {
  }

  /** One round of the loop: the new record, or one of the old node, goes behind the others of a half. */
  method PlaceOne(v: View, orig: BnodePage, left: BnodePage, right: BnodePage, inRight: bool, key: Raw, value: Raw,
                  counted: nat, isNew: bool, i: nat, ghost recs: seq<Rec>, ghost l: seq<Rec>, ghost q: seq<Rec>)
    returns (len: nat)
    requires Represents(v, orig, recs) && Represents(v, left, l) && Represents(v, right, q)
    requires orig !in {left, right} && orig.data !in {left.data, right.data} && left != right && left.data != right.data
    requires left.size == right.size && KeyBytes(key) && |key| + |value| <= MAX_REC_LEN && (isNew || i < |recs|)
    requires FreeSpace(left.size, if inRight then q else l) >= (if isNew then |key| + |value| else recs[i].rlen) + SLOT
    modifies left, left.data, right, right.data
    ensures Represents(v, orig, recs) && len == if isNew then counted else recs[i].rlen
    ensures var cur := if isNew then Made(v, key, value) else recs[i];
            Represents(v, left, if inRight then l else l + [cur]) && Represents(v, right, if inRight then q + [cur] else q)
  {
    hide BnodePage.Valid, SeenAs, KeyBytes, Made, FreeSpace;
    if isNew {
      len := counted;
      if inRight {
        PlaceNew(v, right, key, value, q);
      } else {
        PlaceNew(v, left, key, value, l);
      }
    } else if inRight {
      len := CopyOver(v, orig, i, right, recs, q);
    } else {
      len := CopyOver(v, orig, i, left, recs, l);
    }
  }

  method PlaceNew(v: View, page: BnodePage, key: Raw, value: Raw, ghost recs: seq<Rec>)
    requires Represents(v, page, recs) && KeyBytes(key) && |key| + |value| <= MAX_REC_LEN
    requires FreeSpace(page.size, recs) >= |key| + |value| + SLOT
    modifies page, page.data
    ensures Represents(v, page, recs + [Made(v, key, value)])
  {
    hide BnodePage.Valid, SeenAs, KeyBytes, Made, FreeSpace;
    FreeAgrees(v, page, recs);
    KeyLengths(key);
    InsertRecord(v, page, key, value, page.count, recs);
    assert InsertAt(recs, |recs|, Made(v, key, value)) == recs + [Made(v, key, value)];
  }

  method CopyOver(v: View, orig: BnodePage, i: nat, page: BnodePage, ghost from: seq<Rec>, ghost recs: seq<Rec>) returns (len: nat)
    requires Represents(v, orig, from) && Represents(v, page, recs) && i < |from| && orig != page && orig.data != page.data
    requires FreeSpace(page.size, recs) >= from[i].rlen + SLOT
    modifies page, page.data
    ensures Represents(v, page, recs + [from[i]]) && Represents(v, orig, from) && len == from[i].rlen
  {
    hide BnodePage.Valid, FreeSpace, Le16, Framed, Seen;
    FreeAgrees(v, orig, from);
    var raw := orig.GetRecord(i);
    assert Framed(raw) && Seen(v, raw) == from[i];
    SeenRecLen(v, raw);
    len := |raw|;
    AppendRecord(v, page, raw, recs);
  }

  lemma {:induction false} SeenRecLen(v: View, raw: Raw)
    requires Framed(raw)
    ensures Seen(v, raw).rlen == |raw|
  {
  }
}
