/**
 The algorithms that work inside one node: the binary search for the floor of a key,
 and the loop that distributes the records of a full node, and one new record, over
 two nodes.
 */
module Bnode {
  import opened Layout
  import opened Levels
  import opened LevelOps

  datatype Search = Absent | Found(pos: nat)

  /** binary_search: the floor of key, or Absent if every record is above key. */
  method BinarySearch(recs: seq<Rec>, key: int) returns (res: Search)
    requires recs != [] && SortedRecs(recs)
    ensures res.Absent? <==> key < recs[0].key
    ensures res.Found? ==> FloorAt(recs, res.pos, key)
  {
    var first, last := 0, |recs| - 1;
    if recs[first].key > key {
      return Absent;
    }
    if recs[first].key == key || last == first {
      return Found(first);
    }
    if recs[last].key <= key {
      return Found(last);
    }
    while first < last - 1
      invariant 0 <= first < last < |recs|
      invariant recs[first].key <= key < recs[last].key
    {
      var mid := first + (last + 1 - first) / 2;
      if recs[mid].key == key {
        return Found(mid);
      }
      if recs[mid].key < key {
        first := mid;
      } else {
        last := mid;
      }
    }
    return Found(first);
  }

  /** is_node_full, for a record of the given length. */
  predicate IsNodeFull(n: nat, recs: seq<Rec>, len: nat) {
    FreeSpace(n, recs) < len + SLOT
  }

  /** A node that takes one more record of any admissible length without a split. */
  predicate Roomy(n: nat, recs: seq<Rec>) {
    Bytes(recs) + MAX_REC_LEN + SLOT + FIXED <= n
  }

  lemma {:induction false} BytesBound(s: seq<Rec>, k: nat)
    requires RecsOk(s) && k <= |s|
    ensures BytesTo(s, k) <= k * (MAX_REC_LEN + SLOT)
  {
    if k > 0 {
      BytesBound(s, k - 1);
      assert RecOk(s[k - 1]);
    }
  }

  lemma {:induction false} AtLeastTwo(s: seq<Rec>)
    requires RecsOk(s) && Bytes(s) > MAX_REC_LEN + SLOT
    ensures |s| >= 2
  {
    BytesBound(s, |s|);
  }

  lemma {:induction false} BytesMonotone(t: seq<Rec>, k: nat, m: nat)
    requires k <= m <= |t|
    ensures BytesTo(t, k) <= BytesTo(t, m)
  {
    if k < m {
      BytesMonotone(t, k, m - 1);
    }
  }

  lemma {:induction false} TakeOne(t: seq<Rec>, k: nat)
    requires k < |t|
    ensures t[..k + 1] == t[..k] + [t[k]]
    ensures BytesTo(t, k + 1) == BytesTo(t, k) + t[k].rlen + SLOT <= Bytes(t)
  {
    BytesMonotone(t, k + 1, |t|);
  }

  // ---------- where split_bnode cuts ----------

  /** The count of the split loop after k records whose lengths are taken to be c. */
  ghost function UsedAfter(c: seq<nat>, k: nat): nat
    requires k <= |c|
  {
    if k == 0 then FIXED else UsedAfter(c, k - 1) + c[k - 1] + SLOT
  }

  /** From k records on: the first number of records whose count passes the middle of the node. */
  ghost function CutFrom(n: nat, c: seq<nat>, k: nat): nat
    requires k <= |c|
    decreases |c| - k
  {
    if k == |c| || UsedAfter(c, k) > n / 2 then k else CutFrom(n, c, k + 1)
  }

  /** The lengths that the loop counts: those of the records, and another one for the new record. */
  ghost function CountedLens(recs: seq<Rec>, pos: nat, counted: nat): (c: seq<nat>)
    requires pos <= |recs|
    ensures |c| == |recs| + 1
  {
    InsertAt(seq<nat>(|recs|, i requires 0 <= i < |recs| => recs[i].rlen), pos, counted)
  }

  /**
   The loop after k records: used is the count.  Until it passes the middle all of them are in
   the left half, afterwards the left half is what it was then.
   */
  ghost predicate CutOk(n: nat, c: seq<nat>, k: nat, used: nat, inRight: bool, left: nat) {
    && k <= |c| && used == UsedAfter(c, k)
    && (!inRight ==> left == k && used <= n / 2 && CutFrom(n, c, 0) == CutFrom(n, c, k))
    && (inRight ==> left == CutFrom(n, c, 0))
  }

  lemma {:induction false} CutStep(n: nat, c: seq<nat>, k: nat, used: nat, inRight: bool, left: nat)
    requires CutOk(n, c, k, used, inRight, left) && k < |c|
    ensures var used' := used + c[k] + SLOT;
            CutOk(n, c, k + 1, used', inRight || used' > n / 2, if inRight then left else left + 1)
  {
    assert UsedAfter(c, k + 1) == used + c[k] + SLOT;
    if !inRight { assert CutFrom(n, c, k) == CutFrom(n, c, k + 1); }
  }

  // ---------- the sizes of the halves ----------

  /**
   The state of the split loop: used is the count so far, off by err from the bytes lb and rb that
   the halves take.  Until the count passes the middle everything goes left; sw is the count when
   it did.
   */
  ghost predicate Filling(n: nat, lb: nat, rb: nat, used: nat, inRight: bool, sw: nat, err: int) {
    && used == FIXED + lb + rb + err
    && 0 <= err + MAX_REC_LEN <= 2 * MAX_REC_LEN
    && (!inRight ==> rb == 0 && used <= n / 2)
    && (inRight ==> n / 2 < sw <= n / 2 + MAX_REC_LEN + SLOT)
    && (inRight ==> sw <= FIXED + lb + MAX_REC_LEN && FIXED + lb <= sw + MAX_REC_LEN)
  }

  /**
   One round of the split loop: len is counted for a record that takes rlen bytes.  It fits into the
   half being filled, so the BUG_ON of __place_into_node cannot strike.
   */
  lemma {:induction false} FillStep(n: nat, lb: nat, rb: nat, used: nat, inRight: bool, sw: nat, err: int, rlen: nat, len: nat)
    returns (sw': nat)
    requires NodeSizeOk(n) && rlen <= MAX_REC_LEN && len <= MAX_REC_LEN
    requires Filling(n, lb, rb, used, inRight, sw, err)
    requires lb + rb + rlen + FIXED <= n + MAX_REC_LEN
    requires 0 <= err + len - rlen + MAX_REC_LEN <= 2 * MAX_REC_LEN
    ensures n - FIXED - (if inRight then rb else lb) >= rlen + SLOT
    ensures var used' := used + len + SLOT;
            Filling(n, if inRight then lb else lb + rlen + SLOT, if inRight then rb + rlen + SLOT else rb,
                    used', inRight || used' > n / 2, sw', err + len - rlen)
  {
    sw' := if !inRight && used + len + SLOT > n / 2 then used + len + SLOT else sw;
  }

  /** Both halves of a full node are far from empty and far from full, wherever near the middle it was cut. */
  lemma {:induction false} SplitSizes(n: nat, t: seq<Rec>, left: seq<Rec>, right: seq<Rec>, sw: nat)
    requires NodeSizeOk(n) && RecsOk(t) && left + right == t
    requires n - FIXED < Bytes(t) && Bytes(t) + FIXED <= n + MAX_REC_LEN + SLOT
    requires n / 2 < sw <= n / 2 + MAX_REC_LEN + SLOT
    requires sw <= FIXED + Bytes(left) + MAX_REC_LEN && FIXED + Bytes(left) <= sw + MAX_REC_LEN
    ensures |left| >= 2 && |right| >= 2
    ensures Roomy(n, left) && Roomy(n, right)
  {
    BytesConcat(left, right);
    assert forall x :: 0 <= x < |left| ==> left[x] == t[x];
    assert forall x :: 0 <= x < |right| ==> right[x] == t[|left| + x];
    AtLeastTwo(left);
    AtLeastTwo(right);
  }

  /** A full node, and a record that goes to position pos. */
  ghost predicate SplitPending(n: nat, recs: seq<Rec>, r: Rec, counted: nat, pos: nat) {
    && NodeSizeOk(n) && recs != [] && RecsOk(recs) && RecOk(r)
    && pos <= |recs| && counted <= MAX_REC_LEN
    && Bytes(recs) + FIXED <= n && IsNodeFull(n, recs, r.rlen)
  }

  /** The variables of the split loop: i old records are placed, and the new one if inserted. */
  datatype Halves = Halves(i: nat, inserted: bool, left: seq<Rec>, right: seq<Rec>, used: nat, inRight: bool)

  /** The next record is the new one. */
  predicate NewNext(h: Halves, pos: nat) {
    h.i == pos && !h.inserted
  }

  /** One round: count a length for the record cur, append it to the half being filled, and look whether the middle is passed. */
  function Appended(n: nat, h: Halves, pos: nat, cur: Rec, len: nat): Halves {
    var used := h.used + len + SLOT;
    Halves(if NewNext(h, pos) then h.i else h.i + 1, h.inserted || NewNext(h, pos),
           if h.inRight then h.left else h.left + [cur], if h.inRight then h.right + [cur] else h.right,
           used, h.inRight || used > n / 2)
  }

  function Placed(h: Halves): nat {
    if h.inserted then h.i + 1 else h.i
  }

  ghost predicate SplitLoop(n: nat, recs: seq<Rec>, r: Rec, counted: nat, pos: nat, h: Halves, sw: nat, err: int) {
    && h.i <= |recs| && pos <= |recs|
    && (if h.inserted then pos <= h.i else h.i <= pos && err == 0)
    && h.left + h.right == InsertAt(recs, pos, r)[..Placed(h)] && (!h.inRight ==> h.right == [])
    && Bytes(h.left) + Bytes(h.right) == BytesTo(InsertAt(recs, pos, r), Placed(h))
    && Filling(n, Bytes(h.left), Bytes(h.right), h.used, h.inRight, sw, err)
    && CutOk(n, CountedLens(recs, pos, counted), Placed(h), h.used, h.inRight, |h.left|)
  }

  lemma {:induction false} SplitStart(n: nat, recs: seq<Rec>, r: Rec, counted: nat, pos: nat)
    requires SplitPending(n, recs, r, counted, pos)
    ensures SplitLoop(n, recs, r, counted, pos, Halves(0, false, [], [], FIXED, false), 0, 0)
  {
    hide CountedLens, IsNodeFull, RecsOk;
  }

  /** A full node and one more record: more than a node, by less than a record and its slot. */
  lemma {:induction false} FullSizes(n: nat, recs: seq<Rec>, r: Rec, pos: nat)
    requires pos <= |recs| && RecsOk(recs) && RecOk(r) && Bytes(recs) + FIXED <= n && IsNodeFull(n, recs, r.rlen)
    ensures var t := InsertAt(recs, pos, r);
            RecsOk(t) && n - FIXED < Bytes(t) && Bytes(t) + FIXED <= n + MAX_REC_LEN + SLOT
  {
    BytesInsert(recs, pos, r);
  }

  /** Which record the split loop takes in a round, and the length it counts. */
  lemma {:induction false} Turn(recs: seq<Rec>, pos: nat, r: Rec, counted: nat, i: nat, inserted: bool)
    requires pos <= |recs| && RecsOk(recs) && RecOk(r) && i <= |recs| && (i < |recs| || !inserted)
    requires if inserted then pos <= i else i <= pos
    ensures var k := if inserted then i + 1 else i;
            var isNew := i == pos && !inserted;
            && k < |recs| + 1 && (!isNew ==> i < |recs|)
            && InsertAt(recs, pos, r)[k] == (if isNew then r else recs[i]) && RecOk(InsertAt(recs, pos, r)[k])
            && CountedLens(recs, pos, counted)[k] == if isNew then counted else recs[i].rlen
  {
  }

  /** The record of a round goes to the half being filled, which has room for it. */
  lemma {:induction false} HalfAppended(left: seq<Rec>, right: seq<Rec>, inRight: bool, r: Rec)
    requires !inRight ==> right == []
    ensures var l, q := if inRight then left else left + [r], if inRight then right + [r] else right;
            && l + q == left + right + [r]
            && Bytes(l) == (if inRight then Bytes(left) else Bytes(left) + r.rlen + SLOT)
            && Bytes(q) == if inRight then Bytes(right) + r.rlen + SLOT else Bytes(right)
  {
    BytesAppend(left, r);
    BytesAppend(right, r);
    assert left + (right + [r]) == left + right + [r];
  }

  lemma {:induction false} SplitRound(n: nat, recs: seq<Rec>, r: Rec, counted: nat, pos: nat, h: Halves, sw: nat, err: int)
    returns (sw': nat, err': int)
    requires SplitPending(n, recs, r, counted, pos) && (h.i < |recs| || !h.inserted)
    requires SplitLoop(n, recs, r, counted, pos, h, sw, err)
    ensures NewNext(h, pos) || h.i < |recs|
    ensures var cur, len := if NewNext(h, pos) then r else recs[h.i], if NewNext(h, pos) then counted else recs[h.i].rlen;
            && FreeSpace(n, if h.inRight then h.right else h.left) >= cur.rlen + SLOT
            && SplitLoop(n, recs, r, counted, pos, Appended(n, h, pos, cur, len), sw', err')
  {
    Turn(recs, pos, r, counted, h.i, h.inserted);
    var k, t, c := Placed(h), InsertAt(recs, pos, r), CountedLens(recs, pos, counted);
    RoundSizes(n, recs, r, counted, pos, h, sw, err);
    sw' := FillStep(n, Bytes(h.left), Bytes(h.right), h.used, h.inRight, sw, err, t[k].rlen, c[k]);
    err' := err + c[k] - t[k].rlen;
    RoundKeeps(n, recs, r, counted, pos, h, sw', err');
  }

  /** What a round may rely on: the record and the length that is counted stay within the bounds of FillStep. */
  lemma {:induction false} RoundSizes(n: nat, recs: seq<Rec>, r: Rec, counted: nat, pos: nat, h: Halves, sw: nat, err: int)
    requires SplitPending(n, recs, r, counted, pos) && (h.i < |recs| || !h.inserted)
    requires SplitLoop(n, recs, r, counted, pos, h, sw, err)
    ensures Placed(h) < |recs| + 1
    ensures var t, c := InsertAt(recs, pos, r)[Placed(h)], CountedLens(recs, pos, counted)[Placed(h)];
            && t.rlen <= MAX_REC_LEN && c <= MAX_REC_LEN
            && Bytes(h.left) + Bytes(h.right) + t.rlen + FIXED <= n + MAX_REC_LEN
            && 0 <= err + c - t.rlen + MAX_REC_LEN <= 2 * MAX_REC_LEN
  {
    Turn(recs, pos, r, counted, h.i, h.inserted);
    FullSizes(n, recs, r, pos);
    hide CountedLens, RecsOk, IsNodeFull, CutOk, InsertAt;
    TakeOne(InsertAt(recs, pos, r), Placed(h));
  }

  lemma {:induction false} RoundKeeps(n: nat, recs: seq<Rec>, r: Rec, counted: nat, pos: nat, h: Halves, sw: nat, err: int)
    requires h.i <= |recs| && pos <= |recs| && Placed(h) < |recs| + 1 && (if h.inserted then pos <= h.i else h.i <= pos)
    requires h.left + h.right == InsertAt(recs, pos, r)[..Placed(h)] && (!h.inRight ==> h.right == [])
    requires Bytes(h.left) + Bytes(h.right) == BytesTo(InsertAt(recs, pos, r), Placed(h))
    requires CutOk(n, CountedLens(recs, pos, counted), Placed(h), h.used, h.inRight, |h.left|)
    requires var t, c := InsertAt(recs, pos, r)[Placed(h)], CountedLens(recs, pos, counted)[Placed(h)];
             && (!h.inserted && h.i != pos ==> err == 0)
             && Filling(n, if h.inRight then Bytes(h.left) else Bytes(h.left) + t.rlen + SLOT,
                        if h.inRight then Bytes(h.right) + t.rlen + SLOT else Bytes(h.right),
                        h.used + c + SLOT, h.inRight || h.used + c + SLOT > n / 2, sw, err)
    ensures var t, c := InsertAt(recs, pos, r)[Placed(h)], CountedLens(recs, pos, counted)[Placed(h)];
            SplitLoop(n, recs, r, counted, pos, Appended(n, h, pos, t, c), sw, err)
  {
    var k, t, c := Placed(h), InsertAt(recs, pos, r), CountedLens(recs, pos, counted);
    hide InsertAt, CountedLens, Filling, CutOk, BytesTo, Bytes;
    RoundRecs(n, t, h, pos, c[k]);
    CutStep(n, c, k, h.used, h.inRight, |h.left|);
  }

  /** The records of the halves after a round. */
  lemma {:induction false} RoundRecs(n: nat, t: seq<Rec>, h: Halves, pos: nat, len: nat)
    requires Placed(h) < |t| && h.left + h.right == t[..Placed(h)] && (!h.inRight ==> h.right == [])
    requires Bytes(h.left) + Bytes(h.right) == BytesTo(t, Placed(h)) && (h.inserted || h.i <= pos)
    ensures var k, g := Placed(h), Appended(n, h, pos, t[Placed(h)], len);
            && Placed(g) == k + 1 && g.left + g.right == t[..k + 1] && (!g.inRight ==> g.right == [])
            && Bytes(g.left) + Bytes(g.right) == BytesTo(t, k + 1)
            && Bytes(g.left) == (if h.inRight then Bytes(h.left) else Bytes(h.left) + t[k].rlen + SLOT)
            && Bytes(g.right) == (if h.inRight then Bytes(h.right) + t[k].rlen + SLOT else Bytes(h.right))
  {
    TakeOne(t, Placed(h));
    HalfAppended(h.left, h.right, h.inRight, t[Placed(h)]);
    hide BytesTo, Bytes;
  }

  /** When all records are placed the count has passed the middle. */
  lemma {:induction false} SplitEnd(n: nat, recs: seq<Rec>, r: Rec, counted: nat, pos: nat, h: Halves, sw: nat, err: int)
    requires SplitPending(n, recs, r, counted, pos) && h.i >= |recs| && h.inserted
    requires SplitLoop(n, recs, r, counted, pos, h, sw, err)
    ensures h.left + h.right == InsertAt(recs, pos, r)
    ensures |h.left| == CutFrom(n, CountedLens(recs, pos, counted), 0)
    ensures |h.left| >= 2 && |h.right| >= 2
    ensures Roomy(n, h.left) && Roomy(n, h.right)
  {
    var t := InsertAt(recs, pos, r);
    FullSizes(n, recs, r, pos);
    hide CountedLens, InsertAt;
    assert t[..|recs| + 1] == t;
    assert h.inRight;
    SplitSizes(n, t, h.left, h.right, sw);
  }

  /**
   split_bnode.  The halfway point is found by counting record lengths, and for the new
   record the length counted is counted, the record_len field of the key it was made
   from, while r.rlen bytes are placed.
   */
  method SplitBnode(n: nat, recs: seq<Rec>, r: Rec, counted: nat, insertPos: nat)
    returns (left: seq<Rec>, right: seq<Rec>)
    requires NodeSizeOk(n) && recs != [] && RecsOk(recs) && RecOk(r)
    requires insertPos <= |recs| && counted <= MAX_REC_LEN
    requires Bytes(recs) + FIXED <= n && IsNodeFull(n, recs, r.rlen)
    ensures left + right == InsertAt(recs, insertPos, r)
    ensures |left| == CutFrom(n, CountedLens(recs, insertPos, counted), 0)
    ensures |left| >= 2 && |right| >= 2
    ensures Roomy(n, left) && Roomy(n, right)
  {
    SplitStart(n, recs, r, counted, insertPos);
    var h := Halves(0, false, [], [], FIXED, false);
    ghost var err: int, sw: nat := 0, 0;
    hide SplitLoop, CutFrom, CountedLens, Roomy, FreeSpace, Appended;
    while h.i < |recs| || !h.inserted
      invariant SplitLoop(n, recs, r, counted, insertPos, h, sw, err)
      decreases 2 * |recs| + 1 - 2 * h.i - (if h.inserted then 1 else 0)
    {
      sw, err := SplitRound(n, recs, r, counted, insertPos, h, sw, err);
      var cur := if NewNext(h, insertPos) then r else recs[h.i];
      assert FreeSpace(n, if h.inRight then h.right else h.left) >= cur.rlen + SLOT;
      Further(n, h, insertPos, cur, if NewNext(h, insertPos) then counted else cur.rlen);
      h := Appended(n, h, insertPos, cur, if NewNext(h, insertPos) then counted else cur.rlen);
    }
    SplitEnd(n, recs, r, counted, insertPos, h, sw, err);
    return h.left, h.right;
  }

  lemma {:induction false} Further(n: nat, h: Halves, pos: nat, cur: Rec, len: nat)
    ensures var g := Appended(n, h, pos, cur, len);
            if NewNext(h, pos) then g.i == h.i && g.inserted else g.i == h.i + 1 && g.inserted == h.inserted
  {
  }
}
