/**
 The extents that a file has claimed but not yet allocated (vdfs-tools/lib/extents.c).  The list
 need not be sorted: taking a block out of the middle puts the right part in front of the left.
 */
module RuntimeExtentsModule {
  import opened Layout
  import opened FreeList

  ghost predicate Disjoint(list: seq<Item>) {
    && (forall i :: 0 <= i < |list| ==> list[i].length > 0)
    && (forall i, j, p: nat :: 0 <= i < j < |list| && In(list[i], p) ==> !In(list[j], p))
  }

  /** Covering by a list is covering by one of its parts. */
  lemma {:induction false} CoveredConcat(a: seq<Item>, b: seq<Item>, p: nat)
    ensures Covered(a + b, p) <==> Covered(a, p) || Covered(b, p)
  {
    if Covered(a, p) {
      var i :| 0 <= i < |a| && In(a[i], p);
      assert In((a + b)[i], p);
    }
    if Covered(b, p) {
      var i :| 0 <= i < |b| && In(b[i], p);
      assert In((a + b)[|a| + i], p);
    }
  }

  lemma {:induction false} CoveredParts(list: seq<Item>, i: nat, j: nat, p: nat)
    requires i <= j <= |list|
    ensures Covered(list, p) <==> Covered(list[..i], p) || Covered(list[i..j], p) || Covered(list[j..], p)
  {
    CoveredConcat(list[..i] + list[i..j], list[j..], p);
    CoveredConcat(list[..i], list[i..j], p);
    assert list == list[..i] + list[i..j] + list[j..];
  }

  lemma {:induction false} CoveredSplice(list: seq<Item>, i: nat, j: nat, mid: seq<Item>, p: nat)
    requires i <= j <= |list|
    ensures Covered(Splice(list, i, j, mid), p) <==> Covered(list[..i], p) || Covered(mid, p) || Covered(list[j..], p)
  {
    CoveredConcat(list[..i] + mid, list[j..], p);
    CoveredConcat(list[..i], mid, p);
  }

  /** Three runs of extents that share no block make a list without shared blocks. */
  lemma {:induction false} DisjointConcat(a: seq<Item>, b: seq<Item>)
    requires Disjoint(a) && Disjoint(b) && forall p: nat :: Covered(a, p) ==> !Covered(b, p)
    ensures Disjoint(a + b)
  {
    var c := a + b;
    forall i, j, p: nat | 0 <= i < j < |c| && In(c[i], p) ensures !In(c[j], p) {
      if i < |a| <= j {
        assert Covered(a, p);
        assert b[j - |a|] == c[j];
      }
    }
  }

  lemma {:induction false} DisjointParts(list: seq<Item>, i: nat, j: nat, p: nat)
    requires Disjoint(list) && i <= j <= |list|
    ensures Disjoint(list[..i]) && Disjoint(list[j..]) && Disjoint(list[i..j])
    ensures Covered(list[..i], p) ==> !Covered(list[j..], p) && !Covered(list[i..j], p)
    ensures Covered(list[i..j], p) ==> !Covered(list[j..], p)
  {
    var a, b, c := list[..i], list[i..j], list[j..];
    assert forall k :: 0 <= k < |a| ==> a[k] == list[k];
    assert forall k :: 0 <= k < |b| ==> b[k] == list[i + k];
    assert forall k :: 0 <= k < |c| ==> c[k] == list[j + k];
  }

  /** A part replaced by one that covers no block of the other extents. */
  lemma {:induction false} SpliceOk(list: seq<Item>, i: nat, j: nat, mid: seq<Item>)
    requires Disjoint(list) && i <= j <= |list| && Disjoint(mid)
    requires forall p: nat :: Covered(mid, p) ==> Covered(list[i..j], p) || !Covered(list, p)
    ensures Disjoint(Splice(list, i, j, mid))
    ensures forall p: nat :: Covered(Splice(list, i, j, mid), p)
              <==> (Covered(list, p) && !Covered(list[i..j], p)) || Covered(mid, p)
  {
    var a, c := list[..i], list[j..];
    forall p: nat
      ensures Covered(a, p) ==> !Covered(mid, p)
      ensures Covered(a + mid, p) ==> !Covered(c, p)
      ensures Covered(Splice(list, i, j, mid), p) <==> (Covered(list, p) && !Covered(list[i..j], p)) || Covered(mid, p)
    {
      CoveredParts(list, i, j, p);
      DisjointParts(list, i, j, p);
      CoveredConcat(a, mid, p);
      CoveredSplice(list, i, j, mid, p);
    }
    DisjointParts(list, i, j, 0);
    DisjointConcat(a, mid);
    DisjointConcat(a + mid, c);
  }

  // ---------- counting ----------

  ghost function Range(at: nat, len: nat): set<nat> {
    if len == 0 then {} else Range(at, len - 1) + {at + len - 1}
  }

  lemma {:induction false} RangeFacts(at: nat, len: nat)
    ensures |Range(at, len)| == len
    ensures forall p: nat :: p in Range(at, len) <==> at <= p < at + len
  {
    if len > 0 { RangeFacts(at, len - 1); }
  }

  ghost predicate Exactly(list: seq<Item>, blocks: set<nat>) {
    forall p: nat :: p in blocks <==> Covered(list, p)
  }

  /** The lengths of the extents add up to the number of blocks. */
  lemma {:induction false} TotalIsSize(list: seq<Item>, blocks: set<nat>)
    requires Disjoint(list) && Exactly(list, blocks)
    ensures Total(list) == |blocks|
    decreases |list|
  {
    if list == [] {
      assert forall p :: p in blocks ==> Covered(list, p);
      assert blocks == {};
    } else {
      var n := |list| - 1;
      var last := Range(list[n].offset, list[n].length);
      WithoutLast(list, blocks);
      hide Disjoint, Exactly;
      TotalIsSize(list[..n], blocks - last);
      RangeFacts(list[n].offset, list[n].length);
      assert blocks == (blocks - last) + last;
    }
  }

  lemma {:induction false} WithoutLast(list: seq<Item>, blocks: set<nat>)
    requires Disjoint(list) && Exactly(list, blocks) && list != []
    ensures var n := |list| - 1;
            var last := Range(list[n].offset, list[n].length);
            last <= blocks && Disjoint(list[..n]) && Exactly(list[..n], blocks - last)
  {
    var n := |list| - 1;
    var it := list[n];
    var last := Range(it.offset, it.length);
    RangeFacts(it.offset, it.length);
    assert list[n..] == [it] && list[n..n] == [];
    forall p: nat ensures p in blocks - last <==> Covered(list[..n], p)
                  ensures p in last ==> p in blocks
    {
      CoveredParts(list, n, n, p);
      DisjointParts(list, n, n, p);
      One(it, p);
    }
    DisjointParts(list, n, n, 0);
  }

  /** What a change of one part of the list does to the set of blocks. */
  lemma {:induction false} ExactlySplice(list: seq<Item>, blocks: set<nat>, i: nat, j: nat, mid: seq<Item>, more: set<nat>, less: set<nat>)
    requires Disjoint(list) && Exactly(list, blocks) && i <= j <= |list| && Disjoint(mid)
    requires more !! blocks && less <= blocks
    requires forall p: nat :: Covered(mid, p) <==> (Covered(list[i..j], p) && p !in less) || p in more
    requires forall p: nat :: p in less ==> Covered(list[i..j], p)
    ensures Disjoint(Splice(list, i, j, mid)) && Exactly(Splice(list, i, j, mid), blocks + more - less)
  {
    forall p: nat | Covered(mid, p) ensures Covered(list[i..j], p) || !Covered(list, p) {
      assert p in more ==> p !in blocks;
    }
    SpliceOk(list, i, j, mid);
    forall p: nat ensures p in blocks + more - less <==> Covered(Splice(list, i, j, mid), p) {
      CoveredParts(list, i, j, p);
    }
  }

  datatype AddResult = Added | Exists | NoMemory

  // ---------- which extent decides about a block ----------

  /** An extent at which the search for the place of a block ends: it ends before it, starts behind it or holds it. */
  predicate Decides(e: Item, b: nat) {
    e.End() == b || e.offset > b || In(e, b)
  }

  /** The first extent from k on that decides. */
  function Decider(list: seq<Item>, b: nat, k: nat): (i: nat)
    requires k <= |list|
    ensures k <= i <= |list| && (i < |list| ==> Decides(list[i], b)) && forall j :: k <= j < i ==> !Decides(list[j], b)
    decreases |list| - k
  {
    if k == |list| || Decides(list[k], b) then k else Decider(list, b, k + 1)
  }

  /** The answer that the block is there already: the first extent that decides holds it. */
  predicate Reported(list: seq<Item>, b: nat) {
    var i := Decider(list, b, 0);
    i < |list| && In(list[i], b)
  }

  /** The list after a block is added at the extent that decides. */
  function AddedAt(list: seq<Item>, b: nat, i: nat): seq<Item>
    requires i <= |list|
  {
    if i == |list| then Splice(list, i, i, [Item(b, 1)])
    else if list[i].End() == b then
      if i + 1 < |list| && b + 1 == list[i + 1].offset then
        Splice(list, i, i + 2, [Item(list[i].offset, list[i].length + 1 + list[i + 1].length)])
      else Splice(list, i, i + 1, [Item(list[i].offset, list[i].length + 1)])
    else if list[i].offset == b + 1 then Splice(list, i, i + 1, [Item(b, list[i].length + 1)])
    else Splice(list, i, i, [Item(b, 1)])
  }

  /** The block joins no extent and is not reported, so that it gets one of its own. */
  ghost predicate NeedsExtent(list: seq<Item>, b: nat) {
    var i := Decider(list, b, 0);
    i == |list| || (list[i].End() != b && list[i].offset > b + 1)
  }

  function WithBlock(list: seq<Item>, b: nat): seq<Item> {
    AddedAt(list, b, Decider(list, b, 0))
  }

  /** In a list in order in which no two extents touch, a block is reported exactly when it is there. */
  lemma {:induction false} ReportedExactly(list: seq<Item>, blocks: set<nat>, b: nat)
    requires Gapped(list) && Disjoint(list) && Exactly(list, blocks)
    ensures Reported(list, b) <==> b in blocks
  {
    var i := Decider(list, b, 0);
    assert b in blocks <==> Covered(list, b);
    if Covered(list, b) {
      var j :| 0 <= j < |list| && In(list[j], b);
      NotBehind(list, i, j, b);
    }
  }

  /** An extent that decides about a block is not in front of the one that holds it. */
  lemma {:induction false} NotBehind(list: seq<Item>, i: nat, j: nat, b: nat)
    requires Gapped(list) && i < |list| && j < |list| && Decides(list[i], b) && In(list[j], b)
    ensures j <= i
  {
  }

  lemma {:induction false} Gap(list: seq<Item>, i: nat)
    requires Gapped(list)
    ensures i + 1 < |list| ==> list[i].End() < list[i + 1].offset
  {
  }

  /** One extent in the place of others, apart from its neighbours. */
  lemma {:induction false} GapSplice(list: seq<Item>, i: nat, j: nat, x: Item)
    requires Gapped(list) && i <= j <= |list|
    requires i > 0 ==> list[i - 1].End() < x.offset
    requires j < |list| ==> x.End() < list[j].offset
    ensures Gapped(Splice(list, i, j, [x]))
  {
    assert forall m :: 0 <= m < i ==> list[m].End() < x.offset;
    assert forall m :: j <= m < |list| ==> x.End() < list[m].offset;
  }

  /** Such a list stays one when a block is added that is not there. */
  lemma {:induction false} GappedKept(list: seq<Item>, b: nat)
    requires Gapped(list) && !Reported(list, b)
    ensures Gapped(WithBlock(list, b))
  {
    hide Decider, Splice, Gapped;
    BeforeDecider(list, b, Decider(list, b, 0));
    GappedAt(list, b, Decider(list, b, 0));
  }

  lemma {:induction false} GappedAt(list: seq<Item>, b: nat, i: nat)
    requires Gapped(list) && i <= |list| && (i > 0 ==> list[i - 1].End() < b)
    requires i < |list| ==> Decides(list[i], b) && !In(list[i], b)
    ensures Gapped(AddedAt(list, b, i))
  {
    Gap(list, i);
    Gap(list, i + 1);
    hide Splice, Gapped;
    if i == |list| {
      GapSplice(list, i, i, Item(b, 1));
    } else if list[i].End() == b {
      GapBefore(list, i);
      if i + 1 < |list| && b + 1 == list[i + 1].offset {
        GapSplice(list, i, i + 2, Item(list[i].offset, list[i].length + 1 + list[i + 1].length));
      } else {
        GapSplice(list, i, i + 1, Item(list[i].offset, list[i].length + 1));
      }
    } else if list[i].offset == b + 1 {
      GapSplice(list, i, i + 1, Item(b, list[i].length + 1));
    } else {
      GapSplice(list, i, i, Item(b, 1));
    }
  }

  lemma {:induction false} GapBefore(list: seq<Item>, i: nat)
    requires Gapped(list) && i < |list|
    ensures i > 0 ==> list[i - 1].End() < list[i].offset
  {
  }

  /** The extent in front of the deciding one ends before the block, and does not touch it. */
  lemma {:induction false} BeforeDecider(list: seq<Item>, b: nat, i: nat)
    requires i == Decider(list, b, 0)
    ensures i > 0 ==> list[i - 1].End() < b
    ensures i < |list| ==> Decides(list[i], b)
  {
    assert i > 0 ==> !Decides(list[i - 1], b);
  }

  /**
   Out of order it is not: after a block is taken out of the middle of an extent, the right part stands
   in front, and a block of the left part is added a second time.
   */
  lemma {:induction false} AddedTwice()
    ensures var list := [Item(2, 1), Item(0, 1)];
            Covered(list, 0) && !Reported(list, 0) && WithBlock(list, 0) == [Item(0, 1), Item(2, 1), Item(0, 1)]
  {
    var list := [Item(2, 1), Item(0, 1)];
    assert In(list[1], 0);
    assert Decider(list, 0, 0) == 0;
  }

  class RuntimeExtents {
    var list: seq<Item>
    ghost var blocks: set<nat>

    ghost predicate Valid()
      reads this
    {
      Disjoint(list) && Exactly(list, blocks)
    }

    constructor ()
      ensures Valid() && list == [] && blocks == {}
    {
      list, blocks := [], {};
    }

    /**
     vdfs4_runtime_extent_add.  memory says whether a new extent can be allocated.  A block that is
     there is reported if the first extent that decides holds it, which in a list in order it does;
     otherwise it is added a second time.
     */
    method Add(iblock: nat, memory: bool) returns (r: AddResult)
      requires Valid()
      modifies this
      ensures r == Exists <==> Reported(old(list), iblock)
      ensures r == Added ==> list == WithBlock(old(list), iblock)
      ensures r != Added ==> Valid() && list == old(list) && blocks == old(blocks)
      ensures r == NoMemory <==> !memory && NeedsExtent(old(list), iblock)
      ensures Reported(old(list), iblock) ==> iblock in old(blocks)
      ensures iblock !in old(blocks) && r == Added ==> Valid() && blocks == old(blocks) + {iblock}
      ensures Gapped(old(list)) ==> Gapped(list) && Valid() && (r == Exists <==> iblock in old(blocks))
    {
      hide Disjoint, Exactly, Splice, Gapped;
      ghost var was := list;
      if Gapped(list) {
        ReportedExactly(list, blocks, iblock);
        if !Reported(list, iblock) { GappedKept(list, iblock); }
      }
      for k := 0 to |list|
        invariant list == was && blocks == old(blocks) && Decider(list, iblock, 0) == Decider(list, iblock, k)
      {
        var e := list[k];
        if e.End() == iblock {
          if k + 1 < |list| && iblock + 1 == list[k + 1].offset {
            GrownJoin(list, blocks, k, iblock);
            list := Splice(list, k, k + 2, [Item(e.offset, e.length + 1 + list[k + 1].length)]);
          } else {
            GrownEnd(list, blocks, k, iblock);
            list := Splice(list, k, k + 1, [Item(e.offset, e.length + 1)]);
          }
          blocks := blocks + {iblock};
          return Added;
        } else if e.offset == iblock + 1 {
          GrownStart(list, blocks, k, iblock);
          list := Splice(list, k, k + 1, [Item(iblock, e.length + 1)]);
          blocks := blocks + {iblock};
          return Added;
        } else if In(e, iblock) {
          Present(list, blocks, k, iblock);
          return Exists;
        } else if e.offset > iblock {
          if !memory {
            return NoMemory;
          }
          NewExtent(list, blocks, k, iblock);
          list := Splice(list, k, k, [Item(iblock, 1)]);
          blocks := blocks + {iblock};
          return Added;
        }
      }
      if !memory {
        return NoMemory;
      }
      NewExtent(list, blocks, |list|, iblock);
      list := Splice(list, |list|, |list|, [Item(iblock, 1)]);
      blocks := blocks + {iblock};
      return Added;
    }

    /** vdfs4_runtime_extent_del, of a block that is there.  A block in the middle needs memory for one more extent. */
    method Del(iblock: nat, memory: bool) returns (ok: bool)
      requires Valid() && iblock in blocks
      modifies this
      ensures Valid() && blocks == if ok then old(blocks) - {iblock} else old(blocks)
      ensures HolderOf(old(list), iblock, 0) < |old(list)|
      ensures !ok <==> !memory && Inner(old(list)[HolderOf(old(list), iblock, 0)], iblock)
      ensures list == if ok then WithoutBlock(old(list), iblock) else old(list)
    {
      hide Disjoint, Exactly, Splice, HolderOf;
      var k := Holder(iblock);
      var e := list[k];
      Shrunk(list, blocks, k, iblock);
      var mid: seq<Item>;
      if e.offset == iblock {
        mid := if e.length == 1 then [] else [Item(iblock + 1, e.length - 1)];
      } else if e.End() == iblock + 1 {
        mid := [Item(e.offset, e.length - 1)];
      } else {
        if !memory {
          return false;
        }
        var right := Item(iblock + 1, e.offset - (iblock + 1) + e.length);
        mid := [right, Item(e.offset, e.length - (right.length + 1))];
      }
      assert mid == Parts(e, iblock);
      hide Parts;
      list, blocks := Splice(list, k, k + 1, mid), blocks - {iblock};
      return true;
    }

    method Holder(iblock: nat) returns (k: nat)
      requires Valid() && iblock in blocks
      ensures k == HolderOf(list, iblock, 0) < |list|
    {
      assert Covered(list, iblock);
      hide Disjoint, Exactly;
      k := 0;
      while !In(list[k], iblock)
        invariant k < |list| && exists i :: k <= i < |list| && In(list[i], iblock)
        invariant HolderOf(list, iblock, 0) == HolderOf(list, iblock, k)
        decreases |list| - k
      {
        k := k + 1;
      }
    }

    /** vdfs4_truncate_runtime_blocks: how many blocks are dropped. */
    method Truncate(size: nat) returns (total: nat)
      requires Valid()
      modifies this
      ensures Valid() && blocks == (set p | p in old(blocks) && p < size)
      ensures total == |old(blocks)| - |blocks|
    {
      hide Disjoint, Exactly, Total;
      TotalIsSize(list, blocks);
      ghost var was, all := Total(list), blocks;
      total := 0;
      var k := 0;
      while k < |list|
        invariant k <= |list| && Valid() && total + Total(list) == was
        invariant forall j :: 0 <= j < k ==> list[j].End() <= size
        invariant forall p :: p in all && p < size ==> p in blocks
        invariant blocks <= all
        decreases |list| - k
      {
        var e := list[k];
        if e.offset >= size || e.End() >= size {
          CutAt(list, blocks, k, size);
        }
        if e.offset >= size {
          assert Cut(e, size) == [];
          total := total + e.length;
          list := Splice(list, k, k + 1, []);
          blocks := set p | p in blocks && !(In(e, p) && p >= size);
        } else if e.End() >= size {
          assert Cut(e, size) == [Item(e.offset, size - e.offset)];
          total := total + (e.length - (size - e.offset));
          list := Splice(list, k, k + 1, [Item(e.offset, size - e.offset)]);
          blocks := set p | p in blocks && !(In(e, p) && p >= size);
          k := k + 1;
        } else {
          k := k + 1;
        }
      }
      AllBelow(list, blocks, size);
      TotalIsSize(list, blocks);
    }

    /** vdfs4_runtime_extent_exists. */
    method Has(iblock: nat) returns (r: bool)
      requires Valid()
      ensures r <==> iblock in blocks
    {
      for k := 0 to |list|
        invariant forall j :: 0 <= j < k ==> !In(list[j], iblock)
      {
        if In(list[k], iblock) {
          return true;
        }
      }
      return false;
    }

    /** vdfs4_runtime_extent_count. */
    method Count() returns (count: nat)
      requires Valid()
      ensures count == |blocks|
    {
      count := 0;
      for k := 0 to |list|
        invariant count == Total(list[..k])
      {
        assert list[..k + 1][..k] == list[..k];
        count := count + list[k].length;
      }
      assert list[..|list|] == list;
      TotalIsSize(list, blocks);
    }
  }

  lemma {:induction false} One(it: Item, p: nat)
    ensures Covered([it], p) <==> In(it, p)
    ensures it.length > 0 ==> Disjoint([it])
  {
    assert Covered([it], p) <==> In([it][0], p);
  }

  lemma {:induction false} Present(list: seq<Item>, blocks: set<nat>, k: nat, b: nat)
    requires Disjoint(list) && Exactly(list, blocks) && k < |list| && In(list[k], b)
    ensures b in blocks
  {
    assert Covered(list, b);
  }

  ghost predicate Becomes(list: seq<Item>, blocks: set<nat>) {
    Disjoint(list) && Exactly(list, blocks)
  }

  lemma {:induction false} GrownEnd(list: seq<Item>, blocks: set<nat>, k: nat, b: nat)
    requires Disjoint(list) && Exactly(list, blocks) && k < |list| && list[k].End() == b
    ensures b !in blocks ==> Becomes(Splice(list, k, k + 1, [Item(list[k].offset, list[k].length + 1)]), blocks + {b})
  {
    var mid := [Item(list[k].offset, list[k].length + 1)];
    assert list[k..k + 1] == [list[k]];
    forall p: nat ensures Covered(mid, p) <==> Covered(list[k..k + 1], p) || p == b {
      One(mid[0], p);
      One(list[k], p);
    }
    One(mid[0], 0);
    if b !in blocks { ExactlySplice(list, blocks, k, k + 1, mid, {b}, {}); }
    assert blocks + {b} - {} == blocks + {b};
  }

  lemma {:induction false} GrownStart(list: seq<Item>, blocks: set<nat>, k: nat, b: nat)
    requires Disjoint(list) && Exactly(list, blocks) && k < |list| && list[k].offset == b + 1
    ensures b !in blocks ==> Becomes(Splice(list, k, k + 1, [Item(b, list[k].length + 1)]), blocks + {b})
  {
    var mid := [Item(b, list[k].length + 1)];
    assert list[k..k + 1] == [list[k]];
    forall p: nat ensures Covered(mid, p) <==> Covered(list[k..k + 1], p) || p == b {
      One(mid[0], p);
      One(list[k], p);
    }
    One(mid[0], 0);
    if b !in blocks { ExactlySplice(list, blocks, k, k + 1, mid, {b}, {}); }
    assert blocks + {b} - {} == blocks + {b};
  }

  lemma {:induction false} GrownJoin(list: seq<Item>, blocks: set<nat>, k: nat, b: nat)
    requires Disjoint(list) && Exactly(list, blocks) && k + 1 < |list| && list[k].End() == b && list[k + 1].offset == b + 1
    ensures b !in blocks ==>
              Becomes(Splice(list, k, k + 2, [Item(list[k].offset, list[k].length + 1 + list[k + 1].length)]), blocks + {b})
  {
    var mid := [Item(list[k].offset, list[k].length + 1 + list[k + 1].length)];
    assert list[k..k + 2] == [list[k]] + [list[k + 1]];
    forall p: nat ensures Covered(mid, p) <==> Covered(list[k..k + 2], p) || p == b {
      One(mid[0], p);
      One(list[k], p);
      One(list[k + 1], p);
      CoveredConcat([list[k]], [list[k + 1]], p);
    }
    One(mid[0], 0);
    if b !in blocks { ExactlySplice(list, blocks, k, k + 2, mid, {b}, {}); }
    assert blocks + {b} - {} == blocks + {b};
  }

  lemma {:induction false} NewExtent(list: seq<Item>, blocks: set<nat>, k: nat, b: nat)
    requires Disjoint(list) && Exactly(list, blocks) && k <= |list|
    ensures b !in blocks ==> Becomes(Splice(list, k, k, [Item(b, 1)]), blocks + {b})
  {
    var mid := [Item(b, 1)];
    forall p: nat ensures Covered(mid, p) <==> Covered(list[k..k], p) || p == b {
      One(mid[0], p);
    }
    One(mid[0], 0);
    if b !in blocks { ExactlySplice(list, blocks, k, k, mid, {b}, {}); }
    assert blocks + {b} - {} == blocks + {b};
  }

  /** The three ways of taking a block out of an extent. */
  lemma {:induction false} Shrunk(list: seq<Item>, blocks: set<nat>, k: nat, b: nat)
    requires Disjoint(list) && Exactly(list, blocks) && k < |list| && In(list[k], b)
    ensures Becomes(Splice(list, k, k + 1, Parts(list[k], b)), blocks - {b})
  {
    var e, mid := list[k], Parts(list[k], b);
    assert list[k..k + 1] == [e];
    forall p: nat ensures Covered(mid, p) <==> Covered(list[k..k + 1], p) && p != b {
      One(e, p);
      PartsCover(e, b, p);
    }
    assert In(list[k], b);
    One(e, b);
    PartsCover(e, b, b);
    ExactlySplice(list, blocks, k, k + 1, mid, {}, {b});
    assert blocks + {} - {b} == blocks - {b};
  }

  /** The first extent from k on that holds the block. */
  function HolderOf(list: seq<Item>, b: nat, k: nat): (i: nat)
    requires k <= |list|
    ensures k <= i <= |list| && (i < |list| ==> In(list[i], b)) && forall j :: k <= j < i ==> !In(list[j], b)
    decreases |list| - k
  {
    if k == |list| || In(list[k], b) then k else HolderOf(list, b, k + 1)
  }

  /** The block has neighbours on both sides in its extent. */
  predicate Inner(e: Item, b: nat) {
    e.offset < b && b + 1 < e.End()
  }

  /** The list after a block is taken out of the first extent that holds it. */
  function WithoutBlock(list: seq<Item>, b: nat): seq<Item> {
    var k := HolderOf(list, b, 0);
    if k == |list| then list else Splice(list, k, k + 1, Parts(list[k], b))
  }

  /**
   A block from an end of its extent leaves order and gaps of the list; one from the middle puts the
   right part in front of the left one, and the list is no longer in order.
   */
  lemma {:induction false} OrderLost(list: seq<Item>, b: nat)
    requires Gapped(list) && HolderOf(list, b, 0) < |list|
    ensures Gapped(WithoutBlock(list, b)) <==> !Inner(list[HolderOf(list, b, 0)], b)
    ensures var k := HolderOf(list, b, 0);
            Inner(list[k], b) ==> WithoutBlock(list, b)[k].offset == b + 1 && WithoutBlock(list, b)[k + 1].End() == b
  {
    var k, w := HolderOf(list, b, 0), WithoutBlock(list, b);
    if Inner(list[k], b) {
      assert w[k].offset == b + 1 && w[k + 1].End() == b;
      NotInOrder(w, k);
    } else {
      GapShrunk(list, k, Parts(list[k], b));
    }
  }

  lemma {:induction false} NotInOrder(list: seq<Item>, k: nat)
    requires k + 1 < |list| && list[k].End() >= list[k + 1].offset
    ensures !Gapped(list)
  {
  }

  lemma {:induction false} GapShrunk(list: seq<Item>, k: nat, mid: seq<Item>)
    requires Gapped(list) && k < |list| && |mid| <= 1
    requires |mid| == 1 ==> list[k].offset <= mid[0].offset && mid[0].End() <= list[k].End()
    ensures Gapped(Splice(list, k, k + 1, mid))
  {
  }

  function Parts(e: Item, b: nat): seq<Item>
    requires In(e, b)
  {
    if e.offset == b then if e.length == 1 then [] else [Item(b + 1, e.length - 1)]
    else if e.End() == b + 1 then [Item(e.offset, e.length - 1)]
    else [Item(b + 1, e.End() - (b + 1)), Item(e.offset, b - e.offset)]
  }

  lemma {:induction false} PartsCover(e: Item, b: nat, p: nat)
    requires In(e, b)
    ensures Covered(Parts(e, b), p) <==> In(e, p) && p != b
    ensures Disjoint(Parts(e, b))
  {
    var mid := Parts(e, b);
    if In(e, p) && p != b {
      assert In(mid[if p > b then 0 else |mid| - 1], p);
    }
  }

  /** What is left of an extent below a size. */
  function Cut(e: Item, size: nat): seq<Item> {
    if e.offset >= size then [] else [Item(e.offset, size - e.offset)]
  }

  lemma {:induction false} CutCovers(e: Item, size: nat, p: nat)
    requires e.End() >= size
    ensures Covered(Cut(e, size), p) <==> In(e, p) && p < size
    ensures Disjoint(Cut(e, size)) && Total(Cut(e, size)) == if e.offset >= size then 0 else size - e.offset
  {
    if e.offset < size {
      One(Item(e.offset, size - e.offset), p);
      assert Cut(e, size)[..0] == [];
    }
  }

  /** An extent cut off at a size. */
  lemma {:induction false} CutAt(list: seq<Item>, blocks: set<nat>, k: nat, size: nat)
    requires Disjoint(list) && Exactly(list, blocks) && k < |list| && list[k].End() >= size
    ensures Becomes(Splice(list, k, k + 1, Cut(list[k], size)), set p | p in blocks && !(In(list[k], p) && p >= size))
    ensures Total(Splice(list, k, k + 1, Cut(list[k], size))) + list[k].length
            == Total(list) + if list[k].offset >= size then 0 else size - list[k].offset
  {
    var e, mid := list[k], Cut(list[k], size);
    var less := set p | p in blocks && In(e, p) && p >= size;
    assert list[k..k + 1] == [e];
    forall p: nat
      ensures Covered(mid, p) <==> Covered(list[k..k + 1], p) && p !in less
      ensures p in less ==> Covered(list[k..k + 1], p)
    {
      One(e, p);
      CutCovers(e, size, p);
      assert In(list[k], p) ==> Covered(list, p);
    }
    CutCovers(e, size, 0);
    hide Disjoint, Exactly, Covered, Cut, Total;
    ExactlySplice(list, blocks, k, k + 1, mid, {}, less);
    assert blocks + {} - less == set p | p in blocks && !(In(e, p) && p >= size);
    TotalSplice(list, k, mid);
  }

  lemma {:induction false} TotalSplice(list: seq<Item>, k: nat, mid: seq<Item>)
    requires k < |list|
    ensures Total(Splice(list, k, k + 1, mid)) + list[k].length == Total(list) + Total(mid)
  {
    TotalConcat(list[..k] + mid, list[k + 1..]);
    TotalConcat(list[..k], mid);
    TotalConcat(list[..k] + [list[k]], list[k + 1..]);
    TotalConcat(list[..k], [list[k]]);
    assert list == list[..k] + [list[k]] + list[k + 1..];
    assert [list[k]][..0] == [];
  }

  lemma {:induction false} AllBelow(list: seq<Item>, blocks: set<nat>, size: nat)
    requires Exactly(list, blocks) && forall j :: 0 <= j < |list| ==> list[j].End() <= size
    ensures forall p :: p in blocks ==> p < size
  {
    forall p | p in blocks ensures p < size {
      assert Covered(list, p);
    }
  }

  /** Blocks 0, 1 and 2 claimed, 1 given back: 0 is then claimed a second time, though it is there. */
  method ClaimedTwice() returns (x: RuntimeExtents, r: AddResult)
    ensures r == Added && x.list == [Item(0, 1), Item(2, 1), Item(0, 1)]
  {
    hide WithBlock, WithoutBlock, Reported, HolderOf, Gapped, Disjoint, Exactly, Covered;
    x := new RuntimeExtents();
    FirstClaim();
    NextClaim(1);
    NextClaim(2);
    MiddleGiven();
    r := x.Add(0, true);
    r := x.Add(1, true);
    r := x.Add(2, true);
    var ok := x.Del(1, true);
    AddedTwice();
    r := x.Add(0, true);
  }

  lemma {:induction false} FirstClaim()
    ensures WithBlock([], 0) == [Item(0, 1)] && !Reported([], 0)
  {
  }

  lemma {:induction false} NextClaim(len: nat)
    requires len > 0
    ensures WithBlock([Item(0, len)], len) == [Item(0, len + 1)] && !Reported([Item(0, len)], len)
  {
    assert Decider([Item(0, len)], len, 0) == 0;
    hide Decider;
  }

  lemma {:induction false} MiddleGiven()
    ensures WithoutBlock([Item(0, 3)], 1) == [Item(2, 1), Item(0, 1)] && HolderOf([Item(0, 3)], 1, 0) == 0
  {
    assert HolderOf([Item(0, 3)], 1, 0) == 0;
    hide HolderOf;
  }
}
