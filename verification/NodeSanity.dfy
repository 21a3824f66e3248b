/**
 When the sanity check accepts the bytes of a node, whatever they are.
 */
module NodeSanity {
  import opened Layout
  import opened Tiling
  import opened PageMemory
  import opened SlottedPage

  // the limit of vdfs4_bnode_sanity_check
  const MAX_RECORDS: nat := 1000

  /** is_offset_correct. */
  predicate OffsetOk(size: nat, o: nat) {
    0 < o < size
  }

  /** The least of the first k offsets, or the size of the node. */
  ghost function Least(m: Memory, k: nat): nat
    requires k == 0 || SlotIn(|m|, k - 1)
  {
    if k == 0 then |m| else if Least(m, k - 1) > Off(m, k - 1) then Off(m, k - 1) else Least(m, k - 1)
  }

  lemma {:induction false} LeastIs(m: Memory, k: nat)
    requires k == 0 || SlotIn(|m|, k - 1)
    ensures Least(m, k) <= |m| && forall i :: 0 <= i < k ==> Least(m, k) <= Off(m, i)
    ensures Least(m, k) == |m| || exists i :: 0 <= i < k && Least(m, k) == Off(m, i)
  {
    hide Off;
    if k > 0 {
      LeastIs(m, k - 1);
      assert forall i :: 0 <= i < k - 1 ==> Least(m, k) <= Off(m, i);
    }
  }

  lemma {:induction false} LeastZero(m: Memory)
    ensures Least(m, 0) == |m|
  {
  }

  lemma {:induction false} LeastNext(m: Memory, k: nat)
    requires SlotIn(|m|, k)
    ensures Least(m, k + 1) == if Least(m, k) > Off(m, k) then Off(m, k) else Least(m, k)
  {
  }

  /** From o to end lie k records one behind the other, each ending inside the node; behind are the bytes after the node. */
  ghost predicate Chained(m: Memory, behind: seq<Byte>, o: nat, k: nat, end: nat)
    requires |behind| > LEN_FIELD && o < |m|
    decreases k
  {
    if k == 0 then o == end
    else var next := o + Le16(m + behind, o + LEN_FIELD); OffsetOk(|m|, next) && Chained(m, behind, next, k - 1, end)
  }

  lemma {:induction false} ChainedNext(m: Memory, behind: seq<Byte>, o: nat, k: nat, end: nat)
    requires |behind| > LEN_FIELD && o < |m|
    ensures k == 0 ==> (Chained(m, behind, o, k, end) <==> o == end)
    ensures k > 0 ==> var next := o + Le16(m + behind, o + LEN_FIELD);
              Chained(m, behind, o, k, end) <==> OffsetOk(|m|, next) && Chained(m, behind, next, k - 1, end)
  {
  }

  /** The nodes that are accepted. */
  ghost predicate Sane(m: Memory, behind: seq<Byte>, free: nat, count: nat)
    requires NodeSizeOk(|m|) && |behind| > LEN_FIELD
  {
    if count == 0 then Off(m, 0) == HEADER
    else
      && free <= |m| && count <= MAX_RECORDS
      && (forall i :: 0 <= i < count ==> OffsetOk(|m|, Off(m, i)))
      && Least(m, count) < |m| && Chained(m, behind, Least(m, count), count, Off(m, count))
  }

  lemma {:induction false} ChainedBuilt(m: Memory, behind: seq<Byte>, free: nat, recs: seq<Raw>, phys: seq<nat>, rank: seq<nat>, k: nat)
    requires Holds(m, free, recs, phys, rank) && |behind| > LEN_FIELD && k <= |recs|
    ensures |phys| == |recs| && SlotIn(|m|, |recs|) && Start(Lens(recs), phys, k) < |m|
    ensures Chained(m, behind, Start(Lens(recs), phys, k), |recs| - k, Off(m, |recs|))
    decreases |recs| - k
  {
    hide Holds, Off, Start, Lens;
    WalkEnd(m, free, recs, phys, rank);
    if k < |recs| {
      WalkStep(m, free, recs, phys, rank, k);
      var o := Start(Lens(recs), phys, k);
      assert (m + behind)[o + LEN_FIELD] == m[o + LEN_FIELD] && (m + behind)[o + LEN_FIELD + 1] == m[o + LEN_FIELD + 1];
      ChainedBuilt(m, behind, free, recs, phys, rank, k + 1);
    } else {
      OffsetsInside(m, free, recs, phys, rank);
    }
  }

  /** A node that holds records as the operations lay them out is accepted exactly if it has at most a thousand. */
  lemma {:induction false} BuiltIsSane(m: Memory, behind: seq<Byte>, free: nat, recs: seq<Raw>, phys: seq<nat>, rank: seq<nat>)
    requires NodeSizeOk(|m|) && Holds(m, free, recs, phys, rank) && |behind| > LEN_FIELD
    ensures Sane(m, behind, free, |recs|) <==> |recs| <= MAX_RECORDS
  {
    hide Holds, Off, Start, Lens, Chained, Least;
    FreeFacts(m, free, recs, phys, rank);
    if recs == [] {
      EmptyOffset(m, free, recs, phys, rank);
    } else if |recs| <= MAX_RECORDS {
      OffsetsInside(m, free, recs, phys, rank);
      LeastIs(m, |recs|);
      WalkStart(m, free, recs, phys, rank, Least(m, |recs|));
      ChainedBuilt(m, behind, free, recs, phys, rank, 0);
    }
  }
}
