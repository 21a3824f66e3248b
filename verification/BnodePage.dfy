/**
 The operations of a node on its bytes, in place.
 */
module BnodePageModule {
  import opened Layout
  import opened Tiling
  import opened PageMemory
  import opened Division
  import opened SlottedPage
  import opened NodeSanity

  class BnodePage {
    const size: nat
    const data: array<Byte>
    var count: nat
    var free: nat

    // the records in slot order, and how they lie in the data area
    ghost var recs: seq<Raw>
    ghost var phys: seq<nat>
    ghost var rank: seq<nat>

    ghost predicate Valid()
      reads this, data
    {
      && NodeSizeOk(size) && data.Length == size
      && count == |recs|
      && Holds(data[..], free, recs, phys, rank)
    }

    /** __get_offset. */
    method GetOffset(i: nat) returns (v: nat)
      requires data.Length == size && SlotIn(size, i)
      ensures v == Off(data[..], i)
    {
      var a := SlotAddr(size, i);
      v := (data[a] as int) + 256 * (data[a + 1] as int) + 65536 * (data[a + 2] as int) + 16777216 * (data[a + 3] as int);
    }

    /** check_set_offset: an offset that is_offset_correct does not accept is refused. */
    method SetOffset(i: nat, v: nat) returns (ok: bool)
      requires data.Length == size && SlotIn(size, i) && v < TWO_32
      modifies data
      ensures ok <==> 0 < v < size
      ensures ok ==> SlotSet(old(data[..]), i, v, data[..])
      ensures !ok ==> data[..] == old(data[..])
    {
      ok := 0 < v < size;
      if ok {
        StoreOffset(i, v);
      }
    }

    method StoreOffset(i: nat, v: nat)
      requires data.Length == size && SlotIn(size, i) && v < TWO_32
      modifies data
      ensures SlotSet(old(data[..]), i, v, data[..])
    {
      var a := SlotAddr(size, i);
      data[a] := ByteOf(v, 0);
      data[a + 1] := ByteOf(v, 1);
      data[a + 2] := ByteOf(v, 2);
      data[a + 3] := ByteOf(v, 3);
      FourBytes(v);
    }

    /** memcpy into the node. */
    method CopyIn(at: nat, src: seq<Byte>)
      requires at + |src| <= data.Length
      modifies data
      ensures data[..] == old(data[..])[..at] + src + old(data[..])[at + |src|..]
    {
      for k := 0 to |src|
        invariant forall a :: 0 <= a < data.Length && !(at <= a < at + k) ==> data[a] == old(data[a])
        invariant forall x :: 0 <= x < k ==> data[at + x] == src[x]
      {
        data[at + k] := src[k];
      }
    }

    /** memmove of the slots from p on, one place further; the slot behind the last one is overwritten. */
    method OpenSlot(p: nat, last: nat)
      requires data.Length == size && p <= last && SlotIn(size, last)
      modifies data
      ensures forall a :: 0 <= a < SlotAddr(size, last) ==> data[a] == old(data[a])
      ensures forall x :: 0 <= x < p ==> Off(data[..], x) == Off(old(data[..]), x)
      ensures forall x :: p < x <= last ==> Off(data[..], x) == Off(old(data[..]), x - 1)
    {
      hide Off, Le32;
      ghost var m := data[..];
      var j := last;
      while j > p
        invariant p <= j <= last && |data[..]| == |m|
        invariant forall a :: 0 <= a < SlotAddr(size, last) ==> data[a] == m[a]
        invariant forall x :: 0 <= x <= j ==> SlotIn(size, x) && Off(data[..], x) == Off(m, x)
        invariant forall x :: j < x <= last ==> SlotIn(size, x) && Off(data[..], x) == Off(m, x - 1)
      {
        ghost var before := data[..];
        var v := GetOffset(j - 1);
        OffBound(before, j - 1);
        StoreOffset(j, v);
        ghost var after := data[..];
        forall x | 0 <= x <= last && x != j ensures SlotIn(size, x) && Off(after, x) == Off(before, x) {
          OtherSlots(before, j, v, after, x);
        }
        forall a | 0 <= a < SlotAddr(size, last) ensures after[a] == before[a] {
          assert !InSlot(size, j, a);
        }
        j := j - 1;
      }
    }

    /** vdfs4_init_new_node_descr: an empty node. */
    constructor (nodeSize: nat)
      requires NodeSizeOk(nodeSize)
      ensures Valid() && fresh(data) && size == nodeSize && recs == []
      ensures count == 0 && free == nodeSize - FIXED
    {
      size := nodeSize;
      data := new Byte[nodeSize](_ => 0);
      count, free := 0, nodeSize - FIXED;
      recs, phys, rank := [], [], [];
      new;
      StoreOffset(0, HEADER);
      EmptyHolds(data[..]);
    }

    /** vdfs4_init_new_node_descr of a node that is in use. */
    method Init()
      requires NodeSizeOk(size) && data.Length == size
      modifies this, data
      ensures Valid() && recs == []
    {
      StoreOffset(0, HEADER);
      count, free := 0, size - FIXED;
      recs, phys, rank := [], [], [];
      EmptyHolds(data[..]);
    }

    /** The copy of a node into the split buffer. */
    constructor Copy(from: BnodePage)
      requires from.Valid()
      ensures Valid() && fresh(data) && size == from.size && recs == from.recs && count == from.count && free == from.free
    {
      size := from.size;
      data := new Byte[from.size](i requires 0 <= i < from.data.Length reads from.data => from.data[i]);
      count, free := from.count, from.free;
      recs, phys, rank := from.recs, from.phys, from.rank;
      new;
      assert data[..] == from.data[..];
    }

    /** Writing into the value of a record, as the callers of insert_key_into_bnode do. */
    method SetValue(i: nat, at: nat, src: seq<Byte>)
      requires Valid() && i < count && MIN_KEY_LEN <= at && at + |src| <= |recs[i]|
      modifies this, data
      ensures Valid() && recs == old(recs)[i := Patched(old(recs)[i], at, src)]
      ensures free == old(free) && count == old(count)
    {
      hide Holds, Off, Le32, SlotIn;
      ghost var m := data[..];
      RecordFacts(m, free, recs, phys, rank, i);
      var o := GetOffset(i);
      CopyIn(o + at, src);
      HoldsFilled(m, free, recs, phys, rank, i, at, src, data[..]);
      recs := recs[i := Patched(recs[i], at, src)];
    }

    /** The copy of __place_into_node: the key, with the record length patched in. */
    method PlaceBytes(at: nat, key: seq<Byte>, recLen: nat) returns (ghost r: Raw)
      requires MIN_KEY_LEN <= |key| <= recLen <= MAX_REC_LEN && at + recLen <= data.Length
      modifies data
      ensures forall a :: 0 <= a < data.Length && !(at <= a < at + recLen) ==> data[a] == old(data[a])
      ensures r == data[at..at + recLen] && RawOk(r)
      ensures forall k :: 0 <= k < |key| && k != LEN_FIELD && k != LEN_FIELD + 1 ==> r[k] == key[k]
    {
      var src := key[..LEN_FIELD] + [ByteOf(recLen, 0), ByteOf(recLen, 1)] + key[LEN_FIELD + 2..];
      CopyIn(at, src);
      r := data[at..at + recLen];
      assert forall k :: 0 <= k < |key| ==> r[k] == src[k];
      TwoBytes(recLen);
    }

    /** The slots of __place_into_node: open the table at pos, then write the offset of the record and of the free area. */
    method PlaceSlots(pos: nat, n: nat, fo: nat, len: nat)
      requires data.Length == size && pos <= n && SlotIn(size, n + 1) && SlotIn(size, n)
      requires fo == Off(data[..], n) && 0 < fo && fo + len < size < TWO_32
      modifies data
      ensures forall a :: 0 <= a < SlotAddr(size, n + 1) ==> data[a] == old(data[a])
      ensures Offs(data[..], n + 1) == OffsPlaced(Offs(old(data[..]), n), pos, len)
    {
      hide Off, Le32, Offs, OffsPlaced;
      ghost var m := data[..];
      OpenSlot(pos, n);
      ghost var w1 := data[..];
      SlotInMono(size, n, pos);
      var ok := SetOffset(pos, fo);
      assert ok;
      ghost var w2 := data[..];
      ok := SetOffset(n + 1, fo + len);
      assert ok;
      ghost var w3 := data[..];
      assert forall x :: 0 <= x <= n ==> SlotIn(size, x);
      SlotsPlaced(m, m, w1, w2, w3, n, pos, len);
      forall a | 0 <= a < SlotAddr(size, n + 1) ensures w3[a] == w1[a] {
        DataKept(w1, w2, w3, n + 1, pos, fo, fo + len, a);
      }
    }

    /**
     __place_into_node: copy the key (or the whole record) to the free area, give it the record
     length recLen, and put its offset into slot pos.  Bytes behind the copied ones are left as
     they are, for the caller to fill.
     */
    method Place(key: seq<Byte>, recLen: nat, pos: nat) returns (ghost r: Raw)
      requires Valid() && MIN_KEY_LEN <= |key| <= recLen <= MAX_REC_LEN && pos <= count
      requires free >= recLen + SLOT
      modifies this, data
      ensures Valid() && recs == InsertAt(old(recs), pos, r)
      ensures |r| == recLen && Le16(r, LEN_FIELD) == recLen
      ensures forall k :: 0 <= k < |key| && k != LEN_FIELD && k != LEN_FIELD + 1 ==> r[k] == key[k]
      ensures free == old(free) - recLen - SLOT && count == old(count) + 1
    {
      hide Holds, Off, Le32, Offs, OffsPlaced, SlotIn, Tiles;
      ghost var m := data[..];
      FreeFacts(m, free, recs, phys, rank);
      RoomForSlot(size, count, Off(m, count), free, recLen);
      var fo := GetOffset(count);
      r := PlaceBytes(fo, key, recLen);
      ghost var w := data[..];
      SlotsKept(m, w, count, fo + recLen);
      PlaceSlots(pos, count, fo, recLen);
      PlacedFacts(m, recs, pos, r, w, data[..]);
      HoldsPlaced(m, free, recs, phys, rank, pos, r, data[..]);
      count := count + 1;
      free := free - recLen - SLOT;
      recs, phys, rank := InsertAt(recs, pos, r), PhysPlaced(phys, pos), InsertAt<nat>(rank, pos, |recs|);
    }

    /** memmove of the bytes from..end down to the address to. */
    method MoveDown(to: nat, from: nat, end: nat)
      requires to <= from <= end <= data.Length
      modifies data
      ensures forall a :: 0 <= a < to || end <= a < data.Length ==> data[a] == old(data[a])
      ensures forall a :: from <= a < end ==> data[a - (from - to)] == old(data[a])
    {
      ghost var m := data[..];
      var d := from - to;
      for a := from to end
        invariant forall x :: 0 <= x < to || a <= x < data.Length ==> data[x] == m[x]
        invariant forall x :: from <= x < a ==> data[x - d] == m[x]
      {
        data[a - d] := data[a];
      }
    }

    /** The first loop of delete_from_node over the slots: offsets behind the record come closer. */
    method LowerSlots(n: nat, at: nat, len: nat)
      requires data.Length == size < TWO_32 && SlotIn(size, n)
      requires forall x :: 0 <= x < n && Off(data[..], x) > at ==> len < Off(data[..], x) < size
      modifies data
      ensures forall a :: 0 <= a < SlotAddr(size, n) ==> data[a] == old(data[a])
      ensures forall x :: 0 <= x < n ==> SlotIn(size, x) && Off(data[..], x) == Moved(Off(old(data[..]), x), at, len)
      ensures Off(data[..], n) == Off(old(data[..]), n)
    {
      hide Off, Le32;
      ghost var m := data[..];
      for i := 0 to n
        invariant forall a :: 0 <= a < SlotAddr(size, n) ==> data[a] == m[a]
        invariant forall x :: 0 <= x < i ==> SlotIn(size, x) && Off(data[..], x) == Moved(Off(m, x), at, len)
        invariant forall x :: i <= x <= n ==> SlotIn(size, x) && Off(data[..], x) == Off(m, x)
      {
        ghost var before := data[..];
        var cur := GetOffset(i);
        if cur > at {
          var ok := SetOffset(i, cur - len);
          assert ok;
          OneSlot(before, i, cur - len, data[..], n);
        }
      }
    }

    /** The second loop: the slots behind p move one place up. */
    method DropSlot(p: nat, n: nat)
      requires data.Length == size < TWO_32 && p < n && SlotIn(size, n)
      requires forall x :: 0 <= x <= n ==> 0 < Off(data[..], x) < size
      modifies data
      ensures forall a :: 0 <= a < SlotAddr(size, n) ==> data[a] == old(data[a])
      ensures forall x :: 0 <= x < p ==> SlotIn(size, x) && Off(data[..], x) == Off(old(data[..]), x)
      ensures forall x :: p <= x < n ==> SlotIn(size, x) && Off(data[..], x) == Off(old(data[..]), x + 1)
    {
      hide Off, Le32;
      ghost var w := data[..];
      for i := p to n
        invariant forall a :: 0 <= a < SlotAddr(size, n) ==> data[a] == w[a]
        invariant forall x :: 0 <= x < p || i <= x <= n ==> SlotIn(size, x) && Off(data[..], x) == Off(w, x)
        invariant forall x :: p <= x < i ==> SlotIn(size, x) && Off(data[..], x) == Off(w, x + 1)
      {
        ghost var before := data[..];
        SlotInMono(size, n, i + 1);
        var next := GetOffset(i + 1);
        var ok := SetOffset(i, next);
        assert ok;
        OneSlot(before, i, next, data[..], n);
      }
    }

    /** All of delete_from_node on the slots, that of the free area included. */
    method CloseSlot(p: nat, n: nat, at: nat, len: nat, fo: nat)
      requires data.Length == size < TWO_32 && p < n && SlotIn(size, n) && at == Off(data[..], p) && fo == Off(data[..], n)
      requires at + len <= fo && len > 0
      requires forall x :: 0 <= x <= n ==> 0 < Off(data[..], x) < size
      requires forall x :: 0 <= x < n && Off(data[..], x) > at ==> Off(data[..], x) > len
      modifies data
      ensures forall a :: 0 <= a < SlotAddr(size, n) ==> data[a] == old(data[a])
      ensures OffsRemoved(Offs(old(data[..]), n), p, len, Offs(data[..], n - 1))
    {
      hide Off, Le32, Offs, OffsRemoved;
      ghost var m := data[..];
      LowerSlots(n, at, len);
      ghost var w := data[..];
      DropSlot(p, n);
      ghost var w1 := data[..];
      var ok := SetOffset(n - 1, fo - len);
      assert ok;
      OneSlot(w1, n - 1, fo - len, data[..], n);
      SlotsRemoved(m, w, data[..], p, n, len);
    }

    /** The bytes and the slots of delete_from_node. */
    method DeleteBytes(p: nat, at: nat, len: nat, fo: nat)
      requires data.Length == size < TWO_32 && p < |recs| == count && SlotIn(size, |recs|) && SlotIn(size, p)
      requires at == Off(data[..], p) && fo == Off(data[..], |recs|) && len == |recs[p]| > 0
      requires at + len <= fo <= SlotAddr(size, |recs|)
      requires forall x :: 0 <= x <= |recs| ==> SlotIn(size, x) && 0 < Off(data[..], x) < size
      requires forall x :: 0 <= x < |recs| && Off(data[..], x) > at ==> Off(data[..], x) > len
      modifies data
      ensures RemovedFrom(old(data[..]), recs, p, data[..])
    {
      hide Off, Le32, Le16, Offs, SlotIn, OffsRemoved, RemovedFrom;
      ghost var m := data[..];
      MoveDown(at, at + len, fo);
      ghost var w := data[..];
      SlotsKept(m, w, |recs|, fo);
      SlotInMono(size, |recs|, |recs| - 1);
      CloseSlot(p, count, at, len, fo);
      RemovedFacts(m, recs, p, w, data[..]);
    }

    /** delete_from_node. */
    method Delete(p: nat)
      requires Valid() && p < count
      modifies this, data
      ensures Valid() && recs == DeleteAt(old(recs), p)
      ensures free == old(free) + |old(recs)[p]| + SLOT && count == old(count) - 1
    {
      hide Holds, Off, Le32, Le16, SlotIn, RemovedFrom, PhysRemoved, RankRemoved;
      ghost var m := data[..];
      FreeFacts(m, free, recs, phys, rank);
      RecordFacts(m, free, recs, phys, rank, p);
      OffsetsInside(m, free, recs, phys, rank);
      var fo := GetOffset(count);
      var at := GetOffset(p);
      var len := (data[at + LEN_FIELD] as int) + 256 * (data[at + LEN_FIELD + 1] as int);
      LenField(m, at, len);
      DeleteBytes(p, at, len, fo);
      HoldsRemoved(m, free, recs, phys, rank, p, data[..]);
      count := count - 1;
      free := free + len + SLOT;
      recs, phys, rank := DeleteAt(recs, p), PhysRemoved(phys, rank[p], p), RankRemoved(rank, p);
    }

    /** get_record: the bytes of the record in slot i. */
    method GetRecord(i: nat) returns (r: Raw)
      requires Valid() && i < count
      ensures r == recs[i]
    {
      hide Holds, Off, Le32, SlotIn;
      RecordFacts(data[..], free, recs, phys, rank, i);
      RecordBytes(data[..], free, recs, phys, rank, i);
      var at := GetOffset(i);
      var len := (data[at + LEN_FIELD] as int) + 256 * (data[at + LEN_FIELD + 1] as int);
      LenField(data[..], at, len);
      r := data[at..at + len];
    }

    /** The loop of btree_merge over the right node's slots, the one of its free area included. */
    method AppendSlots(right: BnodePage, start: nat, n: nat, k: nat)
      requires NodeSizeOk(size) && data != right.data && data.Length == size == right.data.Length && right.size == size
      requires SlotIn(size, n) && SlotIn(size, k) && SlotIn(size, n + k) && start == Off(data[..], n) && start > 0
      requires forall x :: 0 <= x <= k ==> SlotIn(size, x) && HEADER <= Off(right.data[..], x) < size + HEADER - start
      modifies data
      ensures forall a :: 0 <= a < SlotAddr(size, n + k) ==> data[a] == old(data[a])
      ensures OffsJoined(Offs(old(data[..]), n), Offs(right.data[..], k), Offs(data[..], n + k))
    {
      hide Off, Le32, Offs;
      ghost var m, rm := data[..], right.data[..];
      for i := 0 to k + 1
        invariant right.data[..] == rm
        invariant forall a :: 0 <= a < SlotAddr(size, n + k) ==> data[a] == m[a]
        invariant forall x :: 0 <= x < n ==> SlotIn(size, x) && Off(data[..], x) == Off(m, x)
        invariant forall x :: 0 <= x < i ==> Off(data[..], n + x) == start + Off(rm, x) - HEADER
      {
        ghost var before := data[..];
        var o := right.GetOffset(i);
        SlotInMono(size, n + k, n + i);
        var ok := SetOffset(n + i, start + o - HEADER);
        assert ok;
        OneSlot(before, n + i, start + o - HEADER, data[..], n + k);
      }
      SlotsJoined(m, rm, data[..], n, k);
    }

    /** The copy of btree_merge and its loop over the slots. */
    method AppendBytes(right: BnodePage, fo: nat, ro: nat)
      requires NodeSizeOk(size) && data != right.data && data.Length == size == right.data.Length && right.size == size
      requires count == |recs| && right.count == |right.recs|
      requires SlotIn(size, |recs|) && SlotIn(size, |right.recs|) && SlotIn(size, |recs| + |right.recs|)
      requires fo == Off(data[..], |recs|) > 0 && ro == Off(right.data[..], |right.recs|) && HEADER <= ro < size
      requires fo + ro - HEADER <= SlotAddr(size, |recs| + |right.recs|) <= SlotAddr(size, |recs|) < size
      requires forall x :: 0 <= x <= |right.recs| ==> SlotIn(size, x) && HEADER <= Off(right.data[..], x) <= ro
      modifies data
      ensures JoinedIn(old(data[..]), recs, right.data[..], right.recs, data[..])
    {
      hide Off, Le32, Offs, SlotIn, OffsJoined, JoinedIn;
      ghost var m, rm := data[..], right.data[..];
      CopyIn(fo, right.data[HEADER..ro]);
      ghost var w := data[..];
      SlotsKept(m, w, |recs|, fo + ro - HEADER);
      AppendSlots(right, fo, count, right.count);
      JoinedFacts(m, recs, rm, right.recs, w, data[..]);
    }

    /** btree_merge, the part on bytes: the right node's records go behind those of this node. */
    method AppendAll(right: BnodePage)
      requires Valid() && right.Valid() && right != this && right.data != data && right.size == size
      requires free + right.free >= size
      modifies this, data
      ensures Valid() && recs == old(recs) + right.recs
      ensures free == old(free) - Occupied(right.recs)
    {
      hide Holds, Off, Le32, SlotIn, Shifted, JoinedIn;
      ghost var m, rm := data[..], right.data[..];
      FreeFacts(m, free, recs, phys, rank);
      FreeFacts(rm, right.free, right.recs, right.phys, right.rank);
      RoomForAll(size, count, free, Off(m, count), right.count, right.free, Off(rm, right.count));
      OffsetsInside(rm, right.free, right.recs, right.phys, right.rank);
      var fo := GetOffset(count);
      var ro := right.GetOffset(right.count);
      AppendBytes(right, fo, ro);
      HoldsJoined(m, free, recs, phys, rank, rm, right.free, right.recs, right.phys, right.rank, data[..]);
      TotalFromFree(rm, right.free, right.recs, right.phys, right.rank);
      free := free - (ro - HEADER) - right.count * SLOT;
      count := count + right.count;
      recs, phys, rank := recs + right.recs, phys + Shifted(right.phys, |recs|), rank + Shifted(right.rank, |recs|);
    }

    /** One byte of the node, or of what follows it in memory. */
    function ByteAt(a: nat, behind: seq<Byte>): (v: Byte)
      requires a < data.Length + |behind|
      reads data
      ensures v == (data[..] + behind)[a]
    {
      if a < data.Length then data[a] else behind[a - data.Length]
    }

    /** vdfs4_bnode_sanity_check of a node other than the head, whatever its bytes are. */
    method SanityCheck(behind: seq<Byte>) returns (ok: bool)
      requires NodeSizeOk(size) && data.Length == size && |behind| > LEN_FIELD
      ensures ok <==> Sane(data[..], behind, free, count)
    {
      hide Off, Chained, Least;
      ghost var m := data[..];
      if count == 0 {
        var zero := GetOffset(0);
        return zero == HEADER;
      }
      if free > size {
        return false;
      }
      if count > MAX_RECORDS {
        return false;
      }
      var least := size;
      LeastZero(m);
      for i := 0 to count
        invariant least == Least(m, i) <= size
        invariant forall x :: 0 <= x < i ==> OffsetOk(size, Off(m, x))
      {
        var o := GetOffset(i);
        if o == 0 || o >= size {
          return false;
        }
        LeastNext(m, i);
        least := if least > o then o else least;
      }
      LeastIs(m, count);
      assert Least(m, count) <= Off(m, 0);
      var o: nat := least;
      for k := 0 to count
        invariant o < size
        invariant Chained(m, behind, least, count, Off(m, count)) <==> Chained(m, behind, o, count - k, Off(m, count))
      {
        ChainedNext(m, behind, o, count - k, Off(m, count));
        o := o + (ByteAt(o + LEN_FIELD, behind) as int) + 256 * (ByteAt(o + LEN_FIELD + 1, behind) as int);
        if o == 0 || o >= size {
          return false;
        }
      }
      var end := GetOffset(count);
      ChainedNext(m, behind, o, 0, Off(m, count));
      return o == end;
    }
  }

  /** A node that these operations built is accepted exactly if it has at most a thousand records. */
  method CheckBuilt(page: BnodePage, behind: seq<Byte>) returns (ok: bool)
    requires page.Valid() && |behind| > LEN_FIELD
    ensures ok <==> page.count <= MAX_RECORDS
  {
    hide Holds, Sane;
    BuiltIsSane(page.data[..], behind, page.free, page.recs, page.phys, page.rank);
    ok := page.SanityCheck(behind);
  }

  /** Records of at least len bytes in a node that holds at most a thousand of them: the sanity check accepts it. */
  method CheckLong(page: BnodePage, behind: seq<Byte>, ghost len: nat) returns (ok: bool)
    requires page.Valid() && |behind| > LEN_FIELD && forall i :: 0 <= i < |page.recs| ==> |page.recs[i]| >= len
    ensures page.size - FIXED < (MAX_RECORDS + 1) * (len + SLOT) ==> ok
  {
    hide Holds;
    CountBound(page.data[..], page.free, page.recs, page.phys, page.rank, len);
    ok := CheckBuilt(page, behind);
    if page.count > MAX_RECORDS { Product(len + SLOT, MAX_RECORDS + 1, page.count); }
  }

  /** A node of 64 KB with 1001 records of 32 bytes, the least a catalog has: built by placing them, and refused. */
  method RefusedNode(behind: seq<Byte>) returns (page: BnodePage, ok: bool)
    requires |behind| > LEN_FIELD
    ensures page.Valid() && page.size == 65536 && page.count == MAX_RECORDS + 1 && !ok
    ensures forall i :: 0 <= i < |page.recs| ==> |page.recs[i]| == 32
  {
    page := new BnodePage(65536);
    hide Holds, BnodePage.Valid, InsertAt;
    for k := 0 to MAX_RECORDS + 1
      invariant page.Valid() && page.size == 65536 && fresh(page) && fresh(page.data)
      invariant page.count == k && page.free == 65536 - FIXED - k * 36
      invariant forall i :: 0 <= i < |page.recs| ==> |page.recs[i]| == 32
    {
      ghost var was := page.recs;
      ghost var r := PlaceLast(page, seq<Byte>(32, _ => 0));
      SameLengths(was, r, 32);
    }
    ok := CheckBuilt(page, behind);
  }

  /** append_bnode. */
  method PlaceLast(page: BnodePage, key: seq<Byte>) returns (ghost r: Raw)
    requires page.Valid() && MIN_KEY_LEN <= |key| <= MAX_REC_LEN && page.free >= |key| + SLOT
    modifies page, page.data
    ensures page.Valid() && page.recs == old(page.recs) + [r] && |r| == |key| && Le16(r, LEN_FIELD) == |key|
    ensures forall k :: 0 <= k < |key| && k != LEN_FIELD && k != LEN_FIELD + 1 ==> r[k] == key[k]
    ensures page.free == old(page.free) - |key| - SLOT && page.count == old(page.count) + 1
  {
    hide Holds;
    r := page.Place(key, |key|, page.count);
  }

  lemma {:induction false} SameLengths(recs: seq<Raw>, r: Raw, len: nat)
    requires |r| == len && forall i :: 0 <= i < |recs| ==> |recs[i]| == len
    ensures forall i :: 0 <= i < |recs + [r]| ==> |(recs + [r])[i]| == len
  {
  }
}
