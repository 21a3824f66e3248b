/** The space manager of the tools: the free list together with the bitmap on disk. */
module SpaceManagerModule {
  import opened FreeList
  import opened SignedBitmap

  datatype Place = At(addr: nat) | NoSpace

  // an offset of 0 asks for any place
  const ADDR_ANY: nat := 0

  /** The free list has exactly the clear bits of the map. */
  ghost predicate Agrees(list: seq<Item>, g: Geometry, m: Buffer, bits: nat)
    requires GeoOk(g) && bits <= Capacity(g, |m|)
  {
    forall p: nat :: p < bits ==> (Covered(list, p) <==> !Bit(g, m, p))
  }

  lemma {:induction false} AgreesTaken(list: seq<Item>, g: Geometry, m: Buffer, w: Buffer, bits: nat, i: nat, at: nat, len: nat)
    requires GeoOk(g) && bits <= Capacity(g, |m|) && ListOk(list, bits) && Agrees(list, g, m, bits)
    requires i < |list| && Fits(list[i], at, len) && Wrote(g, m, w, at, at + len, true)
    ensures |w| == |m| && Agrees(Taken(list, i, at, len), g, w, bits)
  {
    WroteMap(g, m, w, at, at + len, true);
    hide Wrote, Bit, Taken, Capacity;
    forall p: nat | p < bits ensures Covered(Taken(list, i, at, len), p) <==> !Bit(g, w, p) {
      TakenCovers(list, bits, i, at, len, p);
    }
  }

  /** A new bitmap, but for its signs, is empty. */
  lemma {:induction false} AllClear(g: Geometry, m: Buffer, bits: nat)
    requires GeoOk(g) && bits <= Capacity(g, |m|) && forall a :: 0 <= a < |m| ==> m[a] == 0
    ensures Agrees([Item(0, bits)], g, m, bits) && Total([Item(0, bits)]) == bits
  {
    assert [Item(0, bits)][..0] == [];
    hide Capacity;
    forall p: nat | p < bits ensures Covered([Item(0, bits)], p) && !Bit(g, m, p) {
      assert In([Item(0, bits)][0], p);
      PhysInBuffer(g, p, |m|);
    }
  }

  ghost predicate AllFree(g: Geometry, m: Buffer, bits: nat, at: nat, len: nat)
    requires GeoOk(g) && bits <= Capacity(g, |m|)
  {
    at + len <= bits && forall p: nat :: at <= p < at + len ==> !Bit(g, m, p)
  }

  ghost predicate SomeFits(list: seq<Item>, at: nat, len: nat) {
    exists i :: 0 <= i < |list| && Fits(list[i], at, len)
  }

  /** A request for given blocks can be met exactly when they are all free. */
  lemma {:induction false} FreeMeansFits(list: seq<Item>, g: Geometry, m: Buffer, bits: nat, at: nat, len: nat)
    requires GeoOk(g) && bits <= Capacity(g, |m|) && ListOk(list, bits) && Agrees(list, g, m, bits)
    ensures SomeFits(list, at, len) ==> AllFree(g, m, bits, at, len)
    ensures Gapped(list) && len > 0 && AllFree(g, m, bits, at, len) ==> SomeFits(list, at, len)
  {
    hide Bit, Capacity;
    if SomeFits(list, at, len) {
      var i :| 0 <= i < |list| && Fits(list[i], at, len);
      forall p: nat | at <= p < at + len ensures !Bit(g, m, p) {
        FitsCovers(list, i, at, len, p);
      }
    }
    if Gapped(list) && len > 0 && AllFree(g, m, bits, at, len) {
      OneItem(list, at, len);
    }
  }

  /** Where a part of item i belongs once item i itself is out of the list. */
  lemma {:induction false} Position(list: seq<Item>, bits: nat, i: nat, rest: seq<Item>, k: nat, offset: nat)
    requires ListOk(list, bits) && i < |list| && In(list[i], offset)
    requires rest == list[..i] + list[i + 1..] && k <= |rest|
    requires forall j :: 0 <= j < k ==> rest[j].offset <= offset
    requires k < |rest| ==> rest[k].offset > offset
    ensures k == i
  {
    assert forall j :: 0 <= j < i ==> list[j].End() <= list[i].offset;
    assert forall j :: i < j < |list| ==> list[i].End() <= list[j].offset;
    assert i < |rest| ==> rest[i] == list[i + 1];
  }

  /** The item can serve the request: it is long enough, or contains the given blocks. */
  predicate Serves(it: Item, offset: nat, length: nat) {
    if offset == ADDR_ANY then length <= it.length else Fits(it, offset, length)
  }

  ghost predicate FirstServing(list: seq<Item>, offset: nat, length: nat, i: nat) {
    && i <= |list| && (i < |list| ==> Serves(list[i], offset, length))
    && forall j :: 0 <= j < i ==> !Serves(list[j], offset, length)
  }

  /** The blocks from addr on are taken from the first item that can serve the request. */
  ghost predicate AllocatedFrom(was: seq<Item>, list: seq<Item>, offset: nat, length: nat, addr: nat, i: nat) {
    && FirstServing(was, offset, length, i) && i < |was|
    && addr == (if offset == ADDR_ANY then was[i].offset else offset)
    && Fits(was[i], addr, length) && list == Taken(was, i, addr, length)
  }

  class SpaceManager {
    const g: Geometry
    const bits: nat
    const bitmap: array<bv8>
    var list: seq<Item>
    var free: nat

    ghost predicate Valid()
      reads this, bitmap
    {
      && GeoOk(g) && bitmap.Length % g.block == 0 && bits <= Capacity(g, bitmap.Length)
      && ListOk(list, bits)
      && Agrees(list, g, bitmap[..], bits)
      && free == Total(list)
    }

    /** init_space_manager of a writable volume. */
    constructor (g: Geometry, bits: nat)
      requires GeoOk(g) && bits > 0
      ensures Valid() && Gapped(list) && fresh(bitmap) && this.g == g && this.bits == bits && free == bits
    {
      BufferLargeEnough(g, bits);
      this.g, this.bits := g, bits;
      bitmap := new bv8[BufferSize(g, bits)](_ => 0);
      list := [Item(0, bits)];
      free := bits;
      new;
      hide BufferSize, Capacity, Agrees, Total;
      AllClear(g, bitmap[..], bits);
    }

    /** put_space_manager_list_sorted. */
    method PutSorted(item: Item) returns (ghost k: nat)
      modifies this`list
      ensures k <= |old(list)| && list == old(list)[..k] + [item] + old(list)[k..]
      ensures forall j :: 0 <= j < k ==> old(list)[j].offset <= item.offset
      ensures k < |old(list)| ==> old(list)[k].offset > item.offset
    {
      if list == [] || list[0].offset > item.offset {
        list := [item] + list;
        return 0;
      }
      var at := 0;
      while at + 1 < |list| && list[at + 1].offset <= item.offset
        invariant at < |list| && forall j :: 0 <= j <= at ==> list[j].offset <= item.offset
      {
        at := at + 1;
      }
      list := list[..at + 1] + [item] + list[at + 1..];
      return at + 1;
    }

    /** The part of get_free_space for blocks in the middle of an item. */
    method SplitItem(i: nat, at: nat, len: nat)
      requires ListOk(list, bits) && i < |list| && Fits(list[i], at, len)
      requires at > list[i].offset && at + len < list[i].End()
      modifies this`list
      ensures list == Taken(old(list), i, at, len)
    {
      ghost var was := list;
      var it := list[i];
      list := list[..i] + list[i + 1..];
      ghost var one := list;
      var left, right := Item(it.offset, at - it.offset), Item(at + len, it.length - len - (at - it.offset));
      ghost var k := PutSorted(left);
      ghost var two := list;
      Position(was, bits, i, one, k, left.offset);
      InsertedAt(was, i, left);
      k := PutSorted(right);
      Behind(was, bits, i, left, two, k, right.offset);
      hide ListOk, Taken, Fits;
      Both(was, i, left, right);
      TakenMiddle(was, i, at, len);
    }

    /** get_free_space: the first item the blocks fit in. */
    method FindItem(offset: nat, length: nat) returns (i: nat)
      ensures FirstServing(list, offset, length, i)
    {
      i := 0;
      while i < |list|
        invariant i <= |list|
        invariant forall j :: 0 <= j < i ==> !Serves(list[j], offset, length)
      {
        if offset == ADDR_ANY {
          if length <= list[i].length {
            return;
          }
        } else if Fits(list[i], offset, length) {
          return;
        }
        i := i + 1;
      }
    }

    /** Takes blocks out of item i: it is made shorter at one end, dropped, or split. */
    method TakeFrom(i: nat, at: nat, len: nat)
      requires ListOk(list, bits) && i < |list| && Fits(list[i], at, len)
      modifies this`list
      ensures list == Taken(old(list), i, at, len)
    {
      var it := list[i];
      assert it.length > 0;
      hide Taken, ListOk;
      if at == it.offset || at + len == it.End() {
        TakenEnd(list, i, at, len);
        var shorter := Item(if at == it.offset then it.offset + len else it.offset, it.length - len);
        list := if shorter.length == 0 then list[..i] + list[i + 1..] else list[i := shorter];
      } else {
        SplitItem(i, at, len);
      }
    }

    /** get_free_space of a writable volume, as allocate_space calls it. */
    method Allocate(offset: nat, length: nat) returns (r: Place)
      requires Valid()
      modifies this, bitmap
      ensures Valid()
      ensures r.NoSpace? ==> list == old(list) && free == old(free) && bitmap[..] == old(bitmap[..])
      ensures r.NoSpace? <==> FirstServing(old(list), offset, length, |old(list)|)
      ensures r.At? ==> exists i: nat :: AllocatedFrom(old(list), list, offset, length, r.addr, i)
      ensures r.At? ==> r.addr + length <= bits && AllFree(g, old(bitmap[..]), bits, r.addr, length) && free == old(free) - length
      ensures r.At? ==> Wrote(g, old(bitmap[..]), bitmap[..], r.addr, r.addr + length, true)
      ensures length > 0 && old(Gapped(list)) ==> Gapped(list)
      ensures length > 0 && old(Gapped(list)) && offset != ADDR_ANY ==>
                r == if AllFree(g, old(bitmap[..]), bits, offset, length) then At(offset) else NoSpace
      ensures length > 0 && old(Gapped(list)) && offset == ADDR_ANY ==>
                forall a: nat :: AllFree(g, old(bitmap[..]), bits, a, length) ==> r.At? && r.addr <= a
    {
      hide Total, Agrees, ListOk, Gapped, Capacity, Wrote, Bit, AllFree;
      ghost var was, m := list, bitmap[..];
      var i := FindItem(offset, length);
      Searched(was, g, m, bits, offset, length, i);
      if i == |list| {
        return NoSpace;
      }
      var at := if offset == ADDR_ANY then list[i].offset else offset;
      TakeFrom(i, at, length);
      TakenOk(was, bits, i, at, length);
      TakenTotal(was, i, at, length);
      FitsInMap(was, bits, i, at, length);
      var ok := SignWrite(bitmap, g, at, length, true);
      assert ok;
      AgreesTaken(was, g, m, bitmap[..], bits, i, at, length);
      free := free - length;
      assert AllocatedFrom(was, list, offset, length, at, i);
      return At(at);
    }
  }

  /** No block is in both ranges. */
  predicate Separate(a: nat, n: nat, b: nat, k: nat) {
    a + n <= b || b + k <= a || n == 0 || k == 0
  }

  /** Any sequence of calls of allocate_space: no block is handed out twice. */
  method AllocateAll(s: SpaceManager, requests: seq<Item>) returns (places: seq<Place>)
    requires s.Valid()
    modifies s, s.bitmap
    ensures s.Valid() && |places| == |requests|
    ensures forall i, j :: 0 <= i < j < |places| && places[i].At? && places[j].At? ==>
              Separate(places[i].addr, requests[i].length, places[j].addr, requests[j].length)
  {
    hide Separate, InUse, AllFree, Agrees, ListOk, Gapped, Capacity, Wrote, Total, AllocatedFrom, FirstServing;
    places := [];
    for k := 0 to |requests|
      invariant s.Valid() && |places| == k
      invariant forall i :: 0 <= i < k && places[i].At? ==> InUse(s.g, s.bitmap[..], s.bits, places[i].addr, requests[i].length)
      invariant forall i, j :: 0 <= i < j < k && places[i].At? && places[j].At? ==>
              Separate(places[i].addr, requests[i].length, places[j].addr, requests[j].length)
    {
      ghost var m := s.bitmap[..];
      var r := s.Allocate(requests[k].offset, requests[k].length);
      if r.At? {
        forall i | 0 <= i < k && places[i].At?
          ensures InUse(s.g, s.bitmap[..], s.bits, places[i].addr, requests[i].length)
          ensures Separate(places[i].addr, requests[i].length, r.addr, requests[k].length)
        {
          UsedAndFree(s.g, m, s.bits, places[i].addr, requests[i].length, r.addr, requests[k].length);
          StaysUsed(s.g, m, s.bitmap[..], s.bits, places[i].addr, requests[i].length, r.addr, requests[k].length);
        }
        NowUsed(s.g, m, s.bitmap[..], s.bits, r.addr, requests[k].length);
      }
      places := places + [r];
    }
  }

  ghost predicate InUse(g: Geometry, m: Buffer, bits: nat, at: nat, len: nat)
    requires GeoOk(g) && bits <= Capacity(g, |m|)
  {
    at + len <= bits && forall p: nat :: at <= p < at + len ==> Bit(g, m, p)
  }

  lemma {:induction false} UsedAndFree(g: Geometry, m: Buffer, bits: nat, a: nat, n: nat, b: nat, k: nat)
    requires GeoOk(g) && bits <= Capacity(g, |m|) && InUse(g, m, bits, a, n) && AllFree(g, m, bits, b, k)
    ensures Separate(a, n, b, k)
  {
    hide Bit, Capacity;
    var p := if a <= b then b else a;
    assert a <= p < a + n ==> Bit(g, m, p);
    assert b <= p < b + k ==> !Bit(g, m, p);
  }

  lemma {:induction false} StaysUsed(g: Geometry, m: Buffer, w: Buffer, bits: nat, a: nat, n: nat, b: nat, k: nat)
    requires GeoOk(g) && bits <= Capacity(g, |m|) && InUse(g, m, bits, a, n) && Wrote(g, m, w, b, b + k, true)
    ensures |w| == |m| && InUse(g, w, bits, a, n)
  {
    WroteMap(g, m, w, b, b + k, true);
    hide Bit, Capacity, Wrote;
  }

  lemma {:induction false} NowUsed(g: Geometry, m: Buffer, w: Buffer, bits: nat, b: nat, k: nat)
    requires GeoOk(g) && bits <= Capacity(g, |m|) && b + k <= bits && Wrote(g, m, w, b, b + k, true)
    ensures |w| == |m| && InUse(g, w, bits, b, k)
  {
    WroteMap(g, m, w, b, b + k, true);
    hide Bit, Capacity, Wrote;
  }

  lemma {:induction false} FitsInMap(list: seq<Item>, bits: nat, i: nat, at: nat, len: nat)
    requires ListOk(list, bits) && i < |list| && Fits(list[i], at, len)
    ensures at + len <= bits
  {
  }

  /** What the search of get_free_space says about the map. */
  lemma {:induction false} Searched(list: seq<Item>, g: Geometry, m: Buffer, bits: nat, offset: nat, length: nat, i: nat)
    requires GeoOk(g) && bits <= Capacity(g, |m|) && ListOk(list, bits) && Agrees(list, g, m, bits)
    requires FirstServing(list, offset, length, i)
    ensures i < |list| ==> AllFree(g, m, bits, if offset == ADDR_ANY then list[i].offset else offset, length)
    ensures length > 0 && Gapped(list) && offset != ADDR_ANY && i == |list| ==> !AllFree(g, m, bits, offset, length)
    ensures length > 0 && Gapped(list) && offset == ADDR_ANY ==>
              forall a: nat :: AllFree(g, m, bits, a, length) ==> i < |list| && list[i].offset <= a
  {
    hide Agrees, Gapped, AllFree, Capacity;
    if i < |list| {
      var at := if offset == ADDR_ANY then list[i].offset else offset;
      assert Fits(list[i], at, length);
      FreeMeansFits(list, g, m, bits, at, length);
    }
    if length > 0 && Gapped(list) && offset != ADDR_ANY && i == |list| {
      FreeMeansFits(list, g, m, bits, offset, length);
    }
    if length > 0 && Gapped(list) && offset == ADDR_ANY {
      forall a: nat | AllFree(g, m, bits, a, length) ensures i < |list| && list[i].offset <= a {
        FreeMeansFits(list, g, m, bits, a, length);
        var j :| 0 <= j < |list| && Fits(list[j], a, length);
        assert j >= i;
        assert j > i ==> list[i].End() <= list[j].offset;
      }
    }
  }

  lemma {:induction false} InsertedAt(list: seq<Item>, i: nat, x: Item)
    requires i < |list|
    ensures var one := list[..i] + list[i + 1..];
            one[..i] + [x] + one[i..] == list[..i] + [x] + list[i + 1..]
  {
  }

  lemma {:induction false} TakenMiddle(list: seq<Item>, i: nat, at: nat, len: nat)
    requires i < |list| && Fits(list[i], at, len) && at > list[i].offset && at + len < list[i].End()
    ensures var it := list[i];
            Taken(list, i, at, len) == list[..i] + [Item(it.offset, at - it.offset), Item(at + len, it.End() - (at + len))] + list[i + 1..]
  {
  }

  lemma {:induction false} Both(list: seq<Item>, i: nat, left: Item, right: Item)
    requires i < |list|
    ensures var two := list[..i] + [left] + list[i + 1..];
            two[..i + 1] + [right] + two[i + 1..] == list[..i] + [left, right] + list[i + 1..]
  {
  }

  lemma {:induction false} Behind(list: seq<Item>, bits: nat, i: nat, left: Item, rest: seq<Item>, k: nat, offset: nat)
    requires ListOk(list, bits) && i < |list| && In(list[i], offset) && left.offset <= offset
    requires rest == list[..i] + [left] + list[i + 1..] && k <= |rest|
    requires forall j :: 0 <= j < k ==> rest[j].offset <= offset
    requires k < |rest| ==> rest[k].offset > offset
    ensures k == i + 1
  {
    assert forall j :: 0 <= j < i ==> list[j].End() <= list[i].offset;
    assert forall j :: i < j < |list| ==> list[i].End() <= list[j].offset;
    assert rest[i] == left && (i + 1 < |rest| ==> rest[i + 1] == list[i + 1]);
  }
}
