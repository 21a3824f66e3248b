/** The map of bnode ids in use (linux/fs/vdfs4/bnode.c). */
module BnodeIds {
  import opened PageMemory

  /** first is the least clear bit, or the number of bits when none is clear. */
  ghost predicate LeastClear(bits: seq<bool>, first: nat) {
    && first <= |bits| && (first < |bits| ==> !bits[first])
    && forall i :: 0 <= i < first ==> bits[i]
  }

  ghost function Clear(bits: seq<bool>, k: nat): nat
    requires k <= |bits|
  {
    if k == 0 then 0 else Clear(bits, k - 1) + if bits[k - 1] then 0 else 1
  }

  /** find_next_zero_bit. */
  method FindNextZero(bits: seq<bool>, from: nat) returns (i: nat)
    requires from <= |bits|
    ensures from <= i <= |bits| && (i < |bits| ==> !bits[i])
    ensures forall j :: from <= j < i ==> bits[j]
  {
    i := from;
    while i < |bits| && bits[i]
      invariant from <= i <= |bits| && forall j :: from <= j < i ==> bits[j]
    {
      i := i + 1;
    }
  }

  /** The bits less their weight, as the bitmap is built. */
  method CountClear(bits: seq<bool>) returns (n: nat)
    ensures n == Clear(bits, |bits|)
  {
    var weight := 0;
    for k := 0 to |bits|
      invariant weight + Clear(bits, k) == k
    {
      if bits[k] {
        weight := weight + 1;
      }
    }
    n := |bits| - weight;
  }

  lemma {:induction false} ClearUpdate(bits: seq<bool>, i: nat, v: bool, k: nat)
    requires i < |bits| && bits[i] != v && k <= |bits|
    ensures Clear(bits[i := v], k) == Clear(bits, k) + if i >= k then 0 else if v then -1 else 1
  {
    if k > 0 { ClearUpdate(bits, i, v, k - 1); }
  }

  /** A count of zero and a first clear bit behind the end say the same. */
  lemma {:induction false} NoneClear(bits: seq<bool>, first: nat, k: nat)
    requires LeastClear(bits, first) && k <= |bits|
    ensures Clear(bits, k) == 0 <==> k <= first
  {
    if k > 0 { NoneClear(bits, first, k - 1); }
  }

  // ---------- the reserve ----------

  function Wrap(x: int): (r: nat)
    ensures r < TWO_64
  {
    x % TWO_64
  }

  /**
   vdfs4_check_bnode_reserve, in 64-bit unsigned arithmetic: it prepares the ids that the
   reserve of four nodes for each level lacks, and none when there are enough.
   */
  method CheckReserve(available: nat, bitsNum: nat, freeNum: nat, height: nat) returns (prepared: seq<nat>)
    requires freeNum <= bitsNum
    requires available < TWO_64 && bitsNum - freeNum + 4 * height < TWO_64
    ensures |prepared| == if available < bitsNum - freeNum + 4 * height then bitsNum - freeNum + 4 * height - available else 0
    ensures forall k :: 0 <= k < |prepared| ==> prepared[k] == available + k
  {
    prepared := [];
    var used := bitsNum - freeNum;
    var free := Wrap(available - used);
    var deficit := Wrap(4 * height - free);
    if deficit <= 0 {
      Enough(available, used, 4 * height);
      return;
    }
    var end := Wrap(available + deficit);
    NewEnd(available, used, 4 * height);
    var i := available;
    while i < end
      invariant available <= i && |prepared| == i - available && (i <= end || i == available)
      invariant forall k :: 0 <= k < |prepared| ==> prepared[k] == available + k
    {
      prepared := prepared + [i];
      i := i + 1;
    }
  }

  /** The end of the loop does not feel the wrap-around of the two differences before it. */
  lemma {:induction false} NewEnd(available: nat, used: nat, reserve: nat)
    requires available < TWO_64 && used + reserve < TWO_64
    ensures Wrap(available + Wrap(reserve - Wrap(available - used))) == used + reserve
  {
  }

  lemma {:induction false} Enough(available: nat, used: nat, reserve: nat)
    requires available < TWO_64 && used + reserve < TWO_64
    requires Wrap(reserve - Wrap(available - used)) == 0
    ensures used + reserve == available
  {
  }
}
