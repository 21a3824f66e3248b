/** The list of free runs of blocks (vdfs-tools/lib/space_manager.c). */
module FreeList {

  datatype Item = Item(offset: nat, length: nat) {
    function End(): nat { offset + length }
  }

  ghost predicate ListOk(list: seq<Item>, bits: nat) {
    && (forall i :: 0 <= i < |list| ==> list[i].length > 0 && list[i].End() <= bits)
    && (forall i, j :: 0 <= i < j < |list| ==> list[i].End() <= list[j].offset)
  }

  /** No two items touch. */
  ghost predicate Gapped(list: seq<Item>) {
    forall i, j :: 0 <= i < j < |list| ==> list[i].End() < list[j].offset
  }

  predicate In(it: Item, p: nat) {
    it.offset <= p < it.End()
  }

  ghost predicate Covered(list: seq<Item>, p: nat) {
    exists i :: 0 <= i < |list| && In(list[i], p)
  }

  ghost function Total(list: seq<Item>): nat {
    if list == [] then 0 else Total(list[..|list| - 1]) + list[|list| - 1].length
  }

  lemma {:induction false} TotalConcat(a: seq<Item>, b: seq<Item>)
    ensures Total(a + b) == Total(a) + Total(b)
    decreases |b|
  {
    if b == [] {
      assert a + b == a;
    } else {
      assert (a + b)[..|a + b| - 1] == a + b[..|b| - 1];
      TotalConcat(a, b[..|b| - 1]);
    }
  }

  /** An item contains the blocks at..at + len. */
  predicate Fits(it: Item, at: nat, len: nat) {
    it.offset <= at && at + len <= it.End()
  }

  /** What is left of an item when these blocks are taken from it. */
  function Rest(it: Item, at: nat, len: nat): seq<Item>
    requires Fits(it, at, len)
  {
    (if at > it.offset then [Item(it.offset, at - it.offset)] else [])
    + (if at + len < it.End() then [Item(at + len, it.End() - (at + len))] else [])
  }

  function Taken(list: seq<Item>, i: nat, at: nat, len: nat): seq<Item>
    requires i < |list| && Fits(list[i], at, len)
  {
    list[..i] + Rest(list[i], at, len) + list[i + 1..]
  }

  /** The item of the old list that an item of the new one comes from. */
  function From(i: nat, r: nat, j: nat): int {
    if j < i then j else if j < i + r then i else j + 1 - r
  }

  lemma {:induction false} TakenAt(list: seq<Item>, bits: nat, i: nat, at: nat, len: nat, j: nat)
    requires ListOk(list, bits) && i < |list| && Fits(list[i], at, len) && j < |Taken(list, i, at, len)|
    ensures var t, r := Taken(list, i, at, len), Rest(list[i], at, len);
            && 0 <= From(i, |r|, j) < |list| && |t| == |list| - 1 + |r|
            && var was := list[From(i, |r|, j)];
            && t[j].length > 0 && was.offset <= t[j].offset && t[j].End() <= was.End()
            && (From(i, |r|, j) != i ==> t[j] == was)
            && (From(i, |r|, j) == i ==> i <= j < i + |r| && t[j] == r[j - i])
  {
  }

  lemma {:induction false} RestCovers(it: Item, at: nat, len: nat, p: nat)
    requires Fits(it, at, len)
    ensures Covered(Rest(it, at, len), p) <==> In(it, p) && !(at <= p < at + len)
  {
    var r := Rest(it, at, len);
    if In(it, p) && p < at {
      assert In(r[0], p);
    } else if In(it, p) && p >= at + len {
      assert In(r[|r| - 1], p);
    }
  }

  lemma {:induction false} RestOk(it: Item, at: nat, len: nat)
    requires Fits(it, at, len)
    ensures var r := Rest(it, at, len);
            |r| <= 2 && (|r| == 2 ==> r[0].End() == at && r[1].offset == at + len)
  {
  }

  lemma {:induction false} TakenOk(list: seq<Item>, bits: nat, i: nat, at: nat, len: nat)
    requires ListOk(list, bits) && i < |list| && Fits(list[i], at, len)
    ensures ListOk(Taken(list, i, at, len), bits)
    ensures len > 0 && Gapped(list) ==> Gapped(Taken(list, i, at, len))
  {
    var t, r := Taken(list, i, at, len), Rest(list[i], at, len);
    RestOk(list[i], at, len);
    forall j | 0 <= j < |t| ensures t[j].length > 0 && t[j].End() <= bits {
      TakenAt(list, bits, i, at, len, j);
    }
    hide Rest, Taken;
    forall j, k | 0 <= j < k < |t|
      ensures t[j].End() <= t[k].offset && (len > 0 && Gapped(list) ==> t[j].End() < t[k].offset)
    {
      TakenAt(list, bits, i, at, len, j);
      TakenAt(list, bits, i, at, len, k);
      var a, b := From(i, |r|, j), From(i, |r|, k);
      assert a < b || (a == b == i && j == i && k == i + 1);
    }
  }

  /** Blocks at an end of an item make it shorter, or leave nothing of it. */
  lemma {:induction false} TakenEnd(list: seq<Item>, i: nat, at: nat, len: nat)
    requires i < |list| && Fits(list[i], at, len) && list[i].length > 0
    requires at == list[i].offset || at + len == list[i].End()
    ensures var it := list[i];
            var shorter := Item(if at == it.offset then it.offset + len else it.offset, it.length - len);
            Taken(list, i, at, len) == if shorter.length == 0 then list[..i] + list[i + 1..] else list[i := shorter]
  {
    var it := list[i];
    var shorter := Item(if at == it.offset then it.offset + len else it.offset, it.length - len);
    assert Rest(it, at, len) == if shorter.length == 0 then [] else [shorter];
    assert list[i := shorter] == list[..i] + [shorter] + list[i + 1..];
    assert list[..i] + [] + list[i + 1..] == list[..i] + list[i + 1..];
  }

  lemma {:induction false} TakenTotal(list: seq<Item>, i: nat, at: nat, len: nat)
    requires i < |list| && Fits(list[i], at, len)
    ensures Total(Taken(list, i, at, len)) == Total(list) - len
  {
    var rest := Rest(list[i], at, len);
    TotalConcat(list[..i] + rest, list[i + 1..]);
    TotalConcat(list[..i], rest);
    TotalConcat(list[..i] + [list[i]], list[i + 1..]);
    TotalConcat(list[..i], [list[i]]);
    assert list == list[..i] + [list[i]] + list[i + 1..];
    assert [list[i]][..0] == [];
    RestTotal(list[i], at, len);
  }

  lemma {:induction false} RestTotal(it: Item, at: nat, len: nat)
    requires Fits(it, at, len)
    ensures Total(Rest(it, at, len)) == it.length - len
  {
    var l := if at > it.offset then [Item(it.offset, at - it.offset)] else [];
    var r := if at + len < it.End() then [Item(at + len, it.End() - (at + len))] else [];
    TotalConcat(l, r);
    assert l[..0] == [] && r[..0] == [];
  }

  /** Exactly the taken blocks are gone. */
  lemma {:induction false} TakenCovers(list: seq<Item>, bits: nat, i: nat, at: nat, len: nat, p: nat)
    requires ListOk(list, bits) && i < |list| && Fits(list[i], at, len)
    ensures Covered(Taken(list, i, at, len), p) <==> Covered(list, p) && !(at <= p < at + len)
  {
    var t, r := Taken(list, i, at, len), Rest(list[i], at, len);
    RestCovers(list[i], at, len, p);
    if Covered(list, p) && !(at <= p < at + len) {
      var j :| 0 <= j < |list| && In(list[j], p);
      StillThere(list, i, at, len, j, p);
    }
    if Covered(t, p) {
      var j :| 0 <= j < |t| && In(t[j], p);
      TakenAt(list, bits, i, at, len, j);
      hide Rest, Taken;
      var k := From(i, |r|, j);
      assert In(list[k], p);
      if k == i {
        assert In(r[j - i], p);
      } else {
        assert !(at <= p < at + len) by { Elsewhere(list, bits, i, k, p); }
      }
    }
  }

  lemma {:induction false} Elsewhere(list: seq<Item>, bits: nat, i: nat, k: nat, p: nat)
    requires ListOk(list, bits) && i < |list| && k < |list| && i != k && In(list[k], p)
    ensures !In(list[i], p)
  {
    if i < k {
      assert list[i].End() <= list[k].offset;
    } else {
      assert list[k].End() <= list[i].offset;
    }
  }

  lemma {:induction false} StillThere(list: seq<Item>, i: nat, at: nat, len: nat, j: nat, p: nat)
    requires i < |list| && Fits(list[i], at, len) && j < |list| && In(list[j], p) && !(at <= p < at + len)
    ensures Covered(Taken(list, i, at, len), p)
  {
    var t, r := Taken(list, i, at, len), Rest(list[i], at, len);
    RestCovers(list[i], at, len, p);
    if j < i {
      assert t[j] == list[j];
    } else if j > i {
      assert t[j - 1 + |r|] == list[j];
    } else {
      var k :| 0 <= k < |r| && In(r[k], p);
      assert t[i + k] == r[k];
    }
  }

  /** Where no two items touch, blocks that are all free lie in one item. */
  lemma {:induction false} OneItem(list: seq<Item>, at: nat, len: nat)
    requires Gapped(list) && len > 0 && forall p :: at <= p < at + len ==> Covered(list, p)
    ensures exists i :: 0 <= i < |list| && Fits(list[i], at, len)
  {
    assert Covered(list, at);
    var i :| 0 <= i < |list| && In(list[i], at);
    assert list[i].End() < at + len ==> Covered(list, list[i].End());
    assert Fits(list[i], at, len);
  }

  lemma {:induction false} FitsCovers(list: seq<Item>, i: nat, at: nat, len: nat, p: nat)
    requires i < |list| && Fits(list[i], at, len) && at <= p < at + len
    ensures Covered(list, p)
  {
    assert In(list[i], p);
  }
}
