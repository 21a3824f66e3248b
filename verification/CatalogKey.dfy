/**
 Keys of the catalog and their order (linux/fs/vdfs4/cattree.c).  The order of the comparison
 function is that of a number, the rank of the key, which is what the tree keeps for it.
 */
module CatalogKey {
  import opened PageMemory
  import opened Division

  // VDFS4_FILE_NAME_LEN
  const MAX_NAME: nat := 255

  datatype CatKey = CatKey(parent: nat, name: seq<Byte>, obj: nat)

  predicate KeyOk(k: CatKey) {
    k.parent < TWO_64 && k.obj < TWO_64 && |k.name| <= MAX_NAME
  }

  function MemCmp(a: seq<Byte>, b: seq<Byte>, len: nat): int
    requires len <= |a| && len <= |b|
  {
    if len == 0 then 0
    else if a[0] != b[0] then (a[0] as int) - (b[0] as int)
    else MemCmp(a[1..], b[1..], len - 1)
  }

  function NameCmp(a: seq<Byte>, b: seq<Byte>): int {
    var ret := MemCmp(a, b, if |a| <= |b| then |a| else |b|);
    if ret != 0 then ret else |a| - |b|
  }

  /** vdfs4_cattree_cmpfn. */
  function Compare(a: CatKey, b: CatKey): int {
    if a.parent < b.parent then -1
    else if a.parent > b.parent then 1
    else if NameCmp(a.name, b.name) != 0 then NameCmp(a.name, b.name)
    else if a.obj < b.obj then -1
    else if a.obj > b.obj then 1
    else 0
  }

  // ---------- the rank of a key ----------

  function Pow(w: nat): (p: nat)
    ensures p > 0
  {
    if w == 0 then 1 else 257 * Pow(w - 1)
  }

  function Digit(name: seq<Byte>): (d: nat)
    ensures d <= 256
  {
    if name == [] then 0 else (name[0] as int) + 1
  }

  function Tail(name: seq<Byte>): seq<Byte> {
    if name == [] then [] else name[1..]
  }

  /** The name as a number of w digits, a missing byte being less than any other. */
  function NameRank(name: seq<Byte>, w: nat): (r: nat)
    requires |name| <= w
  {
    if w == 0 then 0 else Digit(name) * Pow(w - 1) + NameRank(Tail(name), w - 1)
  }

  lemma {:induction false} NameRankBound(name: seq<Byte>, w: nat)
    requires |name| <= w
    ensures NameRank(name, w) < Pow(w)
  {
    if w > 0 {
      NameRankBound(Tail(name), w - 1);
      Product(Pow(w - 1), Digit(name), 256);
    }
  }

  function Base(parent: nat, name: seq<Byte>): nat
    requires |name| <= MAX_NAME
  {
    parent * Pow(MAX_NAME) + NameRank(name, MAX_NAME)
  }

  function Rank(k: CatKey): nat
    requires KeyOk(k)
  {
    Base(k.parent, k.name) * TWO_64 + k.obj
  }

  lemma {:induction false} NameOrder(a: seq<Byte>, b: seq<Byte>, w: nat)
    requires |a| <= w && |b| <= w
    ensures NameCmp(a, b) < 0 <==> NameRank(a, w) < NameRank(b, w)
    ensures NameCmp(a, b) == 0 <==> NameRank(a, w) == NameRank(b, w)
    ensures NameCmp(a, b) == 0 <==> a == b
  {
    if w > 0 {
      var p := Pow(w - 1);
      NameRankBound(Tail(a), w - 1);
      NameRankBound(Tail(b), w - 1);
      if Digit(a) < Digit(b) {
        Further(p, Digit(a), Digit(b));
      } else if Digit(a) > Digit(b) {
        Further(p, Digit(b), Digit(a));
      } else {
        NameOrder(Tail(a), Tail(b), w - 1);
        SameHead(a, b);
      }
    }
  }

  lemma {:induction false} SameHead(a: seq<Byte>, b: seq<Byte>)
    requires Digit(a) == Digit(b)
    ensures NameCmp(a, b) == NameCmp(Tail(a), Tail(b)) && (a == b <==> Tail(a) == Tail(b))
  {
    if a != [] {
      assert a == [a[0]] + Tail(a) && b == [b[0]] + Tail(b);
    }
  }

  /** The sign the comparison returns is that of the ranks. */
  lemma {:induction false} CompareIsRank(a: CatKey, b: CatKey)
    requires KeyOk(a) && KeyOk(b)
    ensures Compare(a, b) < 0 <==> Rank(a) < Rank(b)
    ensures Compare(a, b) == 0 <==> Rank(a) == Rank(b)
    ensures Compare(a, b) == 0 <==> a == b
  {
    BaseOrder(a, b);
    hide NameCmp, Base;
    var x, y := Base(a.parent, a.name), Base(b.parent, b.name);
    if x < y { Further(TWO_64, x, y); } else if x > y { Further(TWO_64, y, x); }
  }

  lemma {:induction false} BaseOrder(a: CatKey, b: CatKey)
    requires KeyOk(a) && KeyOk(b)
    ensures a.parent < b.parent ==> Base(a.parent, a.name) < Base(b.parent, b.name)
    ensures a.parent > b.parent ==> Base(a.parent, a.name) > Base(b.parent, b.name)
    ensures a.parent == b.parent ==> (Base(a.parent, a.name) < Base(b.parent, b.name) <==> NameCmp(a.name, b.name) < 0)
    ensures a.parent == b.parent ==> (Base(a.parent, a.name) == Base(b.parent, b.name) <==> NameCmp(a.name, b.name) == 0)
    ensures NameCmp(a.name, b.name) == 0 <==> a.name == b.name
  {
    hide Pow, NameRank, NameCmp;
    NameOrder(a.name, b.name, MAX_NAME);
    NameRankBound(a.name, MAX_NAME);
    NameRankBound(b.name, MAX_NAME);
    if a.parent < b.parent { Further(Pow(MAX_NAME), a.parent, b.parent); }
    if a.parent > b.parent { Further(Pow(MAX_NAME), b.parent, a.parent); }
  }

  /** Hence the comparison is a strict total order. */
  lemma {:induction false} CompareIsOrder(a: CatKey, b: CatKey, c: CatKey)
    requires KeyOk(a) && KeyOk(b) && KeyOk(c)
    ensures Compare(a, a) == 0 && (Compare(a, b) == 0 <==> a == b)
    ensures Compare(a, b) < 0 <==> Compare(b, a) > 0
    ensures Compare(a, b) < 0 && Compare(b, c) < 0 ==> Compare(a, c) < 0
  {
    hide Compare, Rank;
    CompareIsRank(a, a);
    CompareIsRank(a, b);
    CompareIsRank(b, a);
    CompareIsRank(b, c);
    CompareIsRank(a, c);
  }

  // ---------- the key of a rank ----------

  function NameOf(r: nat, w: nat): seq<Byte> {
    if w == 0 then []
    else
      DivNat(r, Pow(w - 1));
      var d := r / Pow(w - 1);
      if d == 0 || d > 256 then [] else [d - 1] + NameOf(r % Pow(w - 1), w - 1)
  }

  /** The key a record of the tree has. */
  function KeyAt(rank: nat): CatKey {
    var base := rank / TWO_64;
    DivNat(base, Pow(MAX_NAME));
    CatKey(base / Pow(MAX_NAME), NameOf(base % Pow(MAX_NAME), MAX_NAME), rank % TWO_64)
  }

  lemma {:induction false} NameOfRank(name: seq<Byte>, w: nat)
    requires |name| <= w
    ensures NameOf(NameRank(name, w), w) == name
  {
    if w > 0 {
      NameRankBound(Tail(name), w - 1);
      DivMod(Pow(w - 1), Digit(name), NameRank(Tail(name), w - 1));
      NameOfRank(Tail(name), w - 1);
    }
  }

  lemma {:induction false} KeyAtRank(k: CatKey)
    requires KeyOk(k)
    ensures KeyAt(Rank(k)) == k
  {
    hide Pow, NameRank, NameOf;
    NameRankBound(k.name, MAX_NAME);
    NameOfRank(k.name, MAX_NAME);
    DivMod(TWO_64, Base(k.parent, k.name), k.obj);
    DivMod(Pow(MAX_NAME), k.parent, NameRank(k.name, MAX_NAME));
  }

  ghost predicate IsRank(r: int) {
    r >= 0 && KeyOk(KeyAt(r)) && Rank(KeyAt(r)) == r
  }

  /** The records of one name in one directory lie together in the tree. */
  lemma {:induction false} SameName(r: int, parent: nat, name: seq<Byte>)
    requires IsRank(r) && parent < TWO_64 && |name| <= MAX_NAME
    ensures KeyAt(r).parent == parent && KeyAt(r).name == name
            <==> Rank(CatKey(parent, name, 0)) <= r <= Rank(CatKey(parent, name, TWO_64 - 1))
  {
    hide KeyAt, Base, NameCmp;
    var k, z := KeyAt(r), CatKey(parent, name, 0);
    BaseOrder(k, z);
    var x, y := Base(k.parent, k.name), Base(parent, name);
    if x < y { Further(TWO_64, x, y); } else if x > y { Further(TWO_64, y, x); }
  }
}
