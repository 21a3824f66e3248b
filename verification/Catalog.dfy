/**
 The catalog: files, folders and the inverse links from an object to its parent, as records of
 the tree (linux/fs/vdfs4/cattree.c).
 */
module CatalogModule {
  import opened Layout
  import opened PageMemory
  import opened CatalogKey
  import opened Division
  import opened TreeState
  import opened InsertState
  import opened RemoveState
  import opened BtreeModule

  // record types
  const FOLDER: nat := 1
  const FILE: nat := 2
  const HLINK: nat := 3
  const ILINK: nat := 5

  const ROOT_KEY: CatKey := CatKey(0, [114, 111, 111, 116], 1)

  // the value of a record stands for its type and its orphan flag
  function Value(kind: nat, orphan: bool): nat {
    kind + if orphan then 8 else 0
  }

  predicate Kind(r: Rec, kind: nat) {
    r.val % 8 == kind
  }

  /** vdfs4_cattree_is_orphan. */
  predicate IsOrphan(r: Rec) {
    (Kind(r, FOLDER) || Kind(r, FILE)) && r.val / 8 % 2 == 1
  }

  // generic key, parent and object id, record type and length of the name
  const KEY_HEAD: nat := 26

  // the structures of the values
  function ValueSize(kind: nat): nat {
    if kind == FILE then 312 else if kind == FOLDER then 80 else if kind == HLINK then 8 else 0
  }

  /** vdfs4_alloc_cattree_key and vdfs4_fill_cattree_key. */
  function MakeRec(k: CatKey, kind: nat, orphan: bool): (r: Rec)
    requires KeyOk(k)
    ensures RecOk(r) && r.key == Rank(k)
  {
    var klen := (KEY_HEAD + |k.name| + 7) / 8 * 8;
    Rec(Rank(k), klen, klen + ValueSize(kind), Value(kind, orphan))
  }

  /** A new record has the type it was made for, the flag it was given, and the aligned length of its parts. */
  lemma {:induction false} RecMade(k: CatKey, kind: nat, orphan: bool)
    requires KeyOk(k) && kind < 8
    ensures var r := MakeRec(k, kind, orphan);
            && Kind(r, kind) && (IsOrphan(r) <==> orphan && (kind == FILE || kind == FOLDER))
            && r.klen % 8 == 0 && KEY_HEAD + |k.name| <= r.klen < KEY_HEAD + |k.name| + 8
            && r.rlen == r.klen + ValueSize(kind)
  {
    hide Rank;
    DivMod(8, (KEY_HEAD + |k.name| + 7) / 8, 0);
  }

  /** The key of the inverse link: parent and object change places. */
  function Swap(k: CatKey): CatKey {
    CatKey(k.obj, k.name, k.parent)
  }

  /** Object ids start at one. */
  predicate IdsOk(k: CatKey) {
    KeyOk(k) && k.parent > 0 && k.obj > 0
  }

  /** A record that gets an inverse link: not a hard link, and not the body of one, which is its own parent. */
  predicate Linked(k: CatKey, kind: nat) {
    k.parent != k.obj && kind != HLINK
  }

  predicate MainKind(kind: nat) {
    kind == FILE || kind == FOLDER || kind == HLINK
  }

  /** The record has a partner under the swapped key, and one of the two is the inverse link. */
  ghost predicate Partnered(c: map<int, Rec>, r: int)
    requires r in c && IsRank(r)
  {
    var s := Rank(Swap(KeyAt(r)));
    s in c && !Kind(c[s], HLINK) && (Kind(c[r], ILINK) <==> !Kind(c[s], ILINK))
  }

  ghost predicate RecordAt(c: map<int, Rec>, r: int)
    requires r in c
  {
    && IsRank(r) && IdsOk(KeyAt(r))
    && (Kind(c[r], HLINK) || KeyAt(r).parent == KeyAt(r).obj || Partnered(c, r))
  }

  /** Every record but the root is a hard link, the body of one, or one of a pair. */
  ghost predicate CatalogOk(c: map<int, Rec>) {
    && Rank(ROOT_KEY) in c
    && forall r :: r in c && r != Rank(ROOT_KEY) ==> RecordAt(c, r)
  }

  /** The catalog with a record, and with its inverse link if it gets one. */
  ghost function WithRecord(c: map<int, Rec>, k: CatKey, kind: nat): map<int, Rec>
    requires IdsOk(k)
  {
    if Linked(k, kind) then c[Rank(Swap(k)) := MakeRec(Swap(k), ILINK, false)][Rank(k) := MakeRec(k, kind, false)]
    else c[Rank(k) := MakeRec(k, kind, false)]
  }

  /** The key of the inverse link is not taken, or no inverse link is wanted. */
  ghost predicate LinkFree(c: map<int, Rec>, k: CatKey, kind: nat)
    requires IdsOk(k)
  {
    Linked(k, kind) ==> Rank(Swap(k)) !in c
  }

  ghost predicate Arrived(c: map<int, Rec>, k: CatKey, kind: nat)
    requires IdsOk(k)
  {
    && Rank(k) in c && Kind(c[Rank(k)], kind) && Live(c, k.parent, k.name, Rank(k))
    && (Linked(k, kind) ==> Rank(Swap(k)) in c && Kind(c[Rank(Swap(k))], ILINK))
  }

  /** A record that was placed is there with its type, is no orphan, and its inverse link is one. */
  lemma {:induction false} PlacedLive(c: map<int, Rec>, k: CatKey, kind: nat)
    requires IdsOk(k) && MainKind(kind)
    ensures var w := WithRecord(c, k, kind);
            && Arrived(w, k, kind)
            && forall x :: x in c && x != Rank(k) && (Linked(k, kind) ==> x != Rank(Swap(k))) ==> x in w && w[x] == c[x]
  {
    hide Rank, KeyAt, MakeRec;
    AboveRoot(k);
    KeyAtRank(k);
    RecMade(k, kind, false);
    RecMade(Swap(k), ILINK, false);
  }

  /** The key holds a record that is not a hard link. */
  ghost predicate Firm(c: map<int, Rec>, k: CatKey)
    requires KeyOk(k)
  {
    Rank(k) in c && !Kind(c[Rank(k)], HLINK)
  }

  lemma {:induction false} AboveRoot(k: CatKey)
    requires IdsOk(k)
    ensures Rank(k) > Rank(ROOT_KEY) && Rank(Swap(k)) > Rank(ROOT_KEY)
    ensures Rank(k) == Rank(Swap(k)) <==> k.parent == k.obj
  {
    hide Rank;
    CompareIsRank(ROOT_KEY, k);
    CompareIsRank(ROOT_KEY, Swap(k));
    CompareIsRank(k, Swap(k));
  }

  /** Of a record and its inverse link both are in the catalog, or neither is. */
  lemma {:induction false} BothOrNeither(c: map<int, Rec>, k: CatKey)
    requires CatalogOk(c) && IdsOk(k) && k.parent != k.obj
    ensures Firm(c, k) <==> Firm(c, Swap(k))
    ensures Firm(c, k) ==> (Kind(c[Rank(k)], ILINK) <==> !Kind(c[Rank(Swap(k))], ILINK))
  {
    hide Rank, KeyAt;
    AboveRoot(k);
    KeyAtRank(k);
    KeyAtRank(Swap(k));
    assert Rank(k) in c ==> RecordAt(c, Rank(k));
    assert Rank(Swap(k)) in c ==> RecordAt(c, Rank(Swap(k)));
  }

  lemma {:induction false} SwapInjective(a: CatKey, b: CatKey)
    requires KeyOk(a) && KeyOk(b)
    ensures Rank(Swap(a)) == Rank(b) ==> a == Swap(b)
    ensures Rank(Swap(a)) == Rank(Swap(b)) ==> a == b
    ensures Rank(a) == Rank(b) ==> a == b
  {
    hide Rank, Compare;
    CompareIsRank(Swap(a), b);
    CompareIsRank(Swap(a), Swap(b));
    CompareIsRank(a, b);
  }

  /** Placing a record under a free key, with its inverse link under another free key if it gets one. */
  lemma {:induction false} RecordAdded(c: map<int, Rec>, k: CatKey, kind: nat)
    requires CatalogOk(c) && IdsOk(k) && MainKind(kind) && Rank(k) !in c && (Linked(k, kind) ==> Rank(Swap(k)) !in c)
    ensures CatalogOk(WithRecord(c, k, kind))
  {
    hide Rank, KeyAt;
    AboveRoot(k);
    KeyAtRank(k);
    KeyAtRank(Swap(k));
    var c' := WithRecord(c, k, kind);
    forall x | x in c' && x != Rank(ROOT_KEY) ensures RecordAt(c', x) {
      if x in c { assert RecordAt(c, x); }
    }
  }

  /** Removing a record, with its partner if it has one. */
  lemma {:induction false} RecordGone(c: map<int, Rec>, k: CatKey)
    requires CatalogOk(c) && IdsOk(k)
    requires Rank(k) in c && (Kind(c[Rank(k)], HLINK) || k.parent == k.obj)
    ensures CatalogOk(c - {Rank(k)})
  {
    hide Rank, KeyAt;
    AboveRoot(k);
    var c' := c - {Rank(k)};
    forall x | x in c' && x != Rank(ROOT_KEY) ensures RecordAt(c', x) {
      assert RecordAt(c, x);
      SwapInjective(KeyAt(x), k);
    }
  }

  lemma {:induction false} PairGone(c: map<int, Rec>, k: CatKey)
    requires CatalogOk(c) && IdsOk(k) && Firm(c, k) && k.parent != k.obj
    ensures CatalogOk(c - {Rank(Swap(k))} - {Rank(k)})
  {
    hide Rank, KeyAt;
    AboveRoot(k);
    var c' := c - {Rank(Swap(k))} - {Rank(k)};
    forall x | x in c' && x != Rank(ROOT_KEY) ensures RecordAt(c', x) {
      assert RecordAt(c, x);
      var y := KeyAt(x);
      assert Swap(Swap(y)) == y && Swap(Swap(k)) == k;
      SwapInjective(y, k);
    }
  }

  /** The key is free for the record, and so is the one of its inverse link if it gets one. */
  ghost predicate Free(c: map<int, Rec>, k: CatKey, kind: nat)
    requires IdsOk(k)
  {
    Rank(k) !in c && LinkFree(c, k, kind)
  }

  /** What is left when a record could not be placed. */
  ghost function AfterFailure(c: map<int, Rec>, k: CatKey, kind: nat): map<int, Rec>
    requires IdsOk(k)
  {
    if Linked(k, kind) then c else c - {Rank(Swap(k))}
  }

  /** A failure to place the record takes another one away. */
  ghost predicate LosesRecord(c: map<int, Rec>, k: CatKey, kind: nat)
    requires IdsOk(k)
  {
    !Linked(k, kind) && Rank(Swap(k)) in c
  }

  /** A failure leaves the catalog as it was exactly when it takes no record away. */
  lemma {:induction false} FailureExact(c: map<int, Rec>, k: CatKey, kind: nat)
    requires IdsOk(k)
    ensures AfterFailure(c, k, kind) == c <==> !LosesRecord(c, k, kind)
  {
    hide Rank;
    if !Linked(k, kind) && Rank(Swap(k)) in c { assert Rank(Swap(k)) !in AfterFailure(c, k, kind); }
    if !Linked(k, kind) && Rank(Swap(k)) !in c { assert c - {Rank(Swap(k))} == c; }
  }

  /** A second body of a hard link is refused, and the first one is gone. */
  lemma {:induction false} SecondBodyDeletesFirst(c: map<int, Rec>, k: CatKey, kind: nat)
    requires IdsOk(k) && k.parent == k.obj && Rank(k) in c
    ensures !Free(c, k, kind) && Rank(k) !in AfterFailure(c, k, kind)
  {
  }

  /** A hard link under the key of a file is refused, and the file's inverse link is gone: the file is no longer paired. */
  lemma {:induction false} LinkOverFileUnpairs(c: map<int, Rec>, k: CatKey)
    requires CatalogOk(c) && IdsOk(k) && k.parent != k.obj && Firm(c, k)
    ensures !Free(c, k, HLINK) && !CatalogOk(AfterFailure(c, k, HLINK))
  {
    hide Rank, KeyAt;
    AboveRoot(k);
    KeyAtRank(k);
    BothOrNeither(c, k);
    var c' := AfterFailure(c, k, HLINK);
    assert Rank(k) in c' && !RecordAt(c', Rank(k));
  }

  ghost predicate Removable(c: map<int, Rec>, k: CatKey, kind: nat)
    requires IdsOk(k)
  {
    Rank(k) in c && (Linked(k, kind) ==> Rank(Swap(k)) in c)
  }

  ghost function Without(c: map<int, Rec>, k: CatKey, kind: nat): map<int, Rec>
    requires IdsOk(k)
  {
    if !Linked(k, kind) then c - {Rank(k)}
    else if Rank(Swap(k)) in c then c - {Rank(Swap(k))} - {Rank(k)} else c
  }

  ghost predicate HasKind(c: map<int, Rec>, k: CatKey, kind: nat)
    requires IdsOk(k)
  {
    Rank(k) in c && Kind(c[Rank(k)], kind)
  }

  ghost predicate Absent(c: map<int, Rec>, k: CatKey, kind: nat)
    requires IdsOk(k)
  {
    Rank(k) !in c && LinkFree(c, k, kind)
  }

  lemma {:induction false} RemovedExact(c: map<int, Rec>, k: CatKey, kind: nat)
    requires CatalogOk(c) && IdsOk(k) && MainKind(kind)
    ensures HasKind(c, k, kind) ==> Removable(c, k, kind) && CatalogOk(Without(c, k, kind))
    ensures Absent(c, k, kind) ==> !Removable(c, k, kind) && Without(c, k, kind) == c
  {
    hide Rank, CatalogOk;
    if HasKind(c, k, kind) {
      if Linked(k, kind) {
        BothOrNeither(c, k);
        PairGone(c, k);
      } else {
        RecordGone(c, k);
      }
    }
    if Absent(c, k, kind) { assert c - {Rank(k)} == c; }
  }

  /** Another value of the same type keeps the catalog. */
  lemma {:induction false} Reflagged(c: map<int, Rec>, k: CatKey, v: nat)
    requires CatalogOk(c) && KeyOk(k) && Rank(k) in c && v % 8 == c[Rank(k)].val % 8
    ensures CatalogOk(c[Rank(k) := c[Rank(k)].(val := v)])
  {
    hide Rank, KeyAt;
    var c' := c[Rank(k) := c[Rank(k)].(val := v)];
    forall x | x in c' && x != Rank(ROOT_KEY) ensures RecordAt(c', x) {
      assert RecordAt(c, x);
    }
  }

  datatype PlaceResult = Done | Present | NoMemory
  datatype Found = Record(rec: Rec) | NoEntry

  class Catalog {
    const tree: Btree
    // what the tree holds
    ghost var cat: map<int, Rec>

    /** The tree is a good one and holds cat. */
    ghost predicate Held()
      reads this, tree
    {
      tree.Valid() && tree.MinKey() == Rank(ROOT_KEY) && cat == tree.Contents()
    }

    ghost predicate Valid()
      reads this, tree
    {
      Held() && CatalogOk(cat)
    }

    /** init_cattree: the tree with the root folder. */
    constructor (nodeSize: nat)
      requires NodeSizeOk(nodeSize)
      ensures Valid() && fresh(tree) && cat == map[Rank(ROOT_KEY) := MakeRec(ROOT_KEY, FOLDER, false)]
    {
      hide Rank, Btree.Valid, Btree.Contents, Btree.MinKey;
      tree := new Btree(nodeSize, MakeRec(ROOT_KEY, FOLDER, false));
      cat := map[Rank(ROOT_KEY) := MakeRec(ROOT_KEY, FOLDER, false)];
    }

    /**
     vdfs4_cattree_place_record.  memory says whether the record's key can be allocated.  A failure
     behind the inverse link takes the inverse link back; it does so, too, when none was placed: then
     the record under the swapped key goes, whatever it is.
     */
    method Place(k: CatKey, kind: nat, memory: bool) returns (res: PlaceResult)
      requires Valid() && IdsOk(k) && MainKind(kind)
      modifies this, tree
      ensures Held()
      ensures res == Done <==> memory && Free(old(cat), k, kind)
      ensures res == NoMemory <==> !memory && LinkFree(old(cat), k, kind)
      ensures cat == if res == Done then WithRecord(old(cat), k, kind) else AfterFailure(old(cat), k, kind)
      ensures res == Done ==> Arrived(cat, k, kind)
      ensures res == Done || !LosesRecord(old(cat), k, kind) ==> Valid()
    {
      hide Rank, CatalogOk, Btree.Valid, Btree.Contents, Btree.MinKey;
      AboveRoot(k);
      ghost var c := cat;
      if Linked(k, kind) {
        var link := tree.Insert(MakeRec(Swap(k), ILINK, false));
        if link != Placed {
          return Present;
        }
      }
      if !memory {
        TakeLinkBack(k);
        FailureExact(c, k, kind);
        return NoMemory;
      }
      var main := tree.Insert(MakeRec(k, kind, false));
      if main != Placed {
        TakeLinkBack(k);
        FailureExact(c, k, kind);
        return Present;
      }
      RecordAdded(c, k, kind);
      PlacedLive(c, k, kind);
      cat := WithRecord(cat, k, kind);
      return Done;
    }

    /** vdfs4_cattree_remove_ilink. */
    method TakeLinkBack(k: CatKey)
      requires tree.Valid() && tree.MinKey() == Rank(ROOT_KEY) && IdsOk(k)
      modifies this, tree
      ensures Held() && cat == old(tree.Contents()) - {Rank(Swap(k))}
    {
      hide Rank, Btree.Valid, Btree.Contents, Btree.MinKey;
      AboveRoot(k);
      var gone, story := tree.Remove(Rank(Swap(k)));
      cat := tree.Contents();
    }

    /** vdfs4_cattree_remove, for a record of the given type. */
    method Remove(k: CatKey, kind: nat) returns (found: bool)
      requires Valid() && IdsOk(k) && MainKind(kind)
      modifies this, tree
      ensures Held()
      ensures found <==> Removable(old(cat), k, kind)
      ensures cat == Without(old(cat), k, kind)
      ensures HasKind(old(cat), k, kind) ==> found && Valid()
      ensures Absent(old(cat), k, kind) ==> !found && cat == old(cat) && Valid()
    {
      hide Rank, CatalogOk, Btree.Valid, Btree.Contents, Btree.MinKey;
      AboveRoot(k);
      RemovedExact(cat, k, kind);
      ghost var c := cat;
      ghost var story;
      if Linked(k, kind) {
        found, story := tree.Remove(Rank(Swap(k)));
        cat := cat - {Rank(Swap(k))};
        if !found {
          assert cat == c;
          return;
        }
      }
      found, story := tree.Remove(Rank(k));
      cat := cat - {Rank(k)};
    }

    /** The flags of a file or folder are written back, ORPHAN_INODE among them (__vdfs4_write_inode). */
    method SetOrphan(k: CatKey, kind: nat, orphan: bool) returns (found: bool)
      requires Valid() && KeyOk(k) && (kind == FILE || kind == FOLDER)
      requires Rank(k) in cat ==> Kind(cat[Rank(k)], kind)
      modifies this, tree
      ensures Valid() && (found <==> Rank(k) in old(cat))
      ensures found ==> cat == old(cat)[Rank(k) := old(cat)[Rank(k)].(val := Value(kind, orphan))] && (IsOrphan(cat[Rank(k)]) <==> orphan)
      ensures !found ==> cat == old(cat)
    {
      hide Rank, CatalogOk, Btree.Valid, Btree.Contents, Btree.MinKey;
      found := tree.SetValue(Rank(k), Value(kind, orphan));
      if found {
        Reflagged(cat, k, Value(kind, orphan));
        cat := cat[Rank(k) := cat[Rank(k)].(val := Value(kind, orphan))];
      }
    }

    /** vdfs4_btree_find, in terms of the catalog. */
    method TreeFind(r: int) returns (res: Lookup, ghost i: nat)
      requires Valid()
      ensures res.NoRecord? <==> r < Rank(ROOT_KEY)
      ensures res.At? ==> tree.Points(res, i) && res.rec.key in cat && cat[res.rec.key] == res.rec && res.rec.key <= r
      ensures res.At? ==> forall x :: x in cat && x <= r ==> x <= res.rec.key
    {
      hide Rank, CatalogOk, Btree.Contents, Btree.MinKey, Btree.Points, Shape, Indexed, LevelsOk;
      IndexedIsPartly(tree.levels, 0);
      res, i := tree.Find(r);
      tree.FloorInContents(r, res);
    }

    /** vdfs4_get_next_btree_record, in terms of the catalog. */
    method TreeNext(cur: Lookup, ghost i: nat) returns (res: Lookup, ghost j: nat)
      requires Valid() && cur.At? && tree.Points(cur, i)
      ensures res.NoRecord? ==> forall x :: x in cat ==> x <= cur.rec.key
      ensures res.At? ==> tree.Points(res, j) && res.rec.key in cat && cat[res.rec.key] == res.rec && cur.rec.key < res.rec.key
      ensures res.At? ==> forall x :: x in cat && cur.rec.key < x ==> res.rec.key <= x
    {
      hide Rank, CatalogOk, Btree.Contents, Btree.MinKey, Btree.Points, Shape, Rooted;
      RootedFacts(tree.n, tree.levels, 0);
      res, j := tree.Next(cur, i);
      tree.NextInContents(cur, res);
      if res.NoRecord? {
        forall x | x in cat ensures x <= cur.rec.key {
          assert x in tree.Contents();
        }
      }
    }

    /** vdfs4_cattree_find: a record of that name in that directory that is no orphan. */
    method Find(parent: nat, name: seq<Byte>) returns (res: Found)
      requires Valid() && parent < TWO_64 && |name| <= MAX_NAME
      ensures res.Record? ==> res.rec.key in cat && cat[res.rec.key] == res.rec && Live(cat, parent, name, res.rec.key)
      ensures res.NoEntry? ==> forall x :: x in cat ==> !Live(cat, parent, name, x)
    {
      hide Rank, KeyAt, Compare, CatalogOk, IsOrphan, Btree.Valid, Btree.Contents, Btree.MinKey, Btree.Points;
      NamedRange(cat, parent, name);
      var lo, hi := Rank(CatKey(parent, name, 0)), Rank(CatKey(parent, name, TWO_64 - 1));
      ghost var i;
      var last: Lookup;
      last, i := TreeFind(hi);
      if last.NoRecord? {
        return NoEntry;
      }
      assert InRange(last.rec.key, parent, name, lo, hi);
      var key := KeyAt(last.rec.key);
      SameParentAndName(key, parent, name);
      if Compare(key, CatKey(parent, name, key.obj)) != 0 {
        return NoEntry;
      }
      if !IsOrphan(last.rec) {
        return Record(last.rec);
      }
      var cur: Lookup;
      cur, i := TreeFind(lo);
      if cur.NoRecord? {
        return NoEntry;
      }
      while true
        invariant cur.At? && tree.Points(cur, i) && cur.rec.key in cat && cur.rec.key <= hi
        invariant forall x :: x in cat && lo <= x <= cur.rec.key ==> IsOrphan(cat[x])
        decreases hi - cur.rec.key
      {
        ghost var j;
        var next: Lookup;
        next, j := TreeNext(cur, i);
        if next.NoRecord? {
          return NoEntry;
        }
        assert InRange(next.rec.key, parent, name, lo, hi);
        key := KeyAt(next.rec.key);
        SameParentAndName(key, parent, name);
        if Compare(key, CatKey(parent, name, key.obj)) != 0 {
          return NoEntry;
        }
        if !IsOrphan(next.rec) {
          return Record(next.rec);
        }
        cur, i := next, j;
      }
    }
  }

  /** A record of that name in that directory that is no orphan. */
  ghost predicate Live(c: map<int, Rec>, parent: nat, name: seq<Byte>, x: int)
    requires x in c
  {
    x >= 0 && KeyAt(x).parent == parent && KeyAt(x).name == name && !IsOrphan(c[x])
  }

  /** The records of a name are a range of the tree, and none has the key that the search starts from. */
  lemma {:induction false} NamedRange(c: map<int, Rec>, parent: nat, name: seq<Byte>)
    requires CatalogOk(c) && parent < TWO_64 && |name| <= MAX_NAME
    ensures var lo, hi := Rank(CatKey(parent, name, 0)), Rank(CatKey(parent, name, TWO_64 - 1));
            && lo <= hi && lo !in c
            && (lo < Rank(ROOT_KEY) ==> forall x :: x in c && lo <= x <= hi ==> x == Rank(ROOT_KEY))
            && forall x :: x in c ==> InRange(x, parent, name, lo, hi)
  {
    hide Rank, KeyAt, Compare;
    var z, top := CatKey(parent, name, 0), CatKey(parent, name, TWO_64 - 1);
    var lo, hi := Rank(z), Rank(top);
    RankUp(parent, name);
    KeyAtRank(ROOT_KEY);
    KeyAtRank(z);
    assert Rank(z) != Rank(ROOT_KEY);
    assert lo in c ==> RecordAt(c, lo);
    forall x | x in c ensures InRange(x, parent, name, lo, hi) && (x == Rank(ROOT_KEY) || KeyAt(x).parent > 0) {
      assert x != Rank(ROOT_KEY) ==> RecordAt(c, x);
      SameName(x, parent, name);
    }
    if lo < Rank(ROOT_KEY) {
      ParentZero(z);
    }
  }

  ghost predicate InRange(x: int, parent: nat, name: seq<Byte>, lo: int, hi: int) {
    IsRank(x) && (KeyAt(x).parent == parent && KeyAt(x).name == name <==> lo <= x <= hi)
  }

  lemma {:induction false} RankUp(parent: nat, name: seq<Byte>)
    requires parent < TWO_64 && |name| <= MAX_NAME
    ensures Rank(CatKey(parent, name, 0)) <= Rank(CatKey(parent, name, TWO_64 - 1))
  {
    hide Base;
  }

  lemma {:induction false} ParentZero(z: CatKey)
    requires KeyOk(z) && Rank(z) < Rank(ROOT_KEY)
    ensures z.parent == 0
  {
    hide Rank;
    CompareIsRank(z, ROOT_KEY);
  }

  /** Comparing with the object of the record itself compares parent and name. */
  lemma {:induction false} SameParentAndName(k: CatKey, parent: nat, name: seq<Byte>)
    requires KeyOk(k) && parent < TWO_64 && |name| <= MAX_NAME
    ensures Compare(k, CatKey(parent, name, k.obj)) == 0 <==> k.parent == parent && k.name == name
  {
    hide Rank, Compare;
    CompareIsRank(k, CatKey(parent, name, k.obj));
  }
}
