/**
 The cache of bnodes: a hash of live nodes with reference counts, and the map of ids.  Every
 method is what happens under one lock, so a run of the system is a sequence of calls.
 */
module BnodeCacheModule {
  import opened BnodeIds

  const HASH_SIZE: nat := 1024
  const INVALID_ID: nat := 0

  class Bnode {
    const id: nat
    var refCount: int

    constructor (id: nat)
      ensures this.id == id && refCount == 1
    {
      this.id := id;
      refCount := 1;
    }
  }

  datatype Got = Handle(node: Bnode) | NoEntry | NoData | NoSpace
  datatype Destroyed = Done | Invalid | Fault

  function Hash(id: nat): (h: nat)
    ensures h < HASH_SIZE
  {
    id % HASH_SIZE
  }

  /** The buckets hold exactly the live nodes, each once, and no two of them have the same id. */
  ghost predicate Hashed(table: seq<seq<Bnode>>, live: set<Bnode>) {
    && |table| == HASH_SIZE
    && (forall n :: n in live ==> n in table[Hash(n.id)])
    && (forall h, k :: 0 <= h < HASH_SIZE && 0 <= k < |table[h]| ==> table[h][k] in live && Hash(table[h][k].id) == h)
    && (forall n, m :: n in live && m in live && n.id == m.id ==> n == m)
    && (forall h, j, k :: 0 <= h < HASH_SIZE && 0 <= j < k < |table[h]| ==> table[h][j] != table[h][k])
  }

  /** Bit 0 is that of the head node; no other id without a bit has a live node. */
  ghost predicate IdsOk(bits: seq<bool>, firstFree: nat, freeNum: nat, live: set<Bnode>) {
    && |bits| > 0 && bits[0]
    && LeastClear(bits, firstFree) && freeNum == Clear(bits, |bits|)
    && forall n :: n in live ==> n.id < |bits| && bits[n.id]
  }

  lemma {:induction false} IdKnown(bits: seq<bool>, firstFree: nat, freeNum: nat, live: set<Bnode>, node: Bnode)
    requires IdsOk(bits, firstFree, freeNum, live) && node.id < |bits| && bits[node.id]
    ensures IdsOk(bits, firstFree, freeNum, live + {node})
  {
  }

  lemma {:induction false} IdsFewer(bits: seq<bool>, firstFree: nat, freeNum: nat, live: set<Bnode>, node: Bnode)
    requires IdsOk(bits, firstFree, freeNum, live)
    ensures IdsOk(bits, firstFree, freeNum, live - {node})
  {
  }

  lemma {:induction false} IdsFacts(bits: seq<bool>, firstFree: nat, freeNum: nat, live: set<Bnode>)
    requires IdsOk(bits, firstFree, freeNum, live)
    ensures |bits| > 0 && bits[0] && forall n :: n in live ==> n.id < |bits| && bits[n.id]
    ensures freeNum == 0 <==> forall i :: 0 <= i < |bits| ==> bits[i]
    ensures firstFree <= |bits| && LeastClear(bits, firstFree)
    ensures freeNum != 0 ==> firstFree < |bits| && !bits[firstFree] && forall n :: n in live ==> n.id != firstFree
  {
    NoneClear(bits, firstFree, |bits|);
    hide Clear;
  }

  /** The lowest clear bit is taken; the next clear one is searched from there. */
  lemma {:induction false} IdTaken(bits: seq<bool>, firstFree: nat, freeNum: nat, live: set<Bnode>, next: nat)
    requires IdsOk(bits, firstFree, freeNum, live) && firstFree < |bits| && freeNum > 0
    requires firstFree <= next <= |bits| && forall j :: firstFree < j < next ==> bits[j]
    requires next != firstFree && (next < |bits| ==> !bits[next])
    ensures IdsOk(bits[firstFree := true], next, freeNum - 1, live)
  {
    ClearUpdate(bits, firstFree, true, |bits|);
    hide Clear;
  }

  lemma {:induction false} IdFreed(bits: seq<bool>, firstFree: nat, freeNum: nat, live: set<Bnode>, id: nat)
    requires IdsOk(bits, firstFree, freeNum, live) && 0 < id < |bits| && bits[id] && forall n :: n in live ==> n.id != id
    ensures IdsOk(bits[id := false], if firstFree > id then id else firstFree, freeNum + 1, live)
  {
    ClearUpdate(bits, id, false, |bits|);
    hide Clear;
  }

  class BnodeCache {
    var bits: seq<bool>
    var firstFree: nat
    var freeNum: nat
    var table: seq<seq<Bnode>>

    // the nodes in memory, and how many handles to each the callers hold
    ghost var live: set<Bnode>
    ghost var handles: multiset<Bnode>

    /** The hash has the live nodes, and each counts the handles to it. */
    ghost predicate Counted()
      reads this, live
    {
      && Hashed(table, live)
      && (forall n :: n in live ==> n.refCount == handles[n] > 0)
      && (forall n :: n in handles ==> n in live)
    }

    ghost predicate Valid()
      reads this, live
    {
      IdsOk(bits, firstFree, freeNum, live) && Counted()
    }

    /** vdfs4_build_free_bnode_bitmap, with start id 0, for a tree none of whose nodes is in memory. */
    constructor (bits: seq<bool>)
      requires |bits| > 0 && bits[0]
      ensures Valid() && this.bits == bits && live == {} && handles == multiset{}
    {
      this.bits := bits;
      var n := CountClear(bits);
      freeNum := n;
      n := FindNextZero(bits, 0);
      firstFree := n;
      table := seq<seq<Bnode>>(HASH_SIZE, _ => []);
      live, handles := {}, multiset{};
    }

    /** get_bnode_from_hash. */
    method Lookup(id: nat) returns (node: Bnode?)
      requires Hashed(table, live)
      ensures node == null ==> forall n :: n in live ==> n.id != id
      ensures node != null ==> node in live && node.id == id && forall n :: n in live && n.id == id ==> n == node
    {
      var bucket := table[Hash(id)];
      for k := 0 to |bucket|
        invariant forall j :: 0 <= j < k ==> bucket[j].id != id
      {
        if bucket[k].id == id {
          return bucket[k];
        }
      }
      return null;
    }

    /** hash_bnode. */
    method HashNode(node: Bnode)
      requires Hashed(table, live) && node !in live && forall n :: n in live ==> n.id != node.id
      modifies this`table, this`live
      ensures Hashed(table, live) && live == old(live) + {node}
    {
      var h := Hash(node.id);
      table := table[h := [node] + table[h]];
      live := live + {node};
    }

    /** unhash_bnode. */
    method Unhash(node: Bnode)
      requires Hashed(table, live) && node in live
      modifies this`table, this`live
      ensures Hashed(table, live) && live == old(live) - {node} && forall n :: n in live ==> n.id != node.id
    {
      var h := Hash(node.id);
      var k := 0;
      while table[h][k] != node
        invariant k < |table[h]| && node in table[h][k..]
        decreases |table[h]| - k
      {
        k := k + 1;
      }
      table := table[h := table[h][..k] + table[h][k + 1..]];
      live := live - {node};
    }

    /** A node that is not in memory yet: alloc_bnode and hash_bnode. */
    method Insert(id: nat) returns (node: Bnode)
      requires Counted() && forall n :: n in live ==> n.id != id
      modifies this`table, this`live, this`handles
      ensures Counted() && fresh(node) && node.id == id
      ensures live == old(live) + {node} && handles == old(handles) + multiset{node}
    {
      hide Hashed;
      node := new Bnode(id);
      HashNode(node);
      handles := handles + multiset{node};
    }

    /** One handle less; the last one takes the node out of the hash. */
    method Drop(node: Bnode) returns (last: bool)
      requires Counted() && node in handles
      modifies this`table, this`live, this`handles, live
      ensures Counted() && handles == old(handles) - multiset{node}
      ensures last <==> old(handles)[node] == 1
      ensures live == if last then old(live) - {node} else old(live)
      ensures last ==> forall n :: n in live ==> n.id != node.id
    {
      hide Hashed;
      assert node.refCount > 0;
      node.refCount := node.refCount - 1;
      handles := handles - multiset{node};
      last := node.refCount == 0;
      if last {
        Unhash(node);
      }
    }

    /** vdfs4_get_bnode up to the release of hash_lock: one more handle to the node of the id. */
    method Acquire(id: nat) returns (r: Got)
      requires Valid()
      modifies this`table, this`live, this`handles, live
      ensures Valid() && (r == NoEntry || r.Handle?)
      ensures r == NoEntry <==> id != 0 && (id >= |bits| || !bits[id])
      ensures r == NoEntry ==> live == old(live) && handles == old(handles)
      ensures r.Handle? ==> r.node.id == id && handles == old(handles) + multiset{r.node} && live == old(live) + {r.node}
      ensures r.Handle? && r.node !in old(live) ==> fresh(r.node)
      ensures forall n :: n in old(live) && n.id == id ==> r == NoEntry || r.node == n
    {
      hide Hashed, IdsOk;
      IdsFacts(bits, firstFree, freeNum, live);
      if id != 0 {
        if id >= |bits| {
          return NoEntry;
        }
        if !bits[id] {
          return NoEntry;
        }
      }
      var found := Lookup(id);
      if found == null {
        var node := Insert(id);
        IdKnown(bits, firstFree, freeNum, old(live), node);
        return Handle(node);
      }
      found.refCount := found.refCount + 1;
      handles := handles + multiset{found};
      assert live == old(live) + {found};
      return Handle(found);
    }

    /** vdfs4_put_bnode. */
    method Put(node: Bnode)
      requires Valid() && node in handles
      modifies this`table, this`live, this`handles, live
      ensures Valid() && handles == old(handles) - multiset{node}
      ensures live == if node in handles then old(live) else old(live) - {node}
    {
      hide Hashed, IdsOk;
      IdsFewer(bits, firstFree, freeNum, live, node);
      var last := Drop(node);
    }

    /** vdfs4_get_bnode: when the data cannot be read, the handle is given back. */
    method GetBnode(id: nat, dataOk: bool) returns (r: Got)
      requires Valid()
      modifies this`table, this`live, this`handles, live
      ensures Valid()
      ensures r.Handle? <==> dataOk && (id == 0 || (id < |bits| && bits[id]))
      ensures r.Handle? ==> r.node.id == id && handles == old(handles) + multiset{r.node}
      ensures r.Handle? ==> forall n :: n in old(live) && n.id == id ==> r.node == n
      ensures !r.Handle? ==> handles == old(handles) && live == old(live)
    {
      hide Hashed, IdsOk;
      r := Acquire(id);
      if r.Handle? && !dataOk {
        Put(r.node);
        assert handles == old(handles);
        return NoData;
      }
    }

    /**
     vdfs4_alloc_new_bnode, under the write lock of the tree.  The id it takes has no node, and
     the test that it is clear never fails.
     */
    method AllocNew(created: bool) returns (r: Got)
      requires Valid()
      modifies this
      ensures Valid()
      ensures r == NoSpace <==> forall i :: 0 <= i < |old(bits)| ==> old(bits)[i]
      ensures r.Handle? ==> fresh(r.node) && LeastClear(old(bits), r.node.id) && r.node.id < |old(bits)|
                            && bits == old(bits)[r.node.id := true]
                            && handles == old(handles) + multiset{r.node} && live == old(live) + {r.node}
      ensures !r.Handle? ==> bits == old(bits) && handles == old(handles) && live == old(live)
      ensures r.Handle? <==> created && r != NoSpace
    {
      hide Hashed, IdsOk, LeastClear;
      IdsFacts(bits, firstFree, freeNum, live);
      if freeNum == 0 {
        return NoSpace;
      }
      var id := firstFree;
      assert !bits[id];
      ghost var was := bits;
      bits := bits[id := true];
      if !created {
        bits := bits[id := false];
        assert bits == was;
        return NoData;
      }
      var next := FindNextZero(bits, id);
      assert bits[id];
      forall j | id < j < next ensures was[j] { assert bits[j]; }
      IdTaken(was, id, freeNum, live, next);
      firstFree, freeNum := next, freeNum - 1;
      var node := Insert(id);
      IdKnown(bits, next, freeNum, old(live), node);
      return Handle(node);
    }

    /** vdfs4_destroy_bnode, under the write lock of the tree, with the only handle to the node. */
    method Destroy(node: Bnode) returns (r: Destroyed)
      requires Valid() && node in handles
      modifies this, live
      ensures Valid()
      ensures r == Invalid <==> node.id == INVALID_ID
      ensures r == Invalid ==> bits == old(bits) && handles == old(handles) && live == old(live)
      ensures r == Fault <==> node.id != INVALID_ID && old(handles)[node] > 1
      ensures r == Fault ==> bits == old(bits) && handles == old(handles) - multiset{node} && live == old(live)
      ensures r == Done ==> bits == old(bits)[node.id := false]
                            && handles == old(handles) - multiset{node} && live == old(live) - {node}
    {
      hide Hashed, IdsOk;
      if node.id == INVALID_ID {
        return Invalid;
      }
      IdsFacts(bits, firstFree, freeNum, live);
      IdsFewer(bits, firstFree, freeNum, live, node);
      var last := Drop(node);
      if !last {
        return Fault;
      }
      assert bits[node.id];
      IdFreed(bits, firstFree, freeNum, live, node.id);
      bits := bits[node.id := false];
      if firstFree > node.id {
        firstFree := node.id;
      }
      freeNum := freeNum + 1;
      return Done;
    }
  }
}
