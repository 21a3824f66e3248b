/**
 The nodes as they are kept: a map from node id to the node's records and its two
 sibling ids.  A level is stored when every page of it is found under its id, with
 the ids of its left and right neighbours (0 at the ends of the chain).
 */
module Store {
  import opened Layout
  import opened Levels
  import opened LevelOps

  datatype Node = Node(recs: seq<Rec>, prev: nat, next: nat)

  type Nodes = map<nat, Node>

  ghost function PrevId(lv: Level, i: nat): nat
    requires i < |lv|
  {
    if i == 0 then NO_NODE else lv[i - 1].id
  }

  ghost function NextId(lv: Level, i: nat): nat
    requires i < |lv|
  {
    if i + 1 == |lv| then NO_NODE else lv[i + 1].id
  }

  ghost predicate PageStored(nodes: Nodes, lv: Level, i: nat)
    requires i < |lv|
  {
    && lv[i].id in nodes
    && nodes[lv[i].id] == Node(lv[i].recs, PrevId(lv, i), NextId(lv, i))
  }

  ghost predicate Stored(nodes: Nodes, lv: Level) {
    forall i :: 0 <= i < |lv| ==> PageStored(nodes, lv, i)
  }

  /** The two stores agree on the nodes of a level. */
  ghost predicate Agree(a: Nodes, b: Nodes, ids: set<nat>) {
    forall id :: id in ids && id in a ==> id in b && b[id] == a[id]
  }

  lemma {:induction false} StoredFrame(a: Nodes, b: Nodes, lv: Level)
    requires Stored(a, lv) && Agree(a, b, Ids(lv))
    ensures Stored(b, lv)
  {
    forall i | 0 <= i < |lv| ensures PageStored(b, lv, i) {
      assert PageStored(a, lv, i);
      assert lv[i].id in Ids(lv);
    }
  }

  ghost predicate DistinctIds(lv: Level) {
    forall i, j :: 0 <= i < j < |lv| ==> lv[i].id != lv[j].id
  }

  lemma {:induction false} ChainDistinct(n: nat, lv: Level)
    requires ChainOk(n, lv)
    ensures DistinctIds(lv)
  {
    forall i, j | 0 <= i < j < |lv| ensures lv[i].id != lv[j].id {
      assert Before(lv[i], lv[j]);
    }
  }

  // ---------- rewriting the records of one node ----------

  lemma {:induction false} StoreRewrite(nodes: Nodes, lv: Level, i: nat, recs: seq<Rec>)
    requires Stored(nodes, lv) && DistinctIds(lv) && i < |lv|
    ensures lv[i].id in nodes
    ensures Stored(nodes[lv[i].id := nodes[lv[i].id].(recs := recs)],
                   Splice(lv, i, i + 1, [Page(lv[i].id, recs)]))
  {
    assert PageStored(nodes, lv, i);
    var b := nodes[lv[i].id := nodes[lv[i].id].(recs := recs)];
    var w := Splice(lv, i, i + 1, [Page(lv[i].id, recs)]);
    assert w == lv[i := Page(lv[i].id, recs)];
    forall k | 0 <= k < |w| ensures PageStored(b, w, k) {
      assert PageStored(nodes, lv, k);
    }
  }

  // ---------- splitting a node ----------

  function Relink(nodes: Nodes, id: nat, prev: nat): Nodes {
    if id in nodes then nodes[id := nodes[id].(prev := prev)] else nodes
  }

  function Reforward(nodes: Nodes, id: nat, next: nat): Nodes {
    if id in nodes then nodes[id := nodes[id].(next := next)] else nodes
  }

  /** split_bnode's writes: both halves, and the right neighbour's back link. */
  function SplitStore(nodes: Nodes, id: nat, left: seq<Rec>, right: seq<Rec>, newId: nat): Nodes
    requires id in nodes
  {
    var o := nodes[id];
    var m := nodes[id := Node(left, o.prev, newId)][newId := Node(right, id, o.next)];
    if o.next == NO_NODE then m else Relink(m, o.next, newId)
  }

  /** What is known of page x of a stored level, seen from page i. */
  lemma {:induction false} StoredPage(nodes: Nodes, lv: Level, i: nat, x: nat)
    requires Stored(nodes, lv) && DistinctIds(lv) && NO_NODE !in Ids(lv) && i < |lv|
    ensures x < |lv| ==> PageStored(nodes, lv, x) && lv[x].id in Ids(lv) && lv[x].id != NO_NODE
    ensures x < |lv| && x != i ==> lv[x].id != lv[i].id
    ensures x < |lv| && i + 1 < |lv| && x != i + 1 ==> lv[x].id != lv[i + 1].id
    ensures x < |lv| && i + 2 < |lv| && x != i + 2 ==> lv[x].id != lv[i + 2].id
    ensures x < |lv| && 0 < i && x != i - 1 ==> lv[x].id != lv[i - 1].id
  {
  }

  ghost function SplitPage(lv: Level, i: nat, left: seq<Rec>, right: seq<Rec>, newId: nat, k: nat): Page
    requires i < |lv| && k <= |lv|
  {
    if k < i then lv[k] else if k == i then Page(lv[i].id, left) else if k == i + 1 then Page(newId, right) else lv[k - 1]
  }

  lemma {:induction false} SplitView(lv: Level, i: nat, left: seq<Rec>, right: seq<Rec>, newId: nat, k: nat)
    requires i < |lv|
    ensures |WithSplit(lv, i, left, right, newId)| == |lv| + 1
    ensures k <= |lv| ==> WithSplit(lv, i, left, right, newId)[k] == SplitPage(lv, i, left, right, newId, k)
  {
  }

  lemma {:induction false} SplitAt(nodes: Nodes, lv: Level, i: nat, left: seq<Rec>, right: seq<Rec>, newId: nat, k: nat)
    requires Stored(nodes, lv) && DistinctIds(lv) && i < |lv| && k <= |lv| && lv[i].id in nodes
    requires newId !in Ids(lv) && NO_NODE !in Ids(lv)
    ensures k < |WithSplit(lv, i, left, right, newId)|
    ensures PageStored(SplitStore(nodes, lv[i].id, left, right, newId), WithSplit(lv, i, left, right, newId), k)
  {
    hide Ids, Stored, DistinctIds, WithSplit;
    SplitView(lv, i, left, right, newId, k);
    SplitView(lv, i, left, right, newId, k + 1);
    if k > 0 { SplitView(lv, i, left, right, newId, k - 1); }
    StoredPage(nodes, lv, i, i);
    StoredPage(nodes, lv, i, i + 1);
    StoredPage(nodes, lv, i, if k <= i then k else k - 1);
  }

  lemma {:induction false} StoreSplit(nodes: Nodes, lv: Level, i: nat, left: seq<Rec>, right: seq<Rec>, newId: nat)
    requires Stored(nodes, lv) && DistinctIds(lv) && i < |lv|
    requires newId !in Ids(lv) && NO_NODE !in Ids(lv)
    ensures lv[i].id in nodes
    ensures Stored(SplitStore(nodes, lv[i].id, left, right, newId), WithSplit(lv, i, left, right, newId))
  {
    assert PageStored(nodes, lv, i);
    var b, w := SplitStore(nodes, lv[i].id, left, right, newId), WithSplit(lv, i, left, right, newId);
    assert |w| == |lv| + 1;
    hide PageStored, WithSplit, SplitStore;
    forall k | 0 <= k < |w| ensures PageStored(b, w, k) {
      SplitAt(nodes, lv, i, left, right, newId, k);
    }
  }

  // ---------- unlinking a node ----------

  /** The emptied node leaves the chain: its neighbours are joined, and it is destroyed. */
  function UnlinkStore(nodes: Nodes, id: nat): Nodes
    requires id in nodes
  {
    var o := nodes[id];
    var m := if o.prev == NO_NODE then nodes else Reforward(nodes, o.prev, o.next);
    var m' := if o.next == NO_NODE then m else Relink(m, o.next, o.prev);
    m' - {id}
  }

  lemma {:induction false} DropView(lv: Level, i: nat, k: nat)
    requires i < |lv|
    ensures |WithDrop(lv, i)| == |lv| - 1
    ensures k + 1 < |lv| ==> WithDrop(lv, i)[k] == if k < i then lv[k] else lv[k + 1]
  {
  }

  lemma {:induction false} UnlinkAt(nodes: Nodes, lv: Level, i: nat, k: nat)
    requires Stored(nodes, lv) && DistinctIds(lv) && i < |lv| && NO_NODE !in Ids(lv) && lv[i].id in nodes && k + 1 < |lv|
    ensures k < |WithDrop(lv, i)| && PageStored(UnlinkStore(nodes, lv[i].id), WithDrop(lv, i), k)
  {
    hide Ids, Stored, DistinctIds, WithDrop;
    DropView(lv, i, k);
    DropView(lv, i, k + 1);
    if k > 0 { DropView(lv, i, k - 1); }
    StoredPage(nodes, lv, i, i);
    StoredPage(nodes, lv, i, i + 1);
    if i > 0 { StoredPage(nodes, lv, i, i - 1); }
    StoredPage(nodes, lv, i, if k < i then k else k + 1);
  }

  lemma {:induction false} StoreUnlink(nodes: Nodes, lv: Level, i: nat)
    requires Stored(nodes, lv) && DistinctIds(lv) && i < |lv| && NO_NODE !in Ids(lv)
    ensures lv[i].id in nodes
    ensures Stored(UnlinkStore(nodes, lv[i].id), WithDrop(lv, i))
  {
    assert PageStored(nodes, lv, i);
    var b, w := UnlinkStore(nodes, lv[i].id), WithDrop(lv, i);
    assert |w| == |lv| - 1;
    hide PageStored, WithDrop, UnlinkStore;
    forall k | 0 <= k < |w| ensures PageStored(b, w, k) {
      UnlinkAt(nodes, lv, i, k);
    }
  }

  // ---------- merging two nodes ----------

  /** btree_merge's writes to the left node and to the right node's right neighbour. */
  function MergeStore(nodes: Nodes, left: nat, right: nat): Nodes
    requires left in nodes && right in nodes
  {
    var l, r := nodes[left], nodes[right];
    var m := nodes[left := Node(l.recs + r.recs, l.prev, r.next)];
    if r.next == NO_NODE then m else Relink(m, r.next, left)
  }

  ghost function MergedPage(lv: Level, i: nat, k: nat): Page
    requires i + 1 < |lv| && k + 1 < |lv|
  {
    if k < i then lv[k] else if k == i then Page(lv[i].id, lv[i].recs + lv[i + 1].recs) else lv[k + 1]
  }

  lemma {:induction false} MergeView(lv: Level, i: nat, k: nat)
    requires i + 1 < |lv|
    ensures |WithMerge(lv, i)| == |lv| - 1
    ensures k + 1 < |lv| ==> WithMerge(lv, i)[k] == MergedPage(lv, i, k)
  {
  }

  lemma {:induction false} MergeAt(nodes: Nodes, lv: Level, i: nat, k: nat)
    requires Stored(nodes, lv) && DistinctIds(lv) && i + 1 < |lv| && NO_NODE !in Ids(lv) && k + 1 < |lv|
    requires lv[i].id in nodes && lv[i + 1].id in nodes
    ensures k < |WithMerge(lv, i)| && PageStored(MergeStore(nodes, lv[i].id, lv[i + 1].id), WithMerge(lv, i), k)
  {
    hide Ids, Stored, DistinctIds, WithMerge;
    MergeView(lv, i, k);
    MergeView(lv, i, k + 1);
    if k > 0 { MergeView(lv, i, k - 1); }
    StoredPage(nodes, lv, i, i);
    StoredPage(nodes, lv, i, i + 1);
    StoredPage(nodes, lv, i, i + 2);
    StoredPage(nodes, lv, i, if k <= i then k else k + 1);
  }

  lemma {:induction false} StoreMerge(nodes: Nodes, lv: Level, i: nat)
    requires Stored(nodes, lv) && DistinctIds(lv) && i + 1 < |lv| && NO_NODE !in Ids(lv)
    ensures lv[i].id in nodes && lv[i + 1].id in nodes
    ensures Stored(MergeStore(nodes, lv[i].id, lv[i + 1].id), WithMerge(lv, i))
  {
    assert PageStored(nodes, lv, i) && PageStored(nodes, lv, i + 1);
    var b, w := MergeStore(nodes, lv[i].id, lv[i + 1].id), WithMerge(lv, i);
    assert |w| == |lv| - 1;
    hide PageStored, WithMerge, MergeStore;
    forall k | 0 <= k < |w| ensures PageStored(b, w, k) {
      MergeAt(nodes, lv, i, k);
    }
  }
}
