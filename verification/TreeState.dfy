/**
 A whole tree as a list of levels, leaves first, and how it sits in the node store.

 limbo holds the ids of nodes that are out of every chain but not destroyed yet, as
 the right node of a merge is while the parent level is being updated.
 */
module TreeState {
  import opened Layout
  import opened Levels
  import opened LevelOps
  import opened Store

  type LevelList = seq<Level>

  ghost function AllIds(levels: LevelList): set<nat> {
    set l, id | 0 <= l < |levels| && id in Ids(levels[l]) :: id
  }

  ghost predicate LevelsOk(n: nat, nodes: Nodes, levels: LevelList) {
    forall l :: 0 <= l < |levels| ==> LevelOk(n, levels[l]) && Stored(nodes, levels[l])
  }

  ghost predicate DisjointLevels(levels: LevelList) {
    forall l, m :: 0 <= l < m < |levels| ==> Ids(levels[l]) !! Ids(levels[m])
  }

  /**
   Every level is an ordered chain of good pages, stored with consistent links; no node is
   in two places; the store holds nothing else; the root is the first node of the top level.
   */
  ghost predicate Shape(n: nat, nodes: Nodes, root: nat, levels: LevelList, limbo: set<nat>) {
    && NodeSizeOk(n)
    && levels != []
    && LevelsOk(n, nodes, levels)
    && DisjointLevels(levels)
    && nodes.Keys == AllIds(levels) + limbo
    && AllIds(levels) !! limbo
    && NO_NODE !in nodes
    && root == levels[|levels| - 1][0].id
  }

  /** From level b upwards every level indexes exactly the pages of the level below: no node is dangling. */
  ghost predicate Indexed(levels: LevelList, b: nat) {
    forall l :: b <= l && l + 1 < |levels| ==> Recs(levels[l + 1]) == Heads(levels[l])
  }

  /** The weaker state with dangling nodes: a level indexes some of the pages below it. */
  ghost predicate PartlyIndexed(levels: LevelList, b: nat) {
    forall l :: b <= l && l + 1 < |levels| ==> Recs(levels[l + 1]) <= Heads(levels[l])
  }

  /** Of the leftmost nodes none is dangling. */
  ghost predicate LeftmostIndexed(levels: LevelList) {
    forall l :: 0 <= l && l + 1 < |levels| ==> levels[l] != [] && Head(levels[l][0]) in Recs(levels[l + 1])
  }

  lemma {:induction false} AllIdsOfLevel(levels: LevelList, l: nat)
    requires l < |levels|
    ensures Ids(levels[l]) <= AllIds(levels)
  {
  }

  lemma {:induction false} AllIdsUpdate(levels: LevelList, l: nat, lv: Level)
    requires l < |levels| && DisjointLevels(levels)
    ensures AllIds(levels[l := lv]) == AllIds(levels) - Ids(levels[l]) + Ids(lv)
  {
    var w := levels[l := lv];
    forall id | id in AllIds(w) ensures id in AllIds(levels) - Ids(levels[l]) + Ids(lv) {
      var m :| 0 <= m < |w| && id in Ids(w[m]);
      if m != l {
        assert id in Ids(levels[m]);
        assert Ids(levels[m]) !! Ids(levels[l]);
      }
    }
    forall id | id in AllIds(levels) - Ids(levels[l]) + Ids(lv) ensures id in AllIds(w) {
      if id in Ids(lv) {
        assert id in Ids(w[l]);
      } else {
        var m :| 0 <= m < |levels| && id in Ids(levels[m]);
        assert id in Ids(w[m]);
      }
    }
  }

  lemma {:induction false} DisjointUpdate(levels: LevelList, l: nat, lv: Level)
    requires l < |levels| && DisjointLevels(levels)
    requires Ids(lv) !! AllIds(levels) - Ids(levels[l])
    ensures DisjointLevels(levels[l := lv])
  {
    var w := levels[l := lv];
    forall a, b | 0 <= a < b < |w| ensures Ids(w[a]) !! Ids(w[b]) {
      AllIdsOfLevel(levels, a);
      AllIdsOfLevel(levels, b);
      if a == l {
        assert Ids(levels[l]) !! Ids(levels[b]);
      } else if b == l {
        assert Ids(levels[a]) !! Ids(levels[l]);
      }
    }
  }

  lemma {:induction false} LevelsUpdate(n: nat, nodes: Nodes, levels: LevelList, l: nat, lv: Level, nodes': Nodes)
    requires l < |levels| && LevelsOk(n, nodes, levels) && DisjointLevels(levels)
    requires LevelOk(n, lv) && Stored(nodes', lv)
    requires Agree(nodes, nodes', AllIds(levels) - Ids(levels[l]))
    ensures LevelsOk(n, nodes', levels[l := lv])
  {
    var w := levels[l := lv];
    forall m | 0 <= m < |w| ensures LevelOk(n, w[m]) && Stored(nodes', w[m]) {
      if m != l {
        assert LevelOk(n, levels[m]) && Stored(nodes, levels[m]);
        AllIdsOfLevel(levels, m);
        assert Ids(levels[m]) !! Ids(levels[l]);
        StoredFrame(nodes, nodes', levels[m]);
      }
    }
  }

  /** Replacing one level, as long as the other levels' nodes are left alone. */
  lemma {:induction false} SetLevel(n: nat, nodes: Nodes, root: nat, levels: LevelList, limbo: set<nat>,
                                    l: nat, lv: Level, nodes': Nodes, limbo': set<nat>)
    requires Shape(n, nodes, root, levels, limbo) && l < |levels|
    requires LevelOk(n, lv) && Stored(nodes', lv)
    requires Agree(nodes, nodes', AllIds(levels) - Ids(levels[l]))
    requires Ids(lv) !! nodes.Keys - Ids(levels[l]) && Ids(lv) !! limbo'
    requires limbo' !! AllIds(levels) - Ids(levels[l])
    requires nodes'.Keys == AllIds(levels) - Ids(levels[l]) + Ids(lv) + limbo'
    requires NO_NODE !in nodes'
    requires l + 1 == |levels| ==> lv[0].id == root
    ensures Shape(n, nodes', root, levels[l := lv], limbo')
  {
    AllIdsUpdate(levels, l, lv);
    DisjointUpdate(levels, l, lv);
    LevelsUpdate(n, nodes, levels, l, lv, nodes');
  }

  // ---------- the writes of the tree operations keep the shape ----------

  lemma {:induction false} LevelFacts(n: nat, nodes: Nodes, root: nat, levels: LevelList, limbo: set<nat>, l: nat)
    requires Shape(n, nodes, root, levels, limbo) && l < |levels|
    ensures LevelOk(n, levels[l]) && Stored(nodes, levels[l])
    ensures DistinctIds(levels[l]) && NO_NODE !in Ids(levels[l])
    ensures Ids(levels[l]) <= AllIds(levels) <= nodes.Keys && Ids(levels[l]) !! limbo
  {
    ChainDistinct(n, levels[l]);
    AllIdsOfLevel(levels, l);
  }

  lemma {:induction false} PageFacts(n: nat, nodes: Nodes, root: nat, levels: LevelList, limbo: set<nat>, l: nat, i: nat)
    requires Shape(n, nodes, root, levels, limbo) && l < |levels| && i < |levels[l]|
    ensures NodeSizeOk(n) && PageOk(n, levels[l][i])
    ensures PageStored(nodes, levels[l], i)
    ensures levels[l][i].id in nodes && nodes[levels[l][i].id].recs == levels[l][i].recs
    ensures levels[l][i].id in Ids(levels[l])
  {
    assert LevelOk(n, levels[l]) && Stored(nodes, levels[l]);
  }

  lemma {:induction false} TopFacts(n: nat, nodes: Nodes, root: nat, levels: LevelList, limbo: set<nat>)
    requires Shape(n, nodes, root, levels, limbo)
    ensures NodeSizeOk(n) && NO_NODE !in nodes
    ensures levels != [] && levels[|levels| - 1] != [] && root == levels[|levels| - 1][0].id
    ensures LevelsOk(n, nodes, levels)
  {
    assert LevelOk(n, levels[|levels| - 1]);
  }

  /** The root has a right neighbour exactly when the top level has more than one node. */
  lemma {:induction false} TopChain(n: nat, nodes: Nodes, root: nat, levels: LevelList, limbo: set<nat>)
    requires Shape(n, nodes, root, levels, limbo)
    ensures NodeSizeOk(n) && levels != []
    ensures LevelOk(n, levels[|levels| - 1]) && Stored(nodes, levels[|levels| - 1])
    ensures root == levels[|levels| - 1][0].id && root in nodes
    ensures nodes[root].next == NO_NODE <==> |levels[|levels| - 1]| == 1
  {
    var t := |levels| - 1;
    TopFacts(n, nodes, root, levels, limbo);
    LevelFacts(n, nodes, root, levels, limbo, t);
    PageFacts(n, nodes, root, levels, limbo, t, 0);
    if |levels[t]| > 1 { PageFacts(n, nodes, root, levels, limbo, t, 1); }
    hide Shape, LevelsOk, Stored, LevelOk;
    assert nodes[root].next == NextId(levels[t], 0);
  }

  lemma {:induction false} LessOne(all: set<nat>, ids: set<nat>, limbo: set<nat>, x: nat)
    requires ids <= all && all !! limbo && x in ids
    ensures ids - {x} !! (all + limbo) - ids && ids - {x} !! limbo && limbo !! all - ids
    ensures all + limbo - {x} == all - ids + (ids - {x}) + limbo
    ensures ids - {x} !! limbo + {x} && limbo + {x} !! all - ids
    ensures all + limbo == all - ids + (ids - {x}) + (limbo + {x})
  {
  }

  /** What SetLevel asks of the ids, said without the rest of the shape. */
  lemma {:induction false} ShapeIds(n: nat, nodes: Nodes, root: nat, levels: LevelList, limbo: set<nat>, l: nat)
    requires Shape(n, nodes, root, levels, limbo) && l < |levels|
    ensures levels[l] != [] && nodes.Keys == AllIds(levels) + limbo && AllIds(levels) !! limbo && NO_NODE !in nodes
    ensures l + 1 == |levels| ==> levels[l][0].id == root
  {
    hide AllIds, DisjointLevels;
    LevelFacts(n, nodes, root, levels, limbo, l);
  }

  /** Rewriting the records of one node, with the level as it then is. */
  lemma {:induction false} ShapeRewrite(n: nat, nodes: Nodes, root: nat, levels: LevelList, limbo: set<nat>,
                                        l: nat, i: nat, recs: seq<Rec>)
    requires Shape(n, nodes, root, levels, limbo) && l < |levels| && i < |levels[l]|
    requires levels[l][i].id in nodes
    requires LevelOk(n, Splice(levels[l], i, i + 1, [Page(levels[l][i].id, recs)]))
    requires Ids(Splice(levels[l], i, i + 1, [Page(levels[l][i].id, recs)])) == Ids(levels[l])
    ensures Shape(n, nodes[levels[l][i].id := nodes[levels[l][i].id].(recs := recs)], root,
                  levels[l := Splice(levels[l], i, i + 1, [Page(levels[l][i].id, recs)])], limbo)
  {
    hide Shape, LevelOk, Stored, AllIds, Ids, DistinctIds;
    LevelFacts(n, nodes, root, levels, limbo, l);
    ShapeIds(n, nodes, root, levels, limbo, l);
    PageFacts(n, nodes, root, levels, limbo, l, i);
    StoreRewrite(nodes, levels[l], i, recs);
    var w := Splice(levels[l], i, i + 1, [Page(levels[l][i].id, recs)]);
    assert w[0].id == levels[l][0].id;
    SetLevel(n, nodes, root, levels, limbo, l, w,
             nodes[levels[l][i].id := nodes[levels[l][i].id].(recs := recs)], limbo);
  }

  lemma {:induction false} SplitStoreFrame(nodes: Nodes, lv: Level, i: nat, left: seq<Rec>, right: seq<Rec>, newId: nat)
    requires Stored(nodes, lv) && i < |lv| && newId !in nodes && lv[i].id in nodes
    ensures SplitStore(nodes, lv[i].id, left, right, newId).Keys == nodes.Keys + {newId}
    ensures Agree(nodes, SplitStore(nodes, lv[i].id, left, right, newId), nodes.Keys - Ids(lv))
  {
    assert PageStored(nodes, lv, i);
    assert lv[i].id in Ids(lv);
    if i + 1 < |lv| {
      assert PageStored(nodes, lv, i + 1);
      assert lv[i + 1].id in Ids(lv);
    }
  }

  lemma {:induction false} AgreeLess(a: Nodes, b: Nodes, s: set<nat>, t: set<nat>)
    requires Agree(a, b, s) && t <= s
    ensures Agree(a, b, t)
  {
  }

  lemma {:induction false} MoreOne(all: set<nat>, ids: set<nat>, limbo: set<nat>, x: nat)
    requires ids <= all && all !! limbo && x !in all + limbo
    ensures ids + {x} !! (all + limbo) - ids && ids + {x} !! limbo && limbo !! all - ids
    ensures all + limbo + {x} == all - ids + (ids + {x}) + limbo
  {
  }

  lemma {:induction false} ShapeSplit(n: nat, nodes: Nodes, root: nat, levels: LevelList, limbo: set<nat>,
                                      l: nat, i: nat, left: seq<Rec>, right: seq<Rec>, newId: nat)
    requires Shape(n, nodes, root, levels, limbo) && l < |levels| && i < |levels[l]|
    requires levels[l][i].id in nodes && newId !in nodes && newId != NO_NODE
    requires LevelOk(n, WithSplit(levels[l], i, left, right, newId))
    requires Ids(WithSplit(levels[l], i, left, right, newId)) == Ids(levels[l]) + {newId}
    ensures Shape(n, SplitStore(nodes, levels[l][i].id, left, right, newId), root,
                  levels[l := WithSplit(levels[l], i, left, right, newId)], limbo)
  {
    hide Shape, LevelOk, Stored, AllIds, Ids, DistinctIds, WithSplit, SplitStore, Agree;
    SplitView(levels[l], i, left, right, newId, 0);
    LevelFacts(n, nodes, root, levels, limbo, l);
    ShapeIds(n, nodes, root, levels, limbo, l);
    StoreSplit(nodes, levels[l], i, left, right, newId);
    SplitStoreFrame(nodes, levels[l], i, left, right, newId);
    var m := SplitStore(nodes, levels[l][i].id, left, right, newId);
    AgreeLess(nodes, m, nodes.Keys - Ids(levels[l]), AllIds(levels) - Ids(levels[l]));
    var w := WithSplit(levels[l], i, left, right, newId);
    MoreOne(AllIds(levels), Ids(levels[l]), limbo, newId);
    SetLevel(n, nodes, root, levels, limbo, l, w, m, limbo);
  }

  lemma {:induction false} UnlinkStoreFrame(nodes: Nodes, lv: Level, i: nat)
    requires Stored(nodes, lv) && i < |lv| && lv[i].id in nodes && NO_NODE !in nodes
    ensures UnlinkStore(nodes, lv[i].id).Keys == nodes.Keys - {lv[i].id}
    ensures Agree(nodes, UnlinkStore(nodes, lv[i].id), nodes.Keys - Ids(lv))
  {
    assert PageStored(nodes, lv, i);
    assert lv[i].id in Ids(lv);
    if i + 1 < |lv| {
      assert PageStored(nodes, lv, i + 1);
      assert lv[i + 1].id in Ids(lv);
    }
    if i > 0 {
      assert PageStored(nodes, lv, i - 1);
      assert lv[i - 1].id in Ids(lv);
    }
  }

  lemma {:induction false} ShapeUnlink(n: nat, nodes: Nodes, root: nat, levels: LevelList, limbo: set<nat>, l: nat, i: nat)
    requires Shape(n, nodes, root, levels, limbo) && l + 1 < |levels| && i < |levels[l]|
    requires levels[l][i].id in nodes
    requires LevelOk(n, WithDrop(levels[l], i))
    requires Ids(WithDrop(levels[l], i)) == Ids(levels[l]) - {levels[l][i].id}
    ensures Shape(n, UnlinkStore(nodes, levels[l][i].id), root, levels[l := WithDrop(levels[l], i)], limbo)
  {
    hide Shape, LevelOk, Stored, AllIds, Ids, DistinctIds, WithDrop, UnlinkStore, Agree;
    PageFacts(n, nodes, root, levels, limbo, l, i);
    LevelFacts(n, nodes, root, levels, limbo, l);
    ShapeIds(n, nodes, root, levels, limbo, l);
    StoreUnlink(nodes, levels[l], i);
    UnlinkStoreFrame(nodes, levels[l], i);
    var m := UnlinkStore(nodes, levels[l][i].id);
    AgreeLess(nodes, m, nodes.Keys - Ids(levels[l]), AllIds(levels) - Ids(levels[l]));
    LessOne(AllIds(levels), Ids(levels[l]), limbo, levels[l][i].id);
    SetLevel(n, nodes, root, levels, limbo, l, WithDrop(levels[l], i), m, limbo);
  }

  lemma {:induction false} MergeStoreFrame(nodes: Nodes, lv: Level, i: nat)
    requires Stored(nodes, lv) && i + 1 < |lv| && lv[i].id in nodes && lv[i + 1].id in nodes && NO_NODE !in nodes
    ensures MergeStore(nodes, lv[i].id, lv[i + 1].id).Keys == nodes.Keys
    ensures Agree(nodes, MergeStore(nodes, lv[i].id, lv[i + 1].id), nodes.Keys - Ids(lv))
  {
    assert PageStored(nodes, lv, i) && PageStored(nodes, lv, i + 1);
    assert lv[i].id in Ids(lv);
    if i + 2 < |lv| {
      assert PageStored(nodes, lv, i + 2);
      assert lv[i + 2].id in Ids(lv);
    }
  }

  lemma {:induction false} ShapeMerge(n: nat, nodes: Nodes, root: nat, levels: LevelList, limbo: set<nat>, l: nat, i: nat)
    requires Shape(n, nodes, root, levels, limbo) && l < |levels| && i + 1 < |levels[l]|
    requires levels[l][i].id in nodes && levels[l][i + 1].id in nodes
    requires LevelOk(n, WithMerge(levels[l], i))
    requires Ids(WithMerge(levels[l], i)) == Ids(levels[l]) - {levels[l][i + 1].id}
    ensures Shape(n, MergeStore(nodes, levels[l][i].id, levels[l][i + 1].id), root,
                  levels[l := WithMerge(levels[l], i)], limbo + {levels[l][i + 1].id})
  {
    hide Shape, LevelOk, Stored, AllIds, Ids, DistinctIds, WithMerge, MergeStore, Agree;
    MergeView(levels[l], i, 0);
    PageFacts(n, nodes, root, levels, limbo, l, i + 1);
    LevelFacts(n, nodes, root, levels, limbo, l);
    ShapeIds(n, nodes, root, levels, limbo, l);
    StoreMerge(nodes, levels[l], i);
    MergeStoreFrame(nodes, levels[l], i);
    var m := MergeStore(nodes, levels[l][i].id, levels[l][i + 1].id);
    AgreeLess(nodes, m, nodes.Keys - Ids(levels[l]), AllIds(levels) - Ids(levels[l]));
    LessOne(AllIds(levels), Ids(levels[l]), limbo, levels[l][i + 1].id);
    var w := WithMerge(levels[l], i);
    SetLevel(n, nodes, root, levels, limbo, l, w, m, limbo + {levels[l][i + 1].id});
  }

  /** vdfs4_destroy_bnode of a node that is in no chain. */
  lemma {:induction false} ShapeDestroy(n: nat, nodes: Nodes, root: nat, levels: LevelList, limbo: set<nat>, id: nat)
    requires Shape(n, nodes, root, levels, limbo) && id in limbo
    ensures Shape(n, nodes - {id}, root, levels, limbo - {id})
  {
    forall l | 0 <= l < |levels| ensures LevelOk(n, levels[l]) && Stored(nodes - {id}, levels[l]) {
      LevelFacts(n, nodes, root, levels, limbo, l);
      StoredFrame(nodes, nodes - {id}, levels[l]);
    }
  }

  lemma {:induction false} AllIdsConcat(a: LevelList, b: LevelList)
    ensures AllIds(a + b) == AllIds(a) + AllIds(b)
  {
    forall id | id in AllIds(a) + AllIds(b) ensures id in AllIds(a + b) {
      if id in AllIds(a) {
        var l :| 0 <= l < |a| && id in Ids(a[l]);
        assert id in Ids((a + b)[l]);
      } else {
        var l :| 0 <= l < |b| && id in Ids(b[l]);
        assert id in Ids((a + b)[|a| + l]);
      }
    }
  }

  lemma {:induction false} AllIdsOne(lv: Level)
    ensures AllIds([lv]) == Ids(lv)
  {
    forall id | id in Ids(lv) ensures id in AllIds([lv]) {
      assert id in Ids([lv][0]);
    }
  }

  /** build_new_root: one more level, of one node. */
  lemma {:induction false} ShapeGrow(n: nat, nodes: Nodes, root: nat, levels: LevelList, limbo: set<nat>,
                                     newId: nat, recs: seq<Rec>)
    requires Shape(n, nodes, root, levels, limbo)
    requires newId !in nodes && PageOk(n, Page(newId, recs))
    ensures Shape(n, nodes[newId := Node(recs, NO_NODE, NO_NODE)], newId, levels + [[Page(newId, recs)]], limbo)
  {
    var lv := [Page(newId, recs)];
    var w := levels + [lv];
    var m := nodes[newId := Node(recs, NO_NODE, NO_NODE)];
    AllIdsConcat(levels, [lv]);
    AllIdsOne(lv);
    IdsOne(lv[0]);
    forall l | 0 <= l < |w| ensures LevelOk(n, w[l]) && Stored(m, w[l]) {
      if l < |levels| {
        LevelFacts(n, nodes, root, levels, limbo, l);
        StoredFrame(nodes, m, levels[l]);
      }
    }
    forall a, b | 0 <= a < b < |w| ensures Ids(w[a]) !! Ids(w[b]) {
      AllIdsOfLevel(levels, a);
    }
  }

  /** Root collapse: the top level, of one node, goes away. */
  lemma {:induction false} ShapeCollapse(n: nat, nodes: Nodes, root: nat, levels: LevelList, limbo: set<nat>)
    requires Shape(n, nodes, root, levels, limbo) && |levels| > 1 && |levels[|levels| - 1]| == 1
    ensures Shape(n, nodes - {root}, levels[|levels| - 2][0].id, levels[..|levels| - 1], limbo)
  {
    var t := |levels| - 1;
    var w := levels[..t];
    assert levels == w + [levels[t]];
    AllIdsConcat(w, [levels[t]]);
    AllIdsOne(levels[t]);
    assert levels[t] == [levels[t][0]];
    IdsOne(levels[t][0]);
    forall l | 0 <= l < |w| ensures LevelOk(n, w[l]) && Stored(nodes - {root}, w[l]) {
      LevelFacts(n, nodes, root, levels, limbo, l);
      assert Ids(levels[l]) !! Ids(levels[t]);
      StoredFrame(nodes, nodes - {root}, levels[l]);
    }
    forall id | id in AllIds(w) ensures id != root {
      var l :| 0 <= l < |w| && id in Ids(w[l]);
      assert Ids(levels[l]) !! Ids(levels[t]);
    }
    assert root in Ids(levels[t]);
    LevelFacts(n, nodes, root, levels, limbo, t);
  }
}
