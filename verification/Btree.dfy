/**
 The tree itself: the store of nodes, the root id and the height, changed in place by
 search, insertion and removal.  Levels are counted from the leaves, at 0; the source's
 level is one more.
 */
module BtreeModule {
  import opened Layout
  import opened Levels
  import opened LevelOps
  import opened Store
  import opened TreeState
  import opened IndexFacts
  import opened Bnode
  import opened SearchTree
  import opened GrowthOps
  import opened InsertState
  import opened RemoveState
  import opened RemoveStory

  /** A place on the traverse stack, or none. */
  datatype Link = Null | Entry(k: nat)

  /** An entry of the to-do list: index the node pointTo at the level of the given stack entry. */
  datatype Work = Work(at: Link, pointTo: nat, rootThen: nat)

  /** Result of an insertion: done, -EEXIST, or -ENOENT for a key below the whole tree. */
  datatype Outcome = Placed | Exists | Below

  /** A record that a search has found, and where; or -ENOENT. */
  datatype Lookup = NoRecord | At(id: nat, pos: nat, rec: Rec)

  class Btree {
    const n: nat
    var nodes: Nodes
    var root: nat
    var height: nat

    // the chains of the levels, leaves first, and the nodes that are in none of them
    ghost var levels: LevelList
    ghost var limbo: set<nat>

    ghost predicate Consistent()
      reads this
    {
      height == |levels| && Shape(n, nodes, root, levels, limbo)
    }

    /** vdfs4_alloc_new_bnode: the least id that is not in use. */
    method AllocNewBnode() returns (id: nat)
      ensures id != NO_NODE && id !in nodes
      ensures forall k :: 0 < k < id ==> k in nodes
    {
      id := 1;
      ghost var rest := nodes.Keys;
      while id in nodes
        invariant id >= 1 && forall k :: 0 < k < id ==> k in nodes
        invariant forall k :: k in nodes && k >= id ==> k in rest
        decreases rest
      {
        rest := rest - {id};
        id := id + 1;
      }
    }

    /** place_key_in_bnode: refuse a key that is there, insert where there is room, split otherwise. */
    method PlaceKeyInBnode(level: nat, at: nat, id: nat, pos: nat, r: Rec, counted: nat, ghost l: nat, ghost i: nat)
      returns (res: Outcome, todo: seq<Work>, ghost g: Growth)
      requires Consistent() && l < |levels| && i < |levels[l]| && levels[l][i].id == id && level == l + 1
      requires Nonempty(levels[l]) && Covers(levels[l], i, r.key) && FloorAt(levels[l][i].recs, pos, r.key)
      requires RecOk(r) && counted <= MAX_REC_LEN
      modifies this
      ensures Consistent() && root == old(root) && limbo == old(limbo)
      ensures res == (if old(levels)[l][i].recs[pos].key == r.key then Exists else Placed)
      ensures res == Exists ==> levels == old(levels) && nodes == old(nodes) && todo == []
      ensures res == Placed ==> g.i == i && g.pos == pos && GrowthOk(n, old(levels)[l], g, r)
      ensures res == Placed ==> levels == old(levels)[l := Grown(old(levels)[l], g, r)]
      ensures res == Placed && g.InPage? ==> todo == []
      ensures res == Placed && g.Split? ==> CutAt(n, old(levels)[l], g, counted)
      ensures res == Placed && g.Split? ==>
                todo == [Work(if l + 1 == |levels| then Null else Entry(at + 1), g.newId, root)]
    {
      hide Shape, GrowthOk, Grown, CutFrom, CountedLens;
      assert id in nodes && nodes[id].recs == levels[l][i].recs && PageOk(n, levels[l][i]) && NodeSizeOk(n) by {
        PageFacts(n, nodes, root, levels, limbo, l, i);
      }
      var recs := nodes[id].recs;
      todo, g := [], InPage(i, pos);
      if recs[pos].key == r.key {
        res := Exists;
        return;
      }
      res := Placed;
      if IsNodeFull(n, recs, r.rlen) {
        var newId := AllocNewBnode();
        var left, right := SplitBnode(n, recs, r, counted, pos + 1);
        g := Split(i, pos, left, right, newId);
        PlaceBySplit(n, nodes, root, levels, limbo, l, g, r);
        nodes := SplitStore(nodes, id, left, right, newId);
        todo := [Work(if level == height then Null else Entry(at + 1), newId, root)];
      } else {
        PlaceInPage(n, nodes, root, levels, limbo, l, g, r);
        nodes := nodes[id := nodes[id].(recs := InsertAt(recs, pos + 1, r))];
      }
      levels := levels[l := Grown(levels[l], g, r)];
    }

    /**
     build_new_root: a node with an index record for every node of the top chain, as far as they
     fit.  A chain of one node needs no root; after a split of the root the chain has two.
     */
    method BuildNewRoot(rootThen: nat) returns (ghost recs: seq<Rec>)
      requires Consistent() && (|levels[height - 1]| == 2 || ShortHeads(levels[height - 1]))
      modifies this
      ensures Consistent() && limbo == old(limbo)
      ensures rootThen != old(root) || |old(levels)[old(height) - 1]| == 1 ==>
                levels == old(levels) && nodes == old(nodes) && root == old(root)
      ensures rootThen == old(root) && |old(levels)[old(height) - 1]| > 1 ==>
                && root != NO_NODE && levels == old(levels) + [[Page(root, recs)]]
                && RootOver(n, old(levels)[old(height) - 1], |recs|, recs)
                && (|old(levels)[old(height) - 1]| == 2 ==> |recs| == 2)
    {
      hide Shape, LevelsOk, Stored, LevelOk, PageOk, Roomy, RootOver, ShortHeads;
      recs := [];
      if rootThen != root {
        return;
      }
      TopChain(n, nodes, root, levels, limbo);
      var newId := AllocNewBnode();
      if nodes[root].next == NO_NODE {
        return;
      }
      var heads := CollectRoot(n, nodes, root, levels[height - 1]);
      recs := heads;
      RootPage(n, levels[height - 1], newId, |recs|, recs);
      ShapeGrow(n, nodes, root, levels, limbo, newId, recs);
      nodes := nodes[newId := Node(heads, NO_NODE, NO_NODE)];
      height := height + 1;
      root := newId;
      levels := levels + [[Page(newId, recs)]];
    }

    /** The to-do entry that asks for the split p of an insertion c to be indexed. */
    ghost predicate Asks(w: Work, c: Job, p: Part)
      reads this
    {
      && c.b <= p.d
      && w.at == (if p.d + 1 == |c.lv0| then Null else Entry(p.d + 1 - c.b))
      && p.g.Split? && w.pointTo == p.g.newId
      && w.rootThen == root
    }

    /** place_index_record: index a node that a split has put into the chain. */
    method PlaceIndexRecord(w: Work, stack: seq<Visited>, ghost c: Job, ghost p: Part, ghost path: seq<nat>)
      returns (todo: seq<Work>, ghost p': Part)
      requires Consistent() && Rooted(n, c.lv0, c.b) && Pending(n, c, levels, p) && Asks(w, c, p)
      requires |path| == |c.lv0| - c.b && PathFrom(c.lv0, c.b, path, stack, c.r.key)
      modifies this
      ensures Consistent() && limbo == old(limbo)
      ensures todo == [] ==> Settled(n, c, levels)
      ensures todo != [] ==> |todo| == 1 && Pending(n, c, levels, p') && p'.d == p.d + 1 && Asks(todo[0], c, p')
      ensures todo != [] ==> p'.d < |c.lv0| && p.g.Split? && p.g.right != [] && CutAt(n, c.lv0[p'.d], p'.g, p.g.right[0].rlen)
    {
      hide Shape, Rooted, Pending, Settled, PathFrom, GrowthOk, Grown, LevelsOk, Roomy, CutAt;
      todo, p' := [], p;
      PendingPage(n, c, levels, p);
      if w.at.Null? {
        assert height == |c.lv0|;
        TwoAtTop(n, c, levels, p);
        ghost var before := levels;
        TopFacts(n, nodes, root, levels, limbo);
        ghost var recs := BuildNewRoot(w.rootThen);
        StepNewRoot(n, c, before, p, root, recs);
        return;
      }
      PageFacts(n, nodes, root, levels, limbo, p.d, p.g.i + 1);
      var first := nodes[w.pointTo].recs[0];
      var r := Rec(first.key, first.klen, first.klen + INDEX_VALUE, w.pointTo);
      assert r == Due(p);
      var at := w.at.k;
      ghost var l := p.d + 1;
      StackEntry(c.lv0, c.b, path, stack, c.r.key, at);
      PendingCover(n, c, levels, p, path[at]);
      LevelFacts(n, nodes, root, levels, limbo, l);
      var ok, id, pos, moved, i := TraverseLevel(nodes, first.key, stack[at].id, n, levels[l], path[at]);
      assert levels[l][i].recs[pos] in Recs(levels[l]) by { FloorIsGlobal(n, levels[l], i, pos, first.key); }
      ghost var before := levels;
      var res, more, g' := PlaceKeyInBnode(stack[at].level, at, id, pos, r, first.rlen, l, i);
      todo, p' := more, Part(l, g', r);
      if g'.InPage? {
        StepInPage(n, c, before, p, g');
      } else {
        StepBySplit(n, c, before, p, g');
      }
    }

    /**
     place_data_at_level: descend to level b, place the record, then work off the to-do list
     of splits that are not indexed yet.  In a tree without dangling nodes the descent itself
     adds nothing to the list.
     */
    method PlaceDataAtLevel(r: Rec, b: nat, ghost key: int) returns (res: Outcome, ghost g: Growth)
      requires Consistent() && Rooted(n, levels, b) && RecOk(r)
      requires forall i: nat :: Covers(levels[b], i, r.key) ==> Covers(levels[b], i, key)
      modifies this
      ensures Consistent() && limbo == old(limbo)
      ensures res != Placed ==> levels == old(levels) && nodes == old(nodes) && root == old(root)
      ensures res == Below <==> r.key < First(old(levels)[b][0])
      ensures res == Exists <==> exists q :: q in Recs(old(levels)[b]) && q.key == r.key
      ensures res == Placed ==> Settled(n, Job(old(levels), b, g, r, key), levels)
      ensures res == Placed && g.Split? ==> CutAt(n, old(levels)[b], g, r.rlen)
    {
      hide Shape, Pending, Settled, GrowthOk, Grown, LevelsOk, Roomy, Recs, PathFrom, CutAt, Descended;
      TopFacts(n, nodes, root, levels, limbo);
      TopFirst(n, levels, b);
      IndexedIsPartly(levels, b);
      var ok, id, pos, stack, dangling, path, starts := Traverse(nodes, root, height, r.key, b, n, levels);
      if !ok {
        BelowAll(n, levels[b], r.key);
        g := InPage(0, 0);
        return Below, g;
      }
      assert dangling == [];
      StackEntry(levels, b, path, stack, r.key, 0);
      FloorIsGlobal(n, levels[b], path[0], pos, r.key);
      var todo: seq<Work>;
      ghost var lv0 := levels;
      res, todo, g := PlaceKeyInBnode(stack[0].level, 0, id, pos, r, r.rlen, b, path[0]);
      if res == Exists {
        return;
      }
      ghost var c := Job(lv0, b, g, r, key);
      ghost var p := Part(b, g, r);
      if g.InPage? {
        PlacedInPage(n, c);
      } else {
        PlacedBySplit(n, c);
      }
      while todo != []
        invariant Consistent() && limbo == old(limbo)
        invariant todo == [] ==> Settled(n, c, levels)
        invariant todo != [] ==> |todo| == 1 && Pending(n, c, levels, p) && Asks(todo[0], c, p)
        decreases if todo == [] then 0 else 1 + |lv0| - p.d
      {
        var work := todo[0];
        todo := todo[1..];
        PendingPage(n, c, levels, p);
        var more, p' := PlaceIndexRecord(work, stack, c, p, path);
        todo, p := more + todo, p';
      }
    }

    /** form_new_adding_record: the index record of a node, from its first record. */
    method FormIndexRecord(id: nat) returns (r: Rec)
      requires id in nodes && nodes[id].recs != []
      ensures r == Head(Page(id, nodes[id].recs))
    {
      var first := nodes[id].recs[0];
      r := Rec(first.key, first.klen, first.klen + INDEX_VALUE, id);
    }

    /** Delete a record from a node that keeps at least one other. */
    method DeleteFromNode(id: nat, pos: nat, ghost l: nat, ghost i: nat)
      requires Consistent() && l < |levels| && i < |levels[l]| && levels[l][i].id == id
      requires pos < |levels[l][i].recs| && |levels[l][i].recs| > 1
      modifies this`nodes, this`levels
      ensures Consistent() && levels == old(levels)[l := WithDelete(old(levels)[l], i, pos)]
    {
      hide Shape;
      PageFacts(n, nodes, root, levels, limbo, l, i);
      ShapeDelete(n, nodes, root, levels, limbo, l, i, pos);
      nodes := nodes[id := nodes[id].(recs := DeleteAt(nodes[id].recs, pos))];
      levels := levels[l := WithDelete(levels[l], i, pos)];
    }

    /** btree_find: the node of level b that covers key, and the floor of key in it. */
    method FindAtLevel(key: int, b: nat) returns (ok: bool, id: nat, pos: nat, ghost i: nat)
      requires Consistent() && Rooted(n, levels, b)
      ensures ok <==> First(levels[b][0]) <= key
      ensures ok ==> i < |levels[b]| && Covers(levels[b], i, key)
      ensures ok ==> levels[b][i].id == id && FloorAt(levels[b][i].recs, pos, key)
    {
      hide Shape, LevelsOk, PathFrom, Descended;
      TopFacts(n, nodes, root, levels, limbo);
      TopFirst(n, levels, b);
      IndexedIsPartly(levels, b);
      var ok', id', pos', stack, dangling, path, starts := Traverse(nodes, root, height, key, b, n, levels);
      ok, id, pos, i := ok', id', pos', 0;
      if ok {
        StackEntry(levels, b, path, stack, key, 0);
        i := path[0];
      }
    }

    /**
     btree_update_key: level b indexes the node child under the old key; insert the key that
     the node starts with now, then delete the old one.  If the old key was the first of its
     node, the level above is updated in the same way.
     */
    method UpdateKey(key: int, child: nat, b: nat, ghost ci: nat, ghost st: Rec)
      requires Consistent() && Stale(n, levels, b, ci, st) && st.key == key && levels[b - 1][ci].id == child
      modifies this
      ensures Consistent() && limbo == old(limbo)
      ensures b < |levels| && Rooted(n, levels, b) && levels[..b] == old(levels)[..b]
      ensures Recs(levels[b]) == Recs(old(levels)[b]) - {st} + {Head(old(levels)[b - 1][ci])}
      decreases if RoomFrom(n, levels, b, key) then 0 else 1, |levels| - b
    {
      hide Shape, Stale, Settled, Rooted, RoomFrom, Recs, Heads, WithDelete, LevelsOk, Covers, LevelOk, RecOk;
      StaleCover(n, levels, b, ci, st);
      PageFacts(n, nodes, root, levels, limbo, b - 1, ci);
      var r := FormIndexRecord(child);
      ghost var lv0 := levels;
      var res, g := PlaceDataAtLevel(r, b, key);
      ghost var c := Job(lv0, b, g, r, key);
      SettledFacts(n, c, levels);
      BothKeys(n, c, levels, ci, st);
      var ok, id, pos, i := FindAtLevel(key, b);
      ghost var lv1 := levels;
      ExactFloor(n, lv1[b], i, pos, st);
      DeletedRecs(n, lv1[b], i, pos);
      DeleteFromNode(id, pos, b, i);
      ghost var lv2 := levels;
      assert lv2[..b] == lv1[..b];
      if pos == 0 { StaleAbove(n, lv1, b, i); }
      if pos == 0 && b + 1 < height {
        RoomAbove(n, c, lv1, levels[b]);
        UpdateKey(key, id, b + 1, i, Head(lv1[b][i]));
        SameBelow(lv2, levels, b);
        FreshAbove(n, lv1, levels, b, i);
      } else {
        DeleteInner(n, lv1, b, i, pos);
      }
    }

    /**
     btree_merge of two neighbours of level b, neither of them dangling: move the records of
     the right node to the left one, remove the right node's index record, destroy the node.
     */
    method Merge(left: nat, right: nat, b: nat, ghost i: nat) returns (ghost rest: Story)
      requires Consistent() && Rooted(n, levels, b) && b + 1 < |levels| && i + 1 < |levels[b]|
      requires levels[b][i].id == left && levels[b][i + 1].id == right
      requires FreeSpace(n, levels[b][i].recs) + FreeSpace(n, levels[b][i + 1].recs) >= n
      requires !Heading(levels[b + 1], Head(levels[b][i + 1]).key)
      modifies this
      ensures Consistent() && limbo == old(limbo)
      ensures b < |levels| && Rooted(n, levels, b) && levels[..b] == old(levels)[..b]
      ensures levels[b] == WithMerge(old(levels)[b], i) && Recs(levels[b]) == Recs(old(levels)[b])
      ensures Tells(n, old(levels)[b := WithMerge(old(levels)[b], i)], levels, b + 1, Head(old(levels)[b][i + 1]).key, rest)
      decreases 0, |levels| - b, 1
    {
      hide Tells;
      hide Shape, Rooted, Recs, Heads, WithMerge, Heading, LevelsOk, FreeSpace, Surplus, LevelOk, Stored, Ids, DistinctIds,
           PageStored, MergeStore, SortedRecs, RecsOk, Bytes, AllIds;
      MergeFits(n, levels[b][i].recs, levels[b][i + 1].recs);
      MergeStep(n, levels, b, i);
      PageFacts(n, nodes, root, levels, limbo, b, i);
      PageFacts(n, nodes, root, levels, limbo, b, i + 1);
      LevelFacts(n, nodes, root, levels, limbo, b);
      assert right !in limbo;
      ShapeMerge(n, nodes, root, levels, limbo, b, i);
      ghost var st := Head(levels[b][i + 1]);
      var key := nodes[right].recs[0].key;
      nodes := MergeStore(nodes, left, right);
      limbo := limbo + {right};
      levels := levels[b := WithMerge(levels[b], i)];
      ghost var lv1 := levels;
      assert lv1[..b] == old(levels)[..b];
      var found;
      found, rest := RemoveAt(key, b + 1, st);
      assert levels[b] == levels[..b + 1][b] == lv1[b];
      SameBelow(lv1, levels, b);
      ShapeDestroy(n, nodes, root, levels, limbo, right);
      nodes := nodes - {right};
      limbo := limbo - {right};
    }

    /** rebalance: merge the node with its left or right neighbour under the same parent, if both fit into one. */
    method Rebalance(key: int, b: nat, id: nat, ghost i: nat) returns (ghost e: Ending)
      requires Consistent() && Rooted(n, levels, b) && b + 1 < |levels|
      requires Nonempty(levels[b]) && Covers(levels[b], i, key) && levels[b][i].id == id
      modifies this
      ensures Consistent() && limbo == old(limbo)
      ensures b < |levels| && Rooted(n, levels, b) && levels[..b] == old(levels)[..b]
      ensures Recs(levels[b]) == Recs(old(levels)[b])
      ensures levels[b] == Rebalanced(n, old(levels)[b + 1], old(levels)[b], i)
      ensures FreeSpace(n, old(levels)[b][i].recs) > n / 3 ==> Ends(n, old(levels), levels, b, i, e)
      decreases 0, |levels| - b, 2
    {
      hide Shape, Rooted, Recs, Heads, Heading, LevelsOk, FreeSpace, WithMerge, Tells, Ends, Joins, HasPartner, Rebalanced;
      NeighbourLevels(n, levels, b);
      ghost var lv0, upper, lower := levels, levels[b + 1], levels[b];
      e := Kept;
      CoverFirst(n, levels, b, i, key);
      var ok, pid, pos, pi := FindAtLevel(key, b + 1);
      FloorIsHead(n, upper, lower, i, key, pi, pos);
      PageFacts(n, nodes, root, levels, limbo, b + 1, pi);
      PageFacts(n, nodes, root, levels, limbo, b, i);
      if pos > 0 {
        // merge with the previous node; the parent's record for this one is not dangling
        HasLeft(n, upper, lower, i, pi, pos);
        NotHeading(n, upper, pi, pos);
        LeftPartner(n, upper, lower, i);
        assert nodes[pid].recs[pos].val == id;
        PageFacts(n, nodes, root, levels, limbo, b, i - 1);
        var neigh := nodes[id].prev;
        if FreeSpace(n, nodes[id].recs) + FreeSpace(n, nodes[neigh].recs) >= n {
          var rest := Merge(neigh, id, b, i - 1);
          e := Merged(i - 1, rest);
          if FreeSpace(n, lower[i].recs) > n / 3 { EndsMerged(n, lv0, levels, b, i, i - 1, rest); }
        } else {
          EndsKept(n, lv0, b, i);
        }
      } else if pos < |nodes[pid].recs| - 1 {
        // merge with the next node; the parent's next record is that node's
        HeadsPage(n, upper, pi);
        HasRight(n, upper, lower, i, pi, pos);
        NotHeading(n, upper, pi, pos + 1);
        RightPartner(n, upper, lower, i);
        assert nodes[pid].recs[pos + 1].val == nodes[id].next;
        PageFacts(n, nodes, root, levels, limbo, b, i + 1);
        var neigh := nodes[id].next;
        if FreeSpace(n, nodes[id].recs) + FreeSpace(n, nodes[neigh].recs) >= n {
          var rest := Merge(id, neigh, b, i);
          e := Merged(i, rest);
          if FreeSpace(n, lower[i].recs) > n / 3 { EndsMerged(n, lv0, levels, b, i, i, rest); }
        } else {
          EndsKept(n, lv0, b, i);
        }
      } else {
        HeadsPage(n, upper, pi);
        if i + 1 < |lower| { NextParent(n, upper, lower, i, pi, pos); }
        NoPartner(n, upper, lower, i);
        EndsKept(n, lv0, b, i);
      }
    }

    /** The end of __btree_remove: merge a node that is rather empty, or drop a root with a single record. */
    method Shrink(key: int, b: nat, id: nat, ghost i: nat) returns (ghost e: Ending)
      requires Consistent() && Rooted(n, levels, b)
      requires Nonempty(levels[b]) && Covers(levels[b], i, key) && levels[b][i].id == id
      requires b > 0 ==> Recs(levels[b]) == Heads(levels[b - 1])
      modifies this
      ensures Consistent() && limbo == old(limbo)
      ensures b <= |levels| && levels[..b] == old(levels)[..b]
      ensures b > 0 ==> Rooted(n, levels, b - 1)
      ensures b == 0 ==> |levels| > 0 && Rooted(n, levels, 0) && Recs(levels[0]) == Recs(old(levels)[0])
      ensures FreeSpace(n, old(levels)[b][i].recs) <= n / 3 ==> levels == old(levels)
      ensures FreeSpace(n, old(levels)[b][i].recs) > n / 3 && b + 1 < |old(levels)| ==>
                b < |levels| && levels[b] == Rebalanced(n, old(levels)[b + 1], old(levels)[b], i)
      ensures FreeSpace(n, old(levels)[b][i].recs) > n / 3 && b + 1 == |old(levels)| ==>
                levels == if |old(levels)[b][i].recs| == 1 && b > 0 then old(levels)[..b] else old(levels)
      ensures Ends(n, old(levels), levels, b, i, e)
      decreases 0, |levels| - b, 3
    {
      hide Shape, Rooted, Recs, Heads, LevelsOk, Covers, Rebalanced, FreeSpace, Tells, HasPartner, Joins;
      RootedFacts(n, levels, b);
      CoverBounds(levels[b], i, key);
      PageFacts(n, nodes, root, levels, limbo, b, i);
      ghost var lv0 := levels;
      if b > 0 { RootedBelow(n, levels, b - 1); }
      RootIsTop(n, nodes, root, levels, limbo, b, i);
      e := Kept;
      if FreeSpace(n, nodes[id].recs) > n / 3 {
        if id != root {
          e := Rebalance(key, b, id, i);
          if b > 0 { BelowStill(n, lv0, levels, b); }
        } else if |nodes[id].recs| == 1 && height > 1 {
          CollapseStep(n, levels, b);
          ShapeCollapse(n, nodes, root, levels, limbo);
          var child := nodes[id].recs[0].val;
          root := child;
          height := height - 1;
          nodes := nodes - {id};
          levels := levels[..b];
          e := Collapsed;
        }
      }
    }

    /** An emptied node leaves the chain and is destroyed. */
    method UnlinkBnode(id: nat, ghost l: nat, ghost i: nat)
      requires Consistent() && l + 1 < |levels| && i < |levels[l]| && levels[l][i].id == id
      requires LevelOk(n, WithDrop(levels[l], i))
      requires Ids(WithDrop(levels[l], i)) == Ids(levels[l]) - {levels[l][i].id}
      modifies this`nodes, this`levels
      ensures Consistent() && levels == old(levels)[l := WithDrop(old(levels)[l], i)]
    {
      hide Shape, WithDrop;
      PageFacts(n, nodes, root, levels, limbo, l, i);
      ShapeUnlink(n, nodes, root, levels, limbo, l, i);
      nodes := UnlinkStore(nodes, id);
      levels := levels[l := WithDrop(levels[l], i)];
    }

    /** Delete a record, and bring the index above up to date if it was the first of its node. */
    method DeleteAndReindex(key: int, b: nat, id: nat, pos: nat, ghost i: nat) returns (key': int)
      requires Consistent() && Rooted(n, levels, b) && First(levels[b][0]) < key
      requires i < |levels[b]| && levels[b][i].id == id && Covers(levels[b], i, key)
      requires pos < |levels[b][i].recs| && |levels[b][i].recs| > 1 && levels[b][i].recs[pos].key == key
      modifies this
      ensures Consistent() && limbo == old(limbo)
      ensures b < |levels| && Rooted(n, levels, b) && levels[..b] == old(levels)[..b]
      ensures Recs(levels[b]) == Recs(old(levels)[b]) - {old(levels)[b][i].recs[pos]}
      ensures Nonempty(levels[b]) && Covers(levels[b], i, key') && i < |levels[b]| && levels[b][i].id == id
      ensures pos > 0 ==> |levels| == |old(levels)|
      ensures Reindexed(n, old(levels), levels, b, i, pos)
    {
      hide Shape, Rooted, Recs, Heads, LevelsOk, Covers, WithDelete, Stale, Nonempty;
      ghost var lv0 := levels;
      RootedFacts(n, levels, b);
      DeletedRecs(n, levels[b], i, pos);
      CoverAfterDelete(n, levels[b], i, pos, key);
      DeleteFromNode(id, pos, b, i);
      key' := key;
      ghost var lv1 := levels;
      assert lv1[..b] == lv0[..b];
      if pos == 0 { StaleAbove(n, lv0, b, i); }
      if pos == 0 && b + 1 < height {
        PageFacts(n, nodes, root, levels, limbo, b, i);
        key' := nodes[id].recs[0].key;
        UpdateKey(key, id, b + 1, i, Head(lv0[b][i]));
        SameBelow(lv1, levels, b);
        FreshAbove(n, lv0, levels, b, i);
      } else {
        DeleteInner(n, lv0, b, i, pos);
      }
    }

    /**
     __btree_remove at level b.  Above the leaves st is the record to go, the one by which
     level b does not index the level below.
     */
    method RemoveAt(key: int, b: nat, ghost st: Rec) returns (found: bool, ghost story: Story)
      requires Consistent() && Rooted(n, levels, b) && First(levels[b][0]) != key
      requires b > 0 ==> Surplus(levels, b, st) && st.key == key && First(levels[b][0]) < key
      modifies this
      ensures Consistent() && limbo == old(limbo)
      ensures b <= |levels| && levels[..b] == old(levels)[..b]
      ensures b > 0 ==> Rooted(n, levels, b - 1)
      ensures b == 0 ==> |levels| > 0 && Rooted(n, levels, 0)
      ensures b == 0 ==> Recs(levels[0]) == set q | q in Recs(old(levels)[0]) && q.key != key
      ensures b == 0 ==> (found <==> exists q :: q in Recs(old(levels)[0]) && q.key == key)
      ensures !found ==> levels == old(levels) && nodes == old(nodes) && root == old(root)
      ensures b > 0 ==> found
      ensures found ==> Tells(n, old(levels), levels, b, key, story)
      decreases if Heading(levels[b], key) then 1 else 0, |levels| - b, 4
    {
      hide Shape, Rooted, Recs, Heads, LevelsOk, Covers, WithDrop, Surplus, Heading, Nonempty, Tells, Ends, Reindexed;
      ghost var lv0 := levels;
      RootedFacts(n, levels, b);
      var ok, id, pos, i := FindAtLevel(key, b);
      if !ok {
        BelowAll(n, levels[b], key);
        return false, Dropped(0, Deleted(0, 0, [], Kept));
      }
      PageFacts(n, nodes, root, levels, limbo, b, i);
      ghost var r := levels[b][i].recs[pos];
      FoundOrAbsent(n, levels, b, i, pos, key, st);
      if nodes[id].recs[pos].key != key {
        return false, Dropped(0, Deleted(0, 0, [], Kept));
      }
      found := true;
      WithoutKey(n, levels[b], r);
      if |nodes[id].recs| == 1 {
        HeadingIff(n, levels[b], i, pos);
        DropStep(n, levels, b, i);
        UnlinkBnode(id, b, i);
        ghost var lv1 := levels;
        assert lv1[..b] == lv0[..b];
        var again, rest := RemoveAt(key, b + 1, Head(lv0[b][i]));
        story := Dropped(i, rest);
        TellsDropped(n, lv0, levels, b, key, i, rest);
        SameBelow(lv1, levels, b);
        if b > 0 { BelowNow(n, lv0, levels, b, st); }
      } else {
        HeadingIff(n, levels[b], i, pos);
        var key' := DeleteAndReindex(key, b, id, pos, i);
        if b > 0 { BelowNow(n, lv0, levels, b, st); }
        ghost var lv1 := levels;
        var e := Shrink(key', b, id, i);
        story := Deleted(i, pos, lv1, e);
        TellsDeleted(n, lv0, lv1, levels, b, key, i, pos, e);
      }
    }

    // ---------- the interface of the tree ----------

    /** No dangling nodes, one root, nothing in the store but the tree. */
    ghost predicate Valid()
      reads this
    {
      Consistent() && Rooted(n, levels, 0) && limbo == {}
    }

    /** The tree as a map from keys to records. */
    ghost function Contents(): map<int, Rec>
      requires Valid()
      reads this
    {
      LeafKeysUnique(n, levels);
      ByKey(Recs(levels[0]))
    }

    /** The key of the minimal record that the tree was created with. */
    ghost function MinKey(): int
      requires Valid()
      reads this
    {
      First(levels[0][0])
    }

    /** btree_init and the first record: one leaf with the minimal record, as node 1. */
    constructor (nodeSize: nat, sentinel: Rec)
      requires NodeSizeOk(nodeSize) && RecOk(sentinel)
      ensures Valid() && n == nodeSize && height == 1 && root == 1
      ensures MinKey() == sentinel.key && Contents() == map[sentinel.key := sentinel]
    {
      n := nodeSize;
      nodes := map[1 := Node([sentinel], NO_NODE, NO_NODE)];
      root, height := 1, 1;
      levels, limbo := [[Page(1, [sentinel])]], {};
      new;
      SingleLeaf(n, sentinel);
    }

    /** vdfs4_btree_insert. */
    method Insert(r: Rec) returns (res: Outcome)
      requires Valid() && RecOk(r)
      modifies this
      ensures Valid() && MinKey() == old(MinKey())
      ensures res == Below <==> r.key < old(MinKey())
      ensures res == Exists <==> r.key in old(Contents())
      ensures Contents() == if res == Placed then old(Contents())[r.key := r] else old(Contents())
      ensures res != Placed ==> nodes == old(nodes) && root == old(root) && height == old(height)
    {
      hide Shape, Settled, Rooted, Recs;
      RootedFacts(n, levels, 0);
      LeafKeysUnique(n, levels);
      ByKeyMember(Recs(levels[0]), r.key);
      ghost var g;
      ghost var lv0 := levels;
      res, g := PlaceDataAtLevel(r, 0, r.key);
      if res == Placed {
        InsertedContents(n, Job(lv0, 0, g, r, r.key), levels);
      }
    }

    /** vdfs4_btree_remove of any key but the minimal one. */
    method Remove(key: int) returns (found: bool, ghost story: Story)
      requires Valid() && key != MinKey()
      modifies this
      ensures Valid() && MinKey() == old(MinKey())
      ensures found <==> key in old(Contents())
      ensures Contents() == old(Contents()) - {key}
      ensures !found ==> nodes == old(nodes) && root == old(root) && height == old(height)
      ensures found ==> Tells(n, old(levels), levels, 0, key, story)
    {
      hide Shape, Rooted, Recs;
      RootedFacts(n, levels, 0);
      LeafKeysUnique(n, levels);
      ByKeyMember(Recs(levels[0]), key);
      ghost var lv0 := levels;
      found, story := RemoveAt(key, 0, Rec(0, 0, 0, 0));
      RemovedContents(n, lv0, levels, key);
    }

    /** A search that tells a record with exactly the key. */
    method Locate(key: int) returns (found: bool, id: nat, pos: nat, ghost i: nat)
      requires Valid()
      ensures found <==> key in Contents()
      ensures found ==> && i < |levels[0]| && levels[0][i].id == id && pos < |levels[0][i].recs|
                        && levels[0][i].recs[pos].key == key && id in nodes && nodes[id].recs == levels[0][i].recs
    {
      hide Shape, Rooted, Recs;
      RootedFacts(n, levels, 0);
      LeafKeysUnique(n, levels);
      ByKeyMember(Recs(levels[0]), key);
      hide ByKey, LevelOk;
      var ok;
      ok, id, pos, i := FindAtLevel(key, 0);
      if !ok {
        BelowAll(n, levels[0], key);
        return false, id, pos, i;
      }
      FloorIsGlobal(n, levels[0], i, pos, key);
      PageFacts(n, nodes, root, levels, limbo, 0, i);
      found := nodes[id].recs[pos].key == key;
    }

    /** A write into the value of the record with a key, as the callers of vdfs4_btree_find do it. */
    method SetValue(key: int, val: nat) returns (found: bool)
      requires Valid()
      modifies this`nodes, this`levels
      ensures Valid() && MinKey() == old(MinKey())
      ensures found <==> key in old(Contents())
      ensures Contents() == if found then old(Contents())[key := old(Contents())[key].(val := val)] else old(Contents())
      ensures !found ==> nodes == old(nodes)
    {
      hide Shape, Rooted, Recs, WithValue, Revalued, ByKey;
      RootedFacts(n, levels, 0);
      var id, pos;
      ghost var i;
      found, id, pos, i := Locate(key);
      if found {
        ShapeValue(n, nodes, root, levels, limbo, 0, i, pos, val);
        ValueContents(n, levels, i, pos, val);
        nodes := nodes[id := nodes[id].(recs := Revalued(nodes[id].recs, pos, val))];
        levels := levels[0 := WithValue(levels[0], i, pos, val)];
      }
    }

    /** A lookup that names a record of the leaf page i. */
    ghost predicate Points(res: Lookup, i: nat)
      reads this
    {
      && res.At? && levels != [] && i < |levels[0]|
      && res.id == levels[0][i].id
      && res.pos < |levels[0][i].recs|
      && res.rec == levels[0][i].recs[res.pos]
    }

    /**
     vdfs4_btree_find, on any well-ordered tree, with dangling nodes or without: the record
     with the greatest key that is not above the searched one.  As long as the leftmost nodes are
     indexed there is none only for a key below all others.
     */
    method Find(key: int) returns (res: Lookup, ghost i: nat)
      requires Consistent() && PartlyIndexed(levels, 0)
      ensures res.NoRecord? <==> key < First(levels[height - 1][0])
      ensures LeftmostIndexed(levels) ==> (res.NoRecord? <==> key < First(levels[0][0]))
      ensures res.At? ==> Points(res, i) && res.rec in Recs(levels[0]) && res.rec.key <= key
      ensures res.At? ==> forall q :: q in Recs(levels[0]) && q.key <= key ==> q.key <= res.rec.key
    {
      hide Shape, LevelsOk, PathFrom, Recs, Descended;
      TopFacts(n, nodes, root, levels, limbo);
      if LeftmostIndexed(levels) { LeftmostTop(n, nodes, levels, 0); }
      hide LeftmostIndexed;
      var ok, id, pos, stack, dangling, path, starts := Traverse(nodes, root, height, key, 0, n, levels);
      i := 0;
      if !ok {
        return NoRecord, i;
      }
      StackEntry(levels, 0, path, stack, key, 0);
      i := path[0];
      LevelFacts(n, nodes, root, levels, limbo, 0);
      PageFacts(n, nodes, root, levels, limbo, 0, i);
      FloorIsGlobal(n, levels[0], i, pos, key);
      return At(id, pos, nodes[id].recs[pos]), i;
    }

    /** __vdfs4_get_next_btree_record: the record with the least greater key. */
    method Next(cur: Lookup, ghost i: nat) returns (res: Lookup, ghost j: nat)
      requires Consistent() && Points(cur, i)
      ensures res.NoRecord? ==> forall q :: q in Recs(levels[0]) ==> q.key <= cur.rec.key
      ensures res.At? ==> Points(res, j) && res.rec in Recs(levels[0]) && cur.rec.key < res.rec.key
      ensures res.At? ==> forall q :: q in Recs(levels[0]) && cur.rec.key < q.key ==> res.rec.key <= q.key
    {
      hide Shape, LevelsOk, Recs;
      LevelFacts(n, nodes, root, levels, limbo, 0);
      PageFacts(n, nodes, root, levels, limbo, 0, i);
      j := i;
      if cur.pos + 1 < |nodes[cur.id].recs| {
        SuccessorInPage(n, levels[0], i, cur.pos);
        return At(cur.id, cur.pos + 1, nodes[cur.id].recs[cur.pos + 1]), j;
      }
      var next := nodes[cur.id].next;
      if next == NO_NODE {
        assert levels[0][if i + 1 < |levels[0]| then i + 1 else i].id in Ids(levels[0]);
        LastOfLevel(n, levels[0], i);
        return NoRecord, j;
      }
      PageFacts(n, nodes, root, levels, limbo, 0, i + 1);
      SuccessorInNext(n, levels[0], i);
      j := i + 1;
      return At(next, 0, nodes[next].recs[0]), j;
    }

    /** The result of a search, in terms of the map. */
    lemma FloorInContents(key: int, res: Lookup)
      requires Valid() && height > 0
      requires res.NoRecord? <==> key < First(levels[height - 1][0])
      requires res.At? ==> res.rec in Recs(levels[0]) && res.rec.key <= key
      requires res.At? ==> forall q :: q in Recs(levels[0]) && q.key <= key ==> q.key <= res.rec.key
      ensures res.NoRecord? <==> key < MinKey()
      ensures res.At? ==> res.rec.key in Contents() && Contents()[res.rec.key] == res.rec && res.rec.key <= key
      ensures res.At? ==> forall k :: k in Contents() && k <= key ==> k <= res.rec.key
    {
      TopFirst(n, levels, 0);
      LeafKeysUnique(n, levels);
    }

    /** What Next says of the leaves, said of the map. */
    lemma NextInContents(cur: Lookup, res: Lookup)
      requires Valid() && cur.At?
      requires res.NoRecord? ==> forall q :: q in Recs(levels[0]) ==> q.key <= cur.rec.key
      requires res.At? ==> res.rec in Recs(levels[0]) && cur.rec.key < res.rec.key
      requires res.At? ==> forall q :: q in Recs(levels[0]) && cur.rec.key < q.key ==> res.rec.key <= q.key
      ensures res.NoRecord? ==> forall k :: k in Contents() ==> k <= cur.rec.key
      ensures res.At? ==> res.rec.key in Contents() && Contents()[res.rec.key] == res.rec && cur.rec.key < res.rec.key
      ensures res.At? ==> forall k :: k in Contents() && cur.rec.key < k ==> res.rec.key <= k
    {
      LeafKeysUnique(n, levels);
    }

    /** Any run of insertions and removals does to the tree what it does to a map. */
    method Run(ops: seq<Op>)
      requires Valid() && forall i :: 0 <= i < |ops| ==> OpOk(ops[i], MinKey())
      modifies this
      ensures Valid() && MinKey() == old(MinKey())
      ensures Contents() == After(old(MinKey()), old(Contents()), ops, |ops|)
    {
      hide Valid, Contents, MinKey, RecOk;
      ghost var m := Contents();
      for k := 0 to |ops|
        invariant Valid() && MinKey() == old(MinKey())
        invariant Contents() == After(old(MinKey()), m, ops, k)
      {
        assert OpOk(ops[k], MinKey());
        match ops[k]
        case Put(r) => var res := Insert(r);
        case Drop(key) => var found, story := Remove(key);
      }
    }
  }

  datatype Op = Put(rec: Rec) | Drop(key: int)

  predicate OpOk(op: Op, min: int) {
    match op
    case Put(r) => RecOk(r)
    case Drop(key) => key != min
  }

  /** One operation on the map: a key that is there, or below the minimal one, is not put. */
  ghost function Applied(min: int, m: map<int, Rec>, op: Op): map<int, Rec> {
    match op
    case Put(r) => if r.key < min || r.key in m then m else m[r.key := r]
    case Drop(key) => m - {key}
  }

  ghost function After(min: int, m: map<int, Rec>, ops: seq<Op>, k: nat): map<int, Rec>
    requires k <= |ops|
  {
    if k == 0 then m else Applied(min, After(min, m, ops, k - 1), ops[k - 1])
  }
}
