/**
 The states that a removal goes through, on the level lists alone.
 */
module RemoveState {
  import opened Layout
  import opened Levels
  import opened LevelOps
  import opened Store
  import opened TreeState
  import opened IndexFacts
  import opened GrowthOps
  import opened InsertState

  // ---------- deleting one record ----------

  lemma {:induction false} ShapeDelete(n: nat, nodes: Nodes, root: nat, levels: LevelList, limbo: set<nat>,
                                       l: nat, i: nat, pos: nat)
    requires Shape(n, nodes, root, levels, limbo) && l < |levels| && i < |levels[l]|
    requires pos < |levels[l][i].recs| && |levels[l][i].recs| > 1
    ensures levels[l][i].id in nodes
    ensures var id := levels[l][i].id;
            Shape(n, nodes[id := nodes[id].(recs := DeleteAt(levels[l][i].recs, pos))], root,
                  levels[l := WithDelete(levels[l], i, pos)], limbo)
  {
    LevelFacts(n, nodes, root, levels, limbo, l);
    assert levels[l][i].id in nodes by { PageFacts(n, nodes, root, levels, limbo, l, i); }
    assert LevelOk(n, WithDelete(levels[l], i, pos)) && Ids(WithDelete(levels[l], i, pos)) == Ids(levels[l]) by {
      DeleteOp(n, levels[l], i, pos);
    }
    ShapeRewrite(n, nodes, root, levels, limbo, l, i, DeleteAt(levels[l][i].recs, pos));
  }

  /** Only the levels above b matter for being rooted from b + 1 upwards. */
  lemma {:induction false} RootedAbove(n: nat, levels: LevelList, b: nat, lv: Level)
    requires Rooted(n, levels, b) && LevelOk(n, lv) && b + 1 < |levels|
    ensures Rooted(n, levels[b := lv], b + 1)
  {
    var w := levels[b := lv];
    forall l | b + 1 <= l && l + 1 < |w| ensures Recs(w[l + 1]) == Heads(w[l]) {
      assert Recs(levels[l + 1]) == Heads(levels[l]);
    }
  }

  lemma {:induction false} RootedBelow(n: nat, levels: LevelList, b: nat)
    requires Rooted(n, levels, b + 1) && Recs(levels[b + 1]) == Heads(levels[b])
    ensures Rooted(n, levels, b)
  {
  }

  // ---------- a stale index key ----------

  /**
   Level b still indexes the page ci of the level below under an old key, held by the record
   st; the page now starts with a greater key, and no other key of level b lies between.
   */
  ghost predicate Stale(n: nat, levels: LevelList, b: nat, ci: nat, st: Rec) {
    && 0 < b && Rooted(n, levels, b)
    && ci < |levels[b - 1]|
    && st in Recs(levels[b])
    && First(levels[b][0]) < st.key < Head(levels[b - 1][ci]).key
    && forall x :: x in Recs(levels[b]) ==> x.key <= st.key || Head(levels[b - 1][ci]).key < x.key
  }

  /** The old and the new key belong to the same page. */
  lemma {:induction false} StaleCover(n: nat, levels: LevelList, b: nat, ci: nat, st: Rec)
    requires Stale(n, levels, b, ci, st)
    ensures 0 < b < |levels| && ci < |levels[b - 1]| && Rooted(n, levels, b)
    ensures st.key < Head(levels[b - 1][ci]).key
    ensures RecOk(Head(levels[b - 1][ci])) && First(levels[b][0]) <= Head(levels[b - 1][ci]).key
    ensures LevelOk(n, levels[b]) && levels[b - 1][ci].recs != []
    ensures forall i: nat :: Covers(levels[b], i, Head(levels[b - 1][ci]).key) <==> Covers(levels[b], i, st.key)
    ensures forall q :: q in Recs(levels[b]) ==> q.key != Head(levels[b - 1][ci]).key
  {
    var lv, key := levels[b], Head(levels[b - 1][ci]).key;
    assert LevelOk(n, levels[b - 1]) && LevelOk(n, lv);
    HeadKey(n, levels[b - 1], ci);
    forall m | 0 <= m < |lv| ensures First(lv[m]) <= key <==> First(lv[m]) <= st.key {
      assert PageOk(n, lv[m]) && lv[m].recs[0] in lv[m].recs;
      assert lv[m].recs[0] in Recs(lv);
    }
  }

  lemma {:induction false} SameBelow(a: LevelList, c: LevelList, b: nat)
    requires b < |a| && b < |c| && a[..b + 1] == c[..b + 1]
    ensures a[b] == c[b] && a[..b] == c[..b]
  {
    assert a[b] == a[..b + 1][b] && c[b] == c[..b + 1][b];
    assert a[..b] == a[..b + 1][..b] && c[..b] == c[..b + 1][..b];
  }

  lemma {:induction false} SettledFacts(n: nat, c: Job, levels: LevelList)
    requires Settled(n, c, levels)
    ensures c.b < |c.lv0| <= |levels| && Rooted(n, levels, c.b) && levels[..c.b] == c.lv0[..c.b]
    ensures LevelOk(n, levels[c.b]) && Nonempty(c.lv0[c.b]) && Covers(c.lv0[c.b], c.g0.i, c.r.key)
  {
  }

  /** Deleting a record that is not the first of its page changes no head. */
  lemma {:induction false} DeleteInner(n: nat, levels: LevelList, b: nat, i: nat, pos: nat)
    requires Rooted(n, levels, b) && i < |levels[b]| && 0 < pos < |levels[b][i].recs|
    ensures Rooted(n, levels[b := WithDelete(levels[b], i, pos)], b)
    ensures Recs(WithDelete(levels[b], i, pos)) == Recs(levels[b]) - {levels[b][i].recs[pos]}
  {
    assert LevelOk(n, levels[b]);
    DeleteOp(n, levels[b], i, pos);
    assert b + 1 == |levels| ==> |WithDelete(levels[b], i, pos)| == 1;
    RootedUpdate(n, levels, b, WithDelete(levels[b], i, pos));
  }

  lemma {:induction false} DeletedRecs(n: nat, lv: Level, i: nat, pos: nat)
    requires LevelOk(n, lv) && i < |lv| && pos < |lv[i].recs| && |lv[i].recs| > 1
    ensures LevelOk(n, WithDelete(lv, i, pos))
    ensures Recs(WithDelete(lv, i, pos)) == Recs(lv) - {lv[i].recs[pos]}
    ensures i < |WithDelete(lv, i, pos)| && WithDelete(lv, i, pos)[i] == Page(lv[i].id, DeleteAt(lv[i].recs, pos))
  {
    DeleteOp(n, lv, i, pos);
  }

  lemma {:induction false} GrownFirst(n: nat, lv: Level, g: Growth, r: Rec)
    requires GrowthOk(n, lv, g, r)
    ensures LevelOk(n, Grown(lv, g, r)) && First(Grown(lv, g, r)[0]) == First(lv[0])
  {
    assert LevelOk(n, Grown(lv, g, r)) by { GrowthEffect(n, lv, g, r); }
    SubFirst(n, lv, g, r);
  }

  /** After the new key is in: the old one is still found, in a page with at least two records. */
  lemma {:induction false} BothKeys(n: nat, c: Job, levels: LevelList, ci: nat, st: Rec)
    requires Stale(n, c.lv0, c.b, ci, st) && c.r == Head(c.lv0[c.b - 1][ci]) && c.key == st.key
    requires Settled(n, c, levels)
    ensures st in Recs(levels[c.b]) && Recs(levels[c.b]) == Recs(c.lv0[c.b]) + {c.r}
    ensures First(levels[c.b][0]) < st.key
    ensures forall x: nat :: Covers(levels[c.b], x, st.key) ==> |levels[c.b][x].recs| >= 2
  {
    var lv := c.lv0[c.b];
    assert Based(n, c, levels);
    assert Covers(lv, c.g0.i, c.key) && st in Recs(lv) && First(lv[0]) < st.key by {
      StaleCover(n, c.lv0, c.b, ci, st);
    }
    assert GrowthOk(n, lv, c.g0, c.r) && levels[c.b] == Grown(lv, c.g0, c.r);
    hide Settled, Stale, Rooted, Recs, Based, GrowthOk, Grown, LevelOk, Heads;
    GrownFirst(n, lv, c.g0, c.r);
    assert Recs(levels[c.b]) == Recs(lv) + {c.r} by { GrowthEffect(n, lv, c.g0, c.r); }
    forall x: nat | Covers(levels[c.b], x, st.key) ensures |levels[c.b][x].recs| >= 2 {
      RoomAfterSplit(n, lv, c.g0, c.r, st.key, x);
    }
  }

  /** The floor of a key that is there is the record with that key. */
  lemma {:induction false} ExactFloor(n: nat, lv: Level, i: nat, pos: nat, st: Rec)
    requires LevelOk(n, lv) && Covers(lv, i, st.key) && FloorAt(lv[i].recs, pos, st.key) && st in Recs(lv)
    ensures lv[i].recs[pos] == st
  {
    FloorIsGlobal(n, lv, i, pos, st.key);
    KeyUnique(n, lv, st, lv[i].recs[pos]);
  }

  /** The pages before and after page i start outside its range of keys. */
  lemma {:induction false} HeadsGap(n: nat, lv: Level, i: nat, x: Rec)
    requires LevelOk(n, lv) && i < |lv| && x in Heads(lv)
    ensures x.key <= First(lv[i]) || Last(lv[i]) < x.key
  {
    var j :| 0 <= j < |lv| && x == Head(lv[j]);
    HeadKey(n, lv, j);
    if j < i { FirstsAscend(n, lv, j, i); }
    if i < j { FirstsAscend(n, lv, i, j); }
  }

  /** Deleting the first record of a page leaves the level above with a stale key. */
  lemma {:induction false} StaleAbove(n: nat, levels: LevelList, b: nat, i: nat)
    requires Rooted(n, levels, b) && i < |levels[b]| && |levels[b][i].recs| > 1
    requires First(levels[b][0]) < First(levels[b][i])
    ensures b + 1 < |levels|
    ensures Stale(n, levels[b := WithDelete(levels[b], i, 0)], b + 1, i, Head(levels[b][i]))
  {
    var lv := levels[b];
    var w: LevelList := levels[b := WithDelete(lv, i, 0)];
    assert LevelOk(n, lv) && PageOk(n, lv[i]);
    assert LevelOk(n, WithDelete(lv, i, 0)) by { DeleteOp(n, lv, i, 0); }
    RootedAbove(n, levels, b, WithDelete(lv, i, 0));
    assert Recs(levels[b + 1]) == Heads(lv);
    HeadKey(n, lv, i);
    assert LevelOk(n, levels[b + 1]);
    SameFirstKey(n, levels[b + 1], lv);
    assert w[b][i].recs == DeleteAt(lv[i].recs, 0) && w[b][i].recs[0] == lv[i].recs[1];
    forall x | x in Recs(w[b + 1]) ensures x.key <= First(lv[i]) || Head(w[b][i]).key < x.key {
      HeadsGap(n, lv, i, x);
    }
  }

  /** And once that key is brought up to date, the level above indexes the level again. */
  lemma {:induction false} FreshAbove(n: nat, before: LevelList, levels: LevelList, b: nat, i: nat)
    requires Rooted(n, before, b) && i < |before[b]| && |before[b][i].recs| > 1 && b + 1 < |before|
    requires Rooted(n, levels, b + 1) && levels[b] == WithDelete(before[b], i, 0)
    requires Recs(levels[b + 1]) == Recs(before[b + 1]) - {Head(before[b][i])} + {Head(levels[b][i])}
    ensures Rooted(n, levels, b)
  {
    var lv := before[b];
    assert levels[b][i] == Page(lv[i].id, DeleteAt(lv[i].recs, 0));
    assert Recs(before[b + 1]) == Heads(lv);
    DeleteOp(n, lv, i, 0);
    RootedBelow(n, levels, b);
  }

  /** The termination measure of a key update: room on the way up stays, and growth brings room. */
  lemma {:induction false} RoomAbove(n: nat, c: Job, levels: LevelList, lv: Level)
    requires Settled(n, c, levels) && Covers(c.lv0[c.b], c.g0.i, c.key)
    ensures RoomFrom(n, c.lv0, c.b, c.key) ==>
              |levels| == |c.lv0| && RoomFrom(n, levels[c.b := lv], c.b + 1, c.key)
    ensures |levels| > |c.lv0| ==> RoomFrom(n, levels[c.b := lv], c.b + 1, c.key)
  {
    var w := levels[c.b := lv];
    if RoomFrom(n, c.lv0, c.b, c.key) {
      assert RoomAt(n, c.lv0[c.b], c.key);
      assert c.g0.InPage?;
      forall l | c.b + 1 <= l < |w| ensures RoomAt(n, w[l], c.key) {
        assert RoomAt(n, c.lv0[l], c.key);
      }
    }
    if |levels| > |c.lv0| {
      forall l | c.b + 1 <= l < |w| ensures RoomAt(n, w[l], c.key) {
        assert RoomAt(n, levels[l], c.key);
      }
    }
  }

  // ---------- parents and neighbours ----------

  /** The floor of a key on the level above is the index record of the page that covers the key. */
  lemma {:induction false} FloorIsHead(n: nat, upper: Level, lower: Level, i: nat, key: int, pi: nat, pos: nat)
    requires LevelOk(n, upper) && LevelOk(n, lower) && Recs(upper) == Heads(lower)
    requires Covers(lower, i, key) && Covers(upper, pi, key) && FloorAt(upper[pi].recs, pos, key)
    ensures upper[pi].recs[pos] == Head(lower[i])
  {
    HeadKey(n, lower, i);
    FloorIsGlobal(n, upper, pi, pos, key);
    var j := ChildOf(upper, lower, upper[pi].recs[pos]);
    HeadKey(n, lower, j);
    if j < i { FirstsAscend(n, lower, j, i); }
  }

  /** The record before a child's index record in the same page is that of the child's left neighbour. */
  lemma {:induction false} HasLeft(n: nat, upper: Level, lower: Level, i: nat, pi: nat, pos: nat)
    requires LevelOk(n, upper) && LevelOk(n, lower) && Recs(upper) == Heads(lower)
    requires i < |lower| && pi < |upper| && 0 < pos < |upper[pi].recs| && upper[pi].recs[pos] == Head(lower[i])
    ensures i > 0 && upper[pi].recs[pos - 1] == Head(lower[i - 1])
  {
    hide ChainOk, Heads, Head;
    var r := upper[pi].recs[pos - 1];
    assert r in Recs(upper) by { assert r in upper[pi].recs; }
    hide Recs;
    var j := ChildOf(upper, lower, r);
    HeadKey(n, lower, j);
    HeadKey(n, lower, i);
    SuccessorInPage(n, upper, pi, pos - 1);
    FirstsOrder(n, lower, i, j);
    Between(n, upper, lower, j, i, pi, pos - 1);
  }

  /** The record that follows a child's index record in the same page is that of the child's right neighbour. */
  lemma {:induction false} HasRight(n: nat, upper: Level, lower: Level, i: nat, pi: nat, pos: nat)
    requires LevelOk(n, upper) && LevelOk(n, lower) && Recs(upper) == Heads(lower)
    requires i < |lower| && pi < |upper| && pos + 1 < |upper[pi].recs| && upper[pi].recs[pos] == Head(lower[i])
    ensures i + 1 < |lower| && upper[pi].recs[pos + 1] == Head(lower[i + 1])
  {
    var r := upper[pi].recs[pos + 1];
    assert r in upper[pi].recs && PageOk(n, upper[pi]);
    var j := ChildOf(upper, lower, r);
    HeadKey(n, lower, j);
    HeadKey(n, lower, i);
    FirstsOrder(n, lower, j, i);
    Between(n, upper, lower, i, j, pi, pos);
  }

  /** No page of the lower level starts between two neighbours of the upper one. */
  lemma {:induction false} Between(n: nat, upper: Level, lower: Level, i: nat, j: nat, pi: nat, pos: nat)
    requires LevelOk(n, upper) && LevelOk(n, lower) && Recs(upper) == Heads(lower)
    requires pi < |upper| && pos + 1 < |upper[pi].recs|
    requires i < j < |lower| && upper[pi].recs[pos] == Head(lower[i]) && upper[pi].recs[pos + 1] == Head(lower[j])
    ensures j == i + 1
  {
    hide ChainOk, Recs, Heads, Head;
    HeadKey(n, lower, i);
    HeadKey(n, lower, i + 1);
    HeadKey(n, lower, j);
    FirstsAscend(n, lower, i, i + 1);
    SuccessorInPage(n, upper, pi, pos);
    assert Head(lower[i + 1]) in Recs(upper);
    if i + 1 < j { FirstsAscend(n, lower, i + 1, j); }
  }

  /** Merging is possible whenever the free spaces of the two nodes sum up to a node. */
  lemma {:induction false} MergeFits(n: nat, a: seq<Rec>, b: seq<Rec>)
    requires FreeSpace(n, a) + FreeSpace(n, b) >= n
    ensures Bytes(a) + Bytes(b) + FIXED <= n
    ensures FreeSpace(n, a + b) == FreeSpace(n, a) - Bytes(b)
  {
    BytesConcat(a, b);
  }

  // ---------- the surplus record of a level ----------

  /** Some page of the level starts with the key. */
  ghost predicate Heading(lv: Level, key: int) {
    exists m :: 0 <= m < |lv| && lv[m].recs != [] && First(lv[m]) == key
  }

  lemma {:induction false} NotHeading(n: nat, lv: Level, i: nat, pos: nat)
    requires LevelOk(n, lv) && i < |lv| && 0 < pos < |lv[i].recs|
    ensures !Heading(lv, lv[i].recs[pos].key)
  {
    forall m | 0 <= m < |lv| && lv[m].recs != [] ensures First(lv[m]) != lv[i].recs[pos].key {
      NotAFirstKey(n, lv, i, pos, m);
    }
  }

  /** A record at the head of a page starts with a key that heads a page. */
  lemma {:induction false} HeadsPage(n: nat, lv: Level, i: nat)
    requires LevelOk(n, lv) && i < |lv|
    ensures Heading(lv, lv[i].recs[0].key)
  {
    assert PageOk(n, lv[i]);
    assert First(lv[i]) == lv[i].recs[0].key;
  }

  /** Behind the last record of a page the next child of the level starts a page of the level above. */
  lemma {:induction false} NextParent(n: nat, upper: Level, lower: Level, i: nat, pi: nat, pos: nat)
    requires LevelOk(n, upper) && LevelOk(n, lower) && Recs(upper) == Heads(lower)
    requires i + 1 < |lower| && pi < |upper| && pos + 1 == |upper[pi].recs| && upper[pi].recs[pos] == Head(lower[i])
    ensures Heading(upper, Head(lower[i + 1]).key)
  {
    hide ChainOk, Recs, Heads, Head, Heading;
    HeadKey(n, lower, i + 1);
    var x := Head(lower[i + 1]);
    var a, k := FindRec(upper, x);
    if k > 0 {
      HasLeft(n, upper, lower, i + 1, a, k);
      SamePlace(n, upper, a, k - 1, pi, pos);
    } else {
      HeadsPage(n, upper, a);
    }
  }

  lemma {:induction false} FindRec(lv: Level, x: Rec) returns (a: nat, k: nat)
    requires x in Recs(lv)
    ensures a < |lv| && k < |lv[a].recs| && lv[a].recs[k] == x
  {
    a :| 0 <= a < |lv| && x in lv[a].recs;
    k :| 0 <= k < |lv[a].recs| && lv[a].recs[k] == x;
  }

  lemma {:induction false} SamePlace(n: nat, lv: Level, a: nat, k: nat, b: nat, m: nat)
    requires LevelOk(n, lv) && a < |lv| && b < |lv| && k < |lv[a].recs| && m < |lv[b].recs| && lv[a].recs[k] == lv[b].recs[m]
    ensures a == b && k == m
  {
    var x := lv[a].recs[k];
    assert x in lv[a].recs && x in lv[b].recs && PageOk(n, lv[a]);
    hide ChainOk, PageOk;
    if a < b { KeysAscend(n, lv, a, b, x, x); }
    if b < a { KeysAscend(n, lv, b, a, x, x); }
  }

  /**
   What rebalance makes of a level: the node goes into its left neighbour, or takes its right one
   in, if that one is under the same parent and both fit into one node.
   */
  ghost function Rebalanced(n: nat, upper: Level, lower: Level, i: nat): Level
    requires i < |lower|
  {
    if i > 0 && !Heading(upper, Head(lower[i]).key) then
      if FreeSpace(n, lower[i].recs) + FreeSpace(n, lower[i - 1].recs) >= n then WithMerge(lower, i - 1) else lower
    else if i + 1 < |lower| && Heading(upper, Head(lower[i]).key) && !Heading(upper, Head(lower[i + 1]).key) then
      if FreeSpace(n, lower[i].recs) + FreeSpace(n, lower[i + 1].recs) >= n then WithMerge(lower, i) else lower
    else lower
  }

  lemma {:induction false} NeighbourLevels(n: nat, levels: LevelList, b: nat)
    requires Rooted(n, levels, b) && b + 1 < |levels|
    ensures LevelOk(n, levels[b]) && LevelOk(n, levels[b + 1]) && Recs(levels[b + 1]) == Heads(levels[b])
    ensures Rooted(n, levels, b + 1)
  {
  }

  lemma {:induction false} CoverFirst(n: nat, levels: LevelList, b: nat, i: nat, key: int)
    requires Rooted(n, levels, b) && b + 1 < |levels| && Nonempty(levels[b]) && Covers(levels[b], i, key)
    ensures Nonempty(levels[b + 1]) && |levels[b + 1]| > 0 && First(levels[b + 1][0]) <= key
  {
    assert LevelOk(n, levels[b]) && LevelOk(n, levels[b + 1]);
    SameFirstKey(n, levels[b + 1], levels[b]);
    if i > 0 { FirstsAscend(n, levels[b], 0, i); }
  }

  /** Level b holds one record too many: without st it would index the level below exactly. */
  ghost predicate Surplus(levels: LevelList, b: nat, st: Rec) {
    && 0 < b < |levels|
    && st in Recs(levels[b])
    && Recs(levels[b]) - {st} == Heads(levels[b - 1])
  }

  /** An emptied page leaves its chain; its index record is then the surplus of the level above. */
  lemma {:induction false} DropStep(n: nat, levels: LevelList, b: nat, i: nat)
    requires Rooted(n, levels, b) && i < |levels[b]| && |levels[b][i].recs| == 1
    requires First(levels[b][0]) < First(levels[b][i])
    ensures b + 1 < |levels|
    ensures var w := levels[b := WithDrop(levels[b], i)];
            && Rooted(n, w, b + 1)
            && Surplus(w, b + 1, Head(levels[b][i]))
            && First(w[b + 1][0]) < First(levels[b][i]) == Head(levels[b][i]).key
    ensures LevelOk(n, WithDrop(levels[b], i)) && Recs(WithDrop(levels[b], i)) == Recs(levels[b]) - {levels[b][i].recs[0]}
    ensures Ids(WithDrop(levels[b], i)) == Ids(levels[b]) - {levels[b][i].id}
  {
    var lv := levels[b];
    assert LevelOk(n, lv);
    DropOp(n, lv, i);
    RootedAbove(n, levels, b, WithDrop(lv, i));
    assert Recs(levels[b + 1]) == Heads(lv);
    HeadKey(n, lv, i);
    assert LevelOk(n, levels[b + 1]);
    SameFirstKey(n, levels[b + 1], lv);
  }

  /** After a merge the right page's index record is the surplus of the level above. */
  lemma {:induction false} MergeStep(n: nat, levels: LevelList, b: nat, i: nat)
    requires Rooted(n, levels, b) && i + 1 < |levels[b]| && b + 1 < |levels|
    requires Bytes(levels[b][i].recs) + Bytes(levels[b][i + 1].recs) + FIXED <= n
    ensures var w := levels[b := WithMerge(levels[b], i)];
            && Rooted(n, w, b + 1)
            && Surplus(w, b + 1, Head(levels[b][i + 1]))
            && First(w[b + 1][0]) < First(levels[b][i + 1]) == Head(levels[b][i + 1]).key
    ensures LevelOk(n, WithMerge(levels[b], i)) && Recs(WithMerge(levels[b], i)) == Recs(levels[b])
    ensures Ids(WithMerge(levels[b], i)) == Ids(levels[b]) - {levels[b][i + 1].id}
  {
    var lv := levels[b];
    assert LevelOk(n, lv);
    MergeOp(n, lv, i);
    RootedAbove(n, levels, b, WithMerge(lv, i));
    assert Recs(levels[b + 1]) == Heads(lv);
    HeadKey(n, lv, i + 1);
    assert LevelOk(n, levels[b + 1]);
    SameFirstKey(n, levels[b + 1], lv);
    FirstsAscend(n, lv, 0, i + 1);
  }

  /** A root with one record left: the level below has one page, which becomes the root. */
  lemma {:induction false} CollapseStep(n: nat, levels: LevelList, b: nat)
    requires 0 < b && b + 1 == |levels| && Rooted(n, levels, b) && |levels[b][0].recs| == 1
    requires Recs(levels[b]) == Heads(levels[b - 1])
    ensures |levels[b - 1]| == 1 && levels[b - 1][0].id == levels[b][0].recs[0].val
    ensures Rooted(n, levels[..b], b - 1)
  {
    assert LevelOk(n, levels[b]) && LevelOk(n, levels[b - 1]);
    assert levels[b] == [levels[b][0]];
    RecsOne(levels[b][0]);
    assert RecSet(levels[b][0].recs) == {levels[b][0].recs[0]};
    OneHead(n, levels[b - 1], levels[b][0].recs[0]);
  }

  /** A key still belongs to the page it was deleted from, or to the page's new first key. */
  lemma {:induction false} CoverAfterDelete(n: nat, lv: Level, i: nat, pos: nat, key: int)
    requires LevelOk(n, lv) && Covers(lv, i, key) && pos < |lv[i].recs| && |lv[i].recs| > 1
    requires lv[i].recs[pos].key == key
    ensures var w := WithDelete(lv, i, pos);
            Nonempty(w) && i < |w| && w[i].recs != [] && Covers(w, i, if pos == 0 then First(w[i]) else key)
  {
    var w := WithDelete(lv, i, pos);
    assert LevelOk(n, w) by { DeleteOp(n, lv, i, pos); }
    assert PageOk(n, lv[i]);
    assert w[i].recs == DeleteAt(lv[i].recs, pos);
    forall j | i < j < |w| ensures Last(lv[i]) < First(w[j]) && key < First(w[j]) {
      assert w[j] == lv[j];
      FirstsAscend(n, lv, i, j);
    }
  }

  /** The records that stay when the record with a key goes. */
  lemma {:induction false} WithoutKey(n: nat, lv: Level, st: Rec)
    requires LevelOk(n, lv) && st in Recs(lv)
    ensures Recs(lv) - {st} == set q | q in Recs(lv) && q.key != st.key
  {
    forall q | q in Recs(lv) && q != st ensures q.key != st.key {
      if q.key == st.key { KeyUnique(n, lv, q, st); }
    }
  }

  lemma {:induction false} CoverBounds(lv: Level, i: nat, key: int)
    requires Nonempty(lv) && Covers(lv, i, key)
    ensures i < |lv|
  {
  }

  lemma {:induction false} RootedFacts(n: nat, levels: LevelList, b: nat)
    requires Rooted(n, levels, b)
    ensures b < |levels| && LevelOk(n, levels[b]) && |levels[|levels| - 1]| == 1
  {
  }

  /** In a rooted tree the root is the only node of the top level. */
  lemma {:induction false} RootIsTop(n: nat, nodes: Nodes, root: nat, levels: LevelList, limbo: set<nat>, l: nat, i: nat)
    requires Shape(n, nodes, root, levels, limbo) && l < |levels| && i < |levels[l]|
    requires |levels[|levels| - 1]| == 1
    ensures levels[l][i].id == root <==> l + 1 == |levels|
  {
    var t := |levels| - 1;
    PageFacts(n, nodes, root, levels, limbo, l, i);
    PageFacts(n, nodes, root, levels, limbo, t, 0);
    if l < t { assert Ids(levels[l]) !! Ids(levels[t]); }
  }

  lemma {:induction false} BelowStill(n: nat, lv0: LevelList, levels: LevelList, b: nat)
    requires 0 < b < |lv0| && b < |levels| && Rooted(n, levels, b) && levels[..b] == lv0[..b]
    requires Recs(lv0[b]) == Heads(lv0[b - 1]) && Recs(levels[b]) == Recs(lv0[b])
    ensures Rooted(n, levels, b - 1)
  {
    assert levels[..b][b - 1] == lv0[..b][b - 1];
    RootedBelow(n, levels, b - 1);
  }

  /** The search for a key that must be there finds it; any other search tells whether the key is there. */
  lemma {:induction false} FoundOrAbsent(n: nat, levels: LevelList, b: nat, i: nat, pos: nat, key: int, st: Rec)
    requires b < |levels| && LevelOk(n, levels[b]) && Covers(levels[b], i, key) && FloorAt(levels[b][i].recs, pos, key)
    requires b > 0 ==> Surplus(levels, b, st) && st.key == key
    ensures b > 0 ==> levels[b][i].recs[pos] == st
    ensures levels[b][i].recs[pos].key != key ==>
              (forall q :: q in Recs(levels[b]) ==> q.key != key)
              && Recs(levels[b]) == set q | q in Recs(levels[b]) && q.key != key
    ensures levels[b][i].recs[pos] in Recs(levels[b])
  {
    FloorIsGlobal(n, levels[b], i, pos, key);
    if b > 0 { ExactFloor(n, levels[b], i, pos, st); }
  }

  lemma {:induction false} HeadingIff(n: nat, lv: Level, i: nat, pos: nat)
    requires LevelOk(n, lv) && i < |lv| && pos < |lv[i].recs|
    ensures Heading(lv, lv[i].recs[pos].key) <==> pos == 0
  {
    if pos > 0 { NotHeading(n, lv, i, pos); }
  }

  /** Without its surplus record the level indexes the level below. */
  lemma {:induction false} BelowNow(n: nat, lv0: LevelList, levels: LevelList, b: nat, st: Rec)
    requires Surplus(lv0, b, st) && b < |levels| && Rooted(n, levels, b) && levels[..b] == lv0[..b]
    requires Recs(levels[b]) == Recs(lv0[b]) - {st}
    ensures Rooted(n, levels, b - 1) && Recs(levels[b]) == Heads(levels[b - 1])
  {
    assert levels[..b][b - 1] == lv0[..b][b - 1];
    RootedBelow(n, levels, b - 1);
  }

  // ---------- a new value ----------

  lemma {:induction false} ShapeValue(n: nat, nodes: Nodes, root: nat, levels: LevelList, limbo: set<nat>,
                                      l: nat, i: nat, pos: nat, v: nat)
    requires Shape(n, nodes, root, levels, limbo) && l < |levels| && i < |levels[l]| && pos < |levels[l][i].recs|
    ensures levels[l][i].id in nodes && LevelOk(n, levels[l]) && LevelOk(n, WithValue(levels[l], i, pos, v))
    ensures var id := levels[l][i].id;
            Shape(n, nodes[id := nodes[id].(recs := Revalued(levels[l][i].recs, pos, v))], root,
                  levels[l := WithValue(levels[l], i, pos, v)], limbo)
  {
    LevelFacts(n, nodes, root, levels, limbo, l);
    PageFacts(n, nodes, root, levels, limbo, l, i);
    hide Shape, LevelOk, Ids, Stored, DistinctIds;
    assert LevelOk(n, WithValue(levels[l], i, pos, v)) && Ids(WithValue(levels[l], i, pos, v)) == Ids(levels[l]) by {
      ValueOp(n, levels[l], i, pos, v);
    }
    ShapeRewrite(n, nodes, root, levels, limbo, l, i, Revalued(levels[l][i].recs, pos, v));
  }

  /** A new value in a leaf changes the map at that key, and no index record. */
  lemma {:induction false} ValueContents(n: nat, levels: LevelList, i: nat, pos: nat, v: nat)
    requires Rooted(n, levels, 0) && i < |levels[0]| && pos < |levels[0][i].recs|
    ensures var w := levels[0 := WithValue(levels[0], i, pos, v)];
            var r := levels[0][i].recs[pos];
            && Rooted(n, w, 0) && First(w[0][0]) == First(levels[0][0])
            && KeysUnique(Recs(levels[0])) && KeysUnique(Recs(w[0]))
            && r.key in ByKey(Recs(levels[0])) && ByKey(Recs(levels[0]))[r.key] == r
            && ByKey(Recs(w[0])) == ByKey(Recs(levels[0]))[r.key := r.(val := v)]
  {
    var lv, w0 := levels[0], WithValue(levels[0], i, pos, v);
    assert LevelOk(n, lv);
    ValueOp(n, lv, i, pos, v);
    RootedUpdate(n, levels, 0, w0);
    LeafKeysUnique(n, levels);
    LeafKeysUnique(n, levels[0 := w0]);
    FirstIsLeast(n, lv);
    FirstIsLeast(n, w0);
    var r := lv[i].recs[pos];
    assert r in lv[i].recs && r in Recs(lv);
    hide Recs, Heads, LevelOk, WithValue, Rooted;
    ByKeyReplaced(Recs(lv), r, r.(val := v));
  }

  lemma {:induction false} ByKeyReplaced(s: set<Rec>, r: Rec, q: Rec)
    requires KeysUnique(s) && r in s && q.key == r.key && KeysUnique(s - {r} + {q})
    ensures r.key in ByKey(s) && ByKey(s)[r.key] == r
    ensures ByKey(s - {r} + {q}) == ByKey(s)[r.key := q]
  {
    var t := s - {r} + {q};
    var m, w := ByKey(s), ByKey(t);
    forall k | k in w ensures k in m[r.key := q] && m[r.key := q][k] == w[k] {
      ByKeyMember(t, k);
      var x :| x in t && x.key == k;
      ByKeyMember(s, k);
    }
    forall k | k in m[r.key := q] ensures k in w {
      ByKeyMember(t, k);
      ByKeyMember(s, k);
      if k == r.key {
        assert q in t;
      } else {
        var x :| x in s && x.key == k;
        assert x in t;
      }
    }
  }

  // ---------- the leaves as a map ----------

  ghost predicate KeysUnique(s: set<Rec>) {
    forall r, q :: r in s && q in s && r.key == q.key ==> r == q
  }

  ghost function ByKey(s: set<Rec>): map<int, Rec>
    requires KeysUnique(s)
  {
    map r | r in s :: r.key := r
  }

  lemma {:induction false} LeafKeysUnique(n: nat, levels: LevelList)
    requires Rooted(n, levels, 0)
    ensures |levels| > 0 && KeysUnique(Recs(levels[0]))
  {
    forall r, q | r in Recs(levels[0]) && q in Recs(levels[0]) && r.key == q.key ensures r == q {
      KeyUnique(n, levels[0], r, q);
    }
  }

  lemma {:induction false} ByKeyMember(s: set<Rec>, key: int)
    requires KeysUnique(s)
    ensures key in ByKey(s) <==> exists q :: q in s && q.key == key
  {
    if exists q :: q in s && q.key == key {
      var q :| q in s && q.key == key;
      assert ByKey(s)[q.key] == q;
    }
  }

  lemma {:induction false} ByKeyAdd(s: set<Rec>, r: Rec)
    requires KeysUnique(s) && KeysUnique(s + {r}) && r !in s
    ensures ByKey(s + {r}) == ByKey(s)[r.key := r]
  {
    var m, w := ByKey(s), ByKey(s + {r});
    forall k | k in w ensures k in m[r.key := r] && m[r.key := r][k] == w[k] {
      ByKeyMember(s + {r}, k);
      ByKeyMember(s, k);
      var q :| q in s + {r} && q.key == k;
    }
    forall k | k in m[r.key := r] ensures k in w {
      ByKeyMember(s + {r}, k);
      ByKeyMember(s, k);
      assert k == r.key ==> r in s + {r};
    }
  }

  lemma {:induction false} ByKeyLess(s: set<Rec>, key: int)
    requires KeysUnique(s)
    ensures KeysUnique(set q | q in s && q.key != key)
    ensures ByKey(set q | q in s && q.key != key) == ByKey(s) - {key}
  {
    var t := set q | q in s && q.key != key;
    var m, w := ByKey(s), ByKey(t);
    forall k | k in w ensures k in m - {key} && (m - {key})[k] == w[k] {
      ByKeyMember(t, k);
      var q :| q in t && q.key == k;
      ByKeyMember(s, k);
    }
    forall k | k in m - {key} ensures k in w {
      ByKeyMember(s, k);
      var q :| q in s && q.key == k;
      ByKeyMember(t, k);
      assert q in t;
    }
  }

  lemma {:induction false} InsertedContents(n: nat, c: Job, levels: LevelList)
    requires Rooted(n, c.lv0, 0) && Settled(n, c, levels) && c.b == 0
    ensures |c.lv0| > 0 && |levels| > 0 && Rooted(n, levels, 0)
    ensures KeysUnique(Recs(c.lv0[0])) && KeysUnique(Recs(levels[0]))
    ensures ByKey(Recs(levels[0])) == ByKey(Recs(c.lv0[0]))[c.r.key := c.r]
    ensures First(levels[0][0]) == First(c.lv0[0][0])
  {
    LeafKeysUnique(n, c.lv0);
    SettledFacts(n, c, levels);
    LeafKeysUnique(n, levels);
    GrownFirst(n, c.lv0[0], c.g0, c.r);
    assert Recs(levels[0]) == Recs(c.lv0[0]) + {c.r} by { GrowthEffect(n, c.lv0[0], c.g0, c.r); }
    var i, pos := c.g0.i, c.g0.pos;
    FloorIsGlobal(n, c.lv0[0], i, pos, c.r.key);
    assert c.r !in Recs(c.lv0[0]);
    ByKeyAdd(Recs(c.lv0[0]), c.r);
  }

  /** The first key of a level is the least key in it. */
  lemma {:induction false} FirstIsLeast(n: nat, lv: Level)
    requires LevelOk(n, lv)
    ensures exists r :: r in Recs(lv) && r.key == First(lv[0])
    ensures forall r :: r in Recs(lv) ==> First(lv[0]) <= r.key
  {
    assert PageOk(n, lv[0]);
    assert lv[0].recs[0] in lv[0].recs;
    assert lv[0].recs[0] in Recs(lv);
    forall r | r in Recs(lv) ensures First(lv[0]) <= r.key {
      var a :| 0 <= a < |lv| && r in lv[a].recs;
      KeysWithin(n, lv, a, r);
      if a > 0 { FirstsAscend(n, lv, 0, a); }
    }
  }

  lemma {:induction false} RemovedContents(n: nat, lv0: LevelList, levels: LevelList, key: int)
    requires Rooted(n, lv0, 0) && Rooted(n, levels, 0) && First(lv0[0][0]) != key
    requires Recs(levels[0]) == set q | q in Recs(lv0[0]) && q.key != key
    ensures KeysUnique(Recs(lv0[0])) && KeysUnique(Recs(levels[0]))
    ensures ByKey(Recs(levels[0])) == ByKey(Recs(lv0[0])) - {key}
    ensures First(levels[0][0]) == First(lv0[0][0])
  {
    LeafKeysUnique(n, lv0);
    LeafKeysUnique(n, levels);
    ByKeyLess(Recs(lv0[0]), key);
    FirstIsLeast(n, lv0[0]);
    FirstIsLeast(n, levels[0]);
  }

  lemma {:induction false} SingleLeaf(n: nat, r: Rec)
    requires NodeSizeOk(n) && RecOk(r)
    ensures Shape(n, map[1 := Node([r], NO_NODE, NO_NODE)], 1, [[Page(1, [r])]], {})
    ensures Rooted(n, [[Page(1, [r])]], 0)
    ensures KeysUnique(Recs([Page(1, [r])])) && ByKey(Recs([Page(1, [r])])) == map[r.key := r]
  {
    var p := Page(1, [r]);
    assert BytesTo([r], 0) == 0 && BytesTo([r], 1) == r.rlen + SLOT;
    assert PageOk(n, p);
    AllIdsOne([p]);
    IdsOne(p);
    RecsOne(p);
    assert RecSet([r]) == {r};
    ByKeyMember({r}, r.key);
  }
}
