/**
 The states that an insertion goes through, on the level lists alone.

 A Job names an insertion: the levels before it, the level b that the record r goes to, what
 the insertion did there, and a key whose covering pages are watched.  While a split at level
 d waits to be indexed, the tree is Pending; once nothing waits, it is Settled.
 */
module InsertState {
  import opened Layout
  import opened Levels
  import opened LevelOps
  import opened Store
  import opened TreeState
  import opened IndexFacts
  import opened Bnode
  import opened GrowthOps

  /** Whatever page of the level covers the key has room for another record. */
  ghost predicate RoomAt(n: nat, lv: Level, key: int) {
    Nonempty(lv) && forall x: nat :: Covers(lv, x, key) ==> Roomy(n, lv[x].recs)
  }

  ghost predicate RoomFrom(n: nat, levels: LevelList, b: nat, key: int) {
    forall l :: b <= l < |levels| ==> RoomAt(n, levels[l], key)
  }

  ghost predicate AllLevelsOk(n: nat, levels: LevelList) {
    forall l :: 0 <= l < |levels| ==> LevelOk(n, levels[l])
  }

  /** A tree that is indexed from level b upwards and has one root. */
  ghost predicate Rooted(n: nat, levels: LevelList, b: nat) {
    && b < |levels|
    && AllLevelsOk(n, levels)
    && Indexed(levels, b)
    && |levels[|levels| - 1]| == 1
  }

  datatype Job = Job(lv0: LevelList, b: nat, g0: Growth, r: Rec, key: int)

  /** A split that is not indexed yet: its level, what it was, and the record that caused it. */
  datatype Part = Part(d: nat, g: Growth, q: Rec)

  /** What the insertion did to level b, and that it left the levels below alone. */
  ghost predicate Based(n: nat, c: Job, levels: LevelList) {
    && c.b < |c.lv0| <= |levels|
    && GrowthOk(n, c.lv0[c.b], c.g0, c.r)
    && levels[..c.b] == c.lv0[..c.b]
    && levels[c.b] == Grown(c.lv0[c.b], c.g0, c.r)
  }

  ghost predicate Settled(n: nat, c: Job, levels: LevelList) {
    && Based(n, c, levels)
    && Rooted(n, levels, c.b)
    && |levels| <= |c.lv0| + 1
    && (c.g0.InPage? ==> levels == c.lv0[c.b := Grown(c.lv0[c.b], c.g0, c.r)])
    && (|levels| > |c.lv0| ==> RoomFrom(n, levels, c.b, c.key))
  }

  /** From level b up to level d every level indexes the one below it. */
  ghost predicate LinkedTo(levels: LevelList, b: nat, d: nat)
    requires d < |levels|
  {
    forall l :: b <= l < d ==> Recs(levels[l + 1]) == Heads(levels[l])
  }

  /** On these levels a split has just made room in the page that covers the key. */
  ghost predicate RoomsTo(n: nat, levels: LevelList, b: nat, d: nat, key: int)
    requires d < |levels|
  {
    forall l :: b <= l <= d ==> RoomAt(n, levels[l], key)
  }

  /** The split has put a page into the chain of level d that level d + 1 does not index yet. */
  ghost predicate Pending(n: nat, c: Job, levels: LevelList, p: Part) {
    && Based(n, c, levels) && c.g0.Split?
    && c.b <= p.d < |c.lv0| == |levels|
    && AllLevelsOk(n, levels)
    && levels[p.d + 1..] == c.lv0[p.d + 1..]
    && p.g.Split? && GrowthOk(n, c.lv0[p.d], p.g, p.q) && levels[p.d] == Grown(c.lv0[p.d], p.g, p.q)
    && Covers(c.lv0[p.d], p.g.i, c.r.key) && Covers(c.lv0[p.d], p.g.i, c.key)
    && LinkedTo(levels, c.b, p.d)
    && RoomsTo(n, levels, c.b, p.d, c.key)
  }

  /** The index record that waits to be placed. */
  ghost function Due(p: Part): Rec
    requires p.g.Split?
  {
    Head(NewPage(p.g))
  }

  lemma {:induction false} IndexedIsPartly(levels: LevelList, b: nat)
    requires Indexed(levels, b)
    ensures PartlyIndexed(levels, b)
  {
  }

  /** Every level from b upwards starts with the same key. */
  lemma {:induction false} TopFirst(n: nat, levels: LevelList, b: nat)
    requires Rooted(n, levels, b)
    ensures First(levels[|levels| - 1][0]) == First(levels[b][0])
    decreases |levels| - b
  {
    if b + 1 < |levels| {
      assert LevelOk(n, levels[b]) && LevelOk(n, levels[b + 1]);
      SameFirstKey(n, levels[b + 1], levels[b]);
      TopFirst(n, levels, b + 1);
    }
  }

  /** The same with dangling nodes, as long as the leftmost nodes are indexed. */
  lemma {:induction false} LeftmostTop(n: nat, nodes: Nodes, levels: LevelList, b: nat)
    requires b < |levels| && LevelsOk(n, nodes, levels) && PartlyIndexed(levels, 0) && LeftmostIndexed(levels)
    ensures levels[|levels| - 1] != [] && levels[b] != []
    ensures levels[|levels| - 1][0].recs != [] && levels[b][0].recs != []
    ensures First(levels[|levels| - 1][0]) == First(levels[b][0])
    decreases |levels| - b
  {
    assert LevelOk(n, levels[b]) && PageOk(n, levels[b][0]);
    if b + 1 < |levels| {
      assert LevelOk(n, levels[b + 1]);
      LeftmostFirstKey(n, levels[b + 1], levels[b]);
      LeftmostTop(n, nodes, levels, b + 1);
    }
  }

  /** A key below the first key of a level is below all of them. */
  lemma {:induction false} BelowAll(n: nat, lv: Level, key: int)
    requires LevelOk(n, lv) && key < First(lv[0])
    ensures forall q :: q in Recs(lv) ==> key < q.key
    ensures Recs(lv) == set q | q in Recs(lv) && q.key != key
  {
    forall q | q in Recs(lv) ensures key < q.key {
      var a :| 0 <= a < |lv| && q in lv[a].recs;
      KeysWithin(n, lv, a, q);
      if a > 0 { FirstsAscend(n, lv, 0, a); }
    }
  }

  lemma {:induction false} RoomAfter(n: nat, lv: Level, g: Growth, r: Rec, key: int)
    requires GrowthOk(n, lv, g, r) && g.Split? && Covers(lv, g.i, key)
    ensures RoomAt(n, Grown(lv, g, r), key)
  {
    assert LevelOk(n, Grown(lv, g, r)) by { GrowthEffect(n, lv, g, r); }
    forall x: nat | Covers(Grown(lv, g, r), x, key) ensures Roomy(n, Grown(lv, g, r)[x].recs) {
      RoomAfterSplit(n, lv, g, r, key, x);
    }
  }

  /** The writes of an insertion keep the shape of the tree. */
  lemma {:induction false} PlaceBySplit(n: nat, nodes: Nodes, root: nat, levels: LevelList, limbo: set<nat>,
                                        l: nat, g: Growth, r: Rec)
    requires Shape(n, nodes, root, levels, limbo) && l < |levels| && Nonempty(levels[l]) && RecOk(r)
    requires g.Split? && g.i < |levels[l]| && Covers(levels[l], g.i, r.key) && FloorAt(levels[l][g.i].recs, g.pos, r.key)
    requires levels[l][g.i].recs[g.pos].key != r.key && IsNodeFull(n, levels[l][g.i].recs, r.rlen)
    requires g.left + g.right == InsertAt(levels[l][g.i].recs, g.pos + 1, r)
    requires |g.left| >= 2 && |g.right| >= 2 && Roomy(n, g.left) && Roomy(n, g.right)
    requires g.newId != NO_NODE && g.newId !in nodes
    ensures levels[l][g.i].id in nodes && GrowthOk(n, levels[l], g, r)
    ensures Shape(n, SplitStore(nodes, levels[l][g.i].id, g.left, g.right, g.newId), root,
                  levels[l := Grown(levels[l], g, r)], limbo)
  {
    hide Shape;
    LevelFacts(n, nodes, root, levels, limbo, l);
    PageFacts(n, nodes, root, levels, limbo, l, g.i);
    assert GrowthOk(n, levels[l], g, r);
    hide LevelOk, Ids, Covers, FloorAt, Roomy, WithSplit, SplitStore, Stored, DistinctIds;
    assert LevelOk(n, WithSplit(levels[l], g.i, g.left, g.right, g.newId))
      && Ids(WithSplit(levels[l], g.i, g.left, g.right, g.newId)) == Ids(levels[l]) + {g.newId} by {
      SplitOp(n, levels[l], g.i, g.pos, r, g.left, g.right, g.newId);
    }
    ShapeSplit(n, nodes, root, levels, limbo, l, g.i, g.left, g.right, g.newId);
  }

  lemma {:induction false} PlaceInPage(n: nat, nodes: Nodes, root: nat, levels: LevelList, limbo: set<nat>,
                                       l: nat, g: Growth, r: Rec)
    requires Shape(n, nodes, root, levels, limbo) && l < |levels| && Nonempty(levels[l]) && RecOk(r)
    requires g.InPage? && g.i < |levels[l]| && Covers(levels[l], g.i, r.key) && FloorAt(levels[l][g.i].recs, g.pos, r.key)
    requires levels[l][g.i].recs[g.pos].key != r.key && !IsNodeFull(n, levels[l][g.i].recs, r.rlen)
    ensures levels[l][g.i].id in nodes && GrowthOk(n, levels[l], g, r)
    ensures var id := levels[l][g.i].id;
            Shape(n, nodes[id := nodes[id].(recs := InsertAt(levels[l][g.i].recs, g.pos + 1, r))], root,
                  levels[l := Grown(levels[l], g, r)], limbo)
  {
    LevelFacts(n, nodes, root, levels, limbo, l);
    PageFacts(n, nodes, root, levels, limbo, l, g.i);
    InPageOk(n, levels[l], g, r);
    hide Shape, LevelOk, Ids, Covers, FloorAt, Stored, DistinctIds, GrowthOk, Grown, Splice, InsertAt;
    ShapeRewrite(n, nodes, root, levels, limbo, l, g.i, InsertAt(levels[l][g.i].recs, g.pos + 1, r));
  }

  lemma {:induction false} InPageOk(n: nat, lv: Level, g: Growth, r: Rec)
    requires LevelOk(n, lv) && RecOk(r) && g.InPage? && Covers(lv, g.i, r.key) && FloorAt(lv[g.i].recs, g.pos, r.key)
    requires lv[g.i].recs[g.pos].key != r.key && !IsNodeFull(n, lv[g.i].recs, r.rlen)
    ensures GrowthOk(n, lv, g, r) && LevelOk(n, Grown(lv, g, r)) && Ids(Grown(lv, g, r)) == Ids(lv)
    ensures Grown(lv, g, r) == Splice(lv, g.i, g.i + 1, [Page(lv[g.i].id, InsertAt(lv[g.i].recs, g.pos + 1, r))])
  {
    assert GrowthOk(n, lv, g, r);
    hide LevelOk, Ids, Recs, Heads, Covers, FloorAt;
    InsertOp(n, lv, g.i, g.pos, r);
  }

  /** Rewriting the lowest level of interest: its heads decide whether the levels above still index it. */
  lemma {:induction false} RootedUpdate(n: nat, levels: LevelList, b: nat, lv: Level)
    requires Rooted(n, levels, b) && LevelOk(n, lv) && Heads(lv) == Heads(levels[b])
    requires b + 1 == |levels| ==> |lv| == 1
    ensures Rooted(n, levels[b := lv], b)
  {
    var w := levels[b := lv];
    forall l | b <= l && l + 1 < |w| ensures Recs(w[l + 1]) == Heads(w[l]) {
      assert Recs(levels[l + 1]) == Heads(levels[l]);
    }
  }

  /** The state after the record itself is placed, without a split. */
  lemma {:induction false} PlacedInPage(n: nat, c: Job)
    requires Rooted(n, c.lv0, c.b) && GrowthOk(n, c.lv0[c.b], c.g0, c.r) && c.g0.InPage?
    ensures Settled(n, c, c.lv0[c.b := Grown(c.lv0[c.b], c.g0, c.r)])
  {
    var lv := Grown(c.lv0[c.b], c.g0, c.r);
    assert LevelOk(n, lv) && Heads(lv) == Heads(c.lv0[c.b]) by { GrowthEffect(n, c.lv0[c.b], c.g0, c.r); }
    assert |lv| == |c.lv0[c.b]|;
    RootedUpdate(n, c.lv0, c.b, lv);
    assert c.lv0[c.b := lv][..c.b] == c.lv0[..c.b];
  }

  /** The state after the record itself is placed, with a split. */
  lemma {:induction false} PlacedBySplit(n: nat, c: Job)
    requires Rooted(n, c.lv0, c.b) && GrowthOk(n, c.lv0[c.b], c.g0, c.r) && c.g0.Split?
    requires Covers(c.lv0[c.b], c.g0.i, c.key)
    ensures Pending(n, c, c.lv0[c.b := Grown(c.lv0[c.b], c.g0, c.r)], Part(c.b, c.g0, c.r))
  {
    var lv := Grown(c.lv0[c.b], c.g0, c.r);
    assert LevelOk(n, lv) by { GrowthEffect(n, c.lv0[c.b], c.g0, c.r); }
    RoomAfter(n, c.lv0[c.b], c.g0, c.r, c.key);
    var levels := c.lv0[c.b := lv];
    assert levels[..c.b] == c.lv0[..c.b] && levels[c.b + 1..] == c.lv0[c.b + 1..];
  }

  /** The page of the level above that covers the inserted key is the one the index record belongs to. */
  lemma {:induction false} PendingCover(n: nat, c: Job, levels: LevelList, p: Part, x: nat)
    requires Rooted(n, c.lv0, c.b) && Pending(n, c, levels, p) && p.d + 1 < |c.lv0|
    requires Covers(c.lv0[p.d + 1], x, c.r.key)
    ensures levels[p.d + 1] == c.lv0[p.d + 1]
    ensures RecOk(Due(p)) && Covers(c.lv0[p.d + 1], x, Due(p).key) && Covers(c.lv0[p.d + 1], x, c.key)
    ensures forall y :: y in Recs(c.lv0[p.d + 1]) ==> y.key != Due(p).key
  {
    var lower, upper := c.lv0[p.d], c.lv0[p.d + 1];
    assert levels[p.d + 1..][0] == c.lv0[p.d + 1..][0];
    NewPageCovered(n, lower, p.g, p.q);
    assert Recs(upper) == Heads(lower);
    assert LevelOk(n, lower) && LevelOk(n, upper);
    CoverUp(n, upper, lower, p.g.i, c.r.key, x);
    CoverUp(n, upper, lower, p.g.i, c.key, x);
    CoverUp(n, upper, lower, p.g.i, Due(p).key, x);
    forall y | y in Recs(upper) ensures y.key != Due(p).key {
      var j := ChildOf(upper, lower, y);
      HeadKey(n, lower, j);
      if j < p.g.i { FirstsAscend(n, lower, j, p.g.i); }
    }
  }

  lemma {:induction false} PendingPage(n: nat, c: Job, levels: LevelList, p: Part)
    requires Pending(n, c, levels, p)
    ensures c.b <= p.d < |c.lv0| == |levels| && p.g.Split?
    ensures p.g.i + 1 < |levels[p.d]| && levels[p.d][p.g.i + 1] == NewPage(p.g)
    ensures p.g.right != [] && LevelOk(n, levels[p.d])
  {
    SubFirst(n, c.lv0[p.d], p.g, p.q);
  }

  /** Once level d + 1 holds the waiting record, it indexes level d exactly. */
  lemma {:induction false} StepIndexed(n: nat, c: Job, levels: LevelList, p: Part, g': Growth)
    requires Rooted(n, c.lv0, c.b) && Pending(n, c, levels, p) && p.d + 1 < |c.lv0|
    requires levels[p.d + 1] == c.lv0[p.d + 1] && GrowthOk(n, c.lv0[p.d + 1], g', Due(p))
    ensures var lv := Grown(c.lv0[p.d + 1], g', Due(p));
            && LevelOk(n, lv)
            && Recs(lv) == Heads(levels[p.d])
            && (g'.InPage? ==> Heads(lv) == Heads(c.lv0[p.d + 1]) && |lv| == |c.lv0[p.d + 1]|)
  {
    assert Recs(c.lv0[p.d + 1]) == Heads(c.lv0[p.d]);
    GrowthEffect(n, c.lv0[p.d], p.g, p.q);
    GrowthEffect(n, c.lv0[p.d + 1], g', Due(p));
  }

  lemma {:induction false} BasedUpdate(n: nat, c: Job, levels: LevelList, d: nat, lv: Level)
    requires Based(n, c, levels) && c.b < d < |levels|
    ensures Based(n, c, levels[d := lv])
  {
    assert levels[d := lv][..c.b] == levels[..c.b];
  }

  lemma {:induction false} AboveSame(levels: LevelList, lv0: LevelList, d: nat)
    requires |levels| == |lv0| && d + 1 < |lv0| && levels[d + 1..] == lv0[d + 1..]
    ensures forall l :: d < l < |lv0| ==> levels[l] == lv0[l]
  {
    assert forall l :: d < l < |lv0| ==> levels[l] == levels[d + 1..][l - d - 1] == lv0[l];
  }

  /** The chain of equations between the levels, mended at the level that was behind. */
  lemma {:induction false} MendIndexed(levels: LevelList, lv0: LevelList, b: nat, d: nat, lv: Level)
    requires |levels| == |lv0| && b <= d && d + 1 < |lv0| && levels[d + 1..] == lv0[d + 1..] && Indexed(lv0, b)
    requires LinkedTo(levels, b, d) && Recs(lv) == Heads(levels[d])
    ensures LinkedTo(levels[d + 1 := lv], b, d + 1)
    ensures Heads(lv) == Heads(lv0[d + 1]) ==> Indexed(levels[d + 1 := lv], b)
  {
    hide Recs, Heads;
    AboveSame(levels, lv0, d);
    var w := levels[d + 1 := lv];
    forall l | b <= l <= d ensures Recs(w[l + 1]) == Heads(w[l]) {
      if l < d { assert Recs(levels[l + 1]) == Heads(levels[l]); }
    }
    if Heads(lv) == Heads(lv0[d + 1]) {
      forall l | b <= l && l + 1 < |w| ensures Recs(w[l + 1]) == Heads(w[l]) {
        if l > d { assert Recs(lv0[l + 1]) == Heads(lv0[l]); }
      }
    }
  }

  lemma {:induction false} AllLevelsUpdate(n: nat, levels: LevelList, d: nat, lv: Level)
    requires AllLevelsOk(n, levels) && d < |levels| && LevelOk(n, lv)
    ensures AllLevelsOk(n, levels[d := lv])
  {
    hide LevelOk;
  }

  lemma {:induction false} RoomsMore(n: nat, levels: LevelList, b: nat, d: nat, lv: Level, key: int)
    requires d + 1 < |levels| && RoomsTo(n, levels, b, d, key) && RoomAt(n, lv, key)
    ensures RoomsTo(n, levels[d + 1 := lv], b, d + 1, key)
  {
    hide RoomAt;
  }

  /** The index record goes in without a split: nothing is left to do. */
  lemma {:induction false} StepInPage(n: nat, c: Job, levels: LevelList, p: Part, g': Growth)
    requires Rooted(n, c.lv0, c.b) && Pending(n, c, levels, p) && p.d + 1 < |c.lv0|
    requires levels[p.d + 1] == c.lv0[p.d + 1] && GrowthOk(n, c.lv0[p.d + 1], g', Due(p)) && g'.InPage?
    ensures Settled(n, c, levels[p.d + 1 := Grown(c.lv0[p.d + 1], g', Due(p))])
  {
    var lv := Grown(c.lv0[p.d + 1], g', Due(p));
    hide Recs, Heads, LevelOk, Covers, GrowthOk, Grown, RoomAt, Due, Indexed, LinkedTo, RoomsTo;
    StepIndexed(n, c, levels, p, g');
    BasedUpdate(n, c, levels, p.d + 1, lv);
    MendIndexed(levels, c.lv0, c.b, p.d, lv);
    AboveSame(levels, c.lv0, p.d);
  }

  /** The index record splits a page of level d + 1: that page's new half waits instead. */
  lemma {:induction false} StepBySplit(n: nat, c: Job, levels: LevelList, p: Part, g': Growth)
    requires Rooted(n, c.lv0, c.b) && Pending(n, c, levels, p) && p.d + 1 < |c.lv0|
    requires levels[p.d + 1] == c.lv0[p.d + 1] && GrowthOk(n, c.lv0[p.d + 1], g', Due(p)) && g'.Split?
    requires Covers(c.lv0[p.d + 1], g'.i, c.r.key) && Covers(c.lv0[p.d + 1], g'.i, c.key)
    ensures Pending(n, c, levels[p.d + 1 := Grown(c.lv0[p.d + 1], g', Due(p))], Part(p.d + 1, g', Due(p)))
  {
    var lv0, d, lv := c.lv0, p.d, Grown(c.lv0[p.d + 1], g', Due(p));
    StepIndexed(n, c, levels, p, g');
    BasedUpdate(n, c, levels, d + 1, lv);
    hide Recs, Heads, LevelOk, Covers, GrowthOk, Grown, RoomAt, Due, Indexed, LinkedTo, RoomsTo, Based, AllLevelsOk;
    AllLevelsUpdate(n, levels, d + 1, lv);
    RoomAfter(n, lv0[d + 1], g', Due(p), c.key);
    AboveSame(levels, lv0, d);
    assert levels[d + 1 := lv][d + 2..] == lv0[d + 2..];
    MendIndexed(levels, lv0, c.b, d, lv);
    RoomsMore(n, levels, c.b, d, lv, c.key);
  }

  // ---------- a split of the root ----------

  /** The index records of a chain, in its order. */
  ghost function HeadSeq(lv: Level): (s: seq<Rec>)
    ensures |s| == |lv| && forall i :: 0 <= i < |lv| ==> s[i] == Head(lv[i])
  {
    seq(|lv|, i requires 0 <= i < |lv| => Head(lv[i]))
  }

  /**
   The records of a new root over the first k nodes of a chain: as many as there are, or the
   node was full for the first record of the next one.
   */
  ghost predicate RootOver(n: nat, lv: Level, k: nat, recs: seq<Rec>) {
    && 0 < k <= |lv| && recs == HeadSeq(lv)[..k]
    && Bytes(recs) + FIXED <= n
    && (k < |lv| ==> lv[k].recs != [] && IsNodeFull(n, recs, lv[k].recs[0].rlen))
  }

  lemma {:induction false} RootPage(n: nat, lv: Level, newId: nat, k: nat, recs: seq<Rec>)
    requires NodeSizeOk(n) && LevelOk(n, lv) && newId != NO_NODE && RootOver(n, lv, k, recs)
    ensures PageOk(n, Page(newId, recs))
    ensures Recs([Page(newId, recs)]) == Heads(lv[..k])
  {
    assert forall i :: 0 <= i < k ==> lv[i].recs != [];
    hide ChainOk, Head;
    forall i | 0 <= i < k ensures RecOk(recs[i]) && recs[i].key == First(lv[i]) { HeadKey(n, lv, i); }
    forall i, j | 0 <= i < j < k ensures recs[i].key < recs[j].key { FirstsAscend(n, lv, i, j); }
    RecsOne(Page(newId, recs));
    SameHeads(lv, k, recs);
  }

  lemma {:induction false} SameHeads(lv: Level, k: nat, recs: seq<Rec>)
    requires k <= |lv| && recs == HeadSeq(lv)[..k]
    ensures RecSet(recs) == Heads(lv[..k])
  {
    forall r | r in Heads(lv[..k]) ensures r in RecSet(recs) {
      var i :| 0 <= i < k && r == Head(lv[..k][i]);
      assert recs[i] == r;
    }
    forall r | r in RecSet(recs) ensures r in Heads(lv[..k]) {
      var i :| 0 <= i < |recs| && recs[i] == r;
      assert lv[..k][i] == lv[i];
    }
  }

  /** Two index records fill no node, and leave room for another record. */
  lemma {:induction false} RootOfTwo(n: nat, lv: Level, k: nat, recs: seq<Rec>)
    requires NodeSizeOk(n) && LevelOk(n, lv) && |lv| <= 2 && k <= |lv| && recs == HeadSeq(lv)[..k]
    ensures Roomy(n, recs) && forall len :: 0 <= len <= MAX_REC_LEN ==> !IsNodeFull(n, recs, len)
  {
    forall i | 0 <= i < k ensures RecOk(recs[i]) { HeadKey(n, lv, i); }
    BytesBound(recs, k);
  }

  /** No index record is longer than the record it is made of; leaf records with a value of four bytes and index records are so. */
  ghost predicate ShortHeads(lv: Level) {
    forall i :: 0 <= i < |lv| ==> lv[i].recs != [] && Head(lv[i]).rlen <= lv[i].recs[0].rlen
  }

  /**
   The loop of build_new_root: one index record for every node of the top chain, until the node
   is full.  The test counts the length of the node's first record, not that of the index record.
   */
  method CollectRoot(n: nat, nodes: Nodes, root: nat, ghost lv: Level) returns (recs: seq<Rec>)
    requires NodeSizeOk(n) && LevelOk(n, lv) && Stored(nodes, lv) && root == lv[0].id
    requires |lv| == 2 || ShortHeads(lv)
    ensures RootOver(n, lv, |recs|, recs) && (|lv| == 2 ==> |recs| == 2)
  {
    hide LevelOk, Roomy, Stored, ShortHeads;
    recs := [];
    ghost var k := 0;
    var cur := root;
    LevelNonempty(n, lv);
    while cur != NO_NODE
      invariant 0 <= k <= |lv| && cur == (if k == |lv| then NO_NODE else lv[k].id)
      invariant k < |lv| ==> cur != NO_NODE
      invariant recs == HeadSeq(lv)[..k] && Bytes(recs) + FIXED <= n
      decreases |lv| - k
    {
      ChainPage(n, nodes, lv, k);
      var key := nodes[cur].recs[0];
      if |lv| == 2 { RootOfTwo(n, lv, k, recs); }
      EmptyHasRoom(n, recs);
      if IsNodeFull(n, recs, key.rlen) {
        break;
      }
      var r := Rec(key.key, key.klen, key.klen + INDEX_VALUE, cur);
      OneMoreHead(n, lv, k, recs, key.rlen);
      recs := recs + [r];
      cur := nodes[cur].next;
      k := k + 1;
    }
  }

  lemma {:induction false} LevelNonempty(n: nat, lv: Level)
    requires LevelOk(n, lv)
    ensures |lv| > 0 && lv[0].id != NO_NODE
  {
    assert PageOk(n, lv[0]);
  }

  lemma {:induction false} ChainPage(n: nat, nodes: Nodes, lv: Level, k: nat)
    requires LevelOk(n, lv) && Stored(nodes, lv) && k < |lv|
    ensures lv[k].id in nodes && nodes[lv[k].id].recs == lv[k].recs != [] && RecOk(lv[k].recs[0])
    ensures nodes[lv[k].id].next == if k + 1 < |lv| then lv[k + 1].id else NO_NODE
    ensures k + 1 < |lv| ==> lv[k + 1].id != NO_NODE
    ensures Head(lv[k]) == Rec(lv[k].recs[0].key, lv[k].recs[0].klen, lv[k].recs[0].klen + INDEX_VALUE, lv[k].id)
  {
    assert PageStored(nodes, lv, k) && PageOk(n, lv[k]);
    if k + 1 < |lv| { assert PageOk(n, lv[k + 1]); }
  }

  /** A node of the smallest size takes any first record. */
  lemma {:induction false} EmptyHasRoom(n: nat, recs: seq<Rec>)
    requires NodeSizeOk(n)
    ensures recs == [] ==> forall len :: 0 <= len <= MAX_REC_LEN ==> !IsNodeFull(n, recs, len)
  {
  }

  lemma {:induction false} OneMoreHead(n: nat, lv: Level, k: nat, recs: seq<Rec>, len: nat)
    requires NodeSizeOk(n) && LevelOk(n, lv) && k < |lv| && recs == HeadSeq(lv)[..k] && lv[k].recs != []
    requires len == lv[k].recs[0].rlen && !IsNodeFull(n, recs, len) && (|lv| == 2 || ShortHeads(lv))
    ensures recs + [Head(lv[k])] == HeadSeq(lv)[..k + 1] && Bytes(recs + [Head(lv[k])]) + FIXED <= n
  {
    BytesAppend(recs, Head(lv[k]));
    HeadKey(n, lv, k);
    if |lv| == 2 { RootOfTwo(n, lv, k, recs); }
  }

  /** At the top the pending split has left exactly two pages. */
  lemma {:induction false} TwoAtTop(n: nat, c: Job, levels: LevelList, p: Part)
    requires Rooted(n, c.lv0, c.b) && Pending(n, c, levels, p) && p.d + 1 == |c.lv0|
    ensures |levels[p.d]| == 2
  {
  }

  /** build_new_root on two pages: the tree is one level higher, and every page on the way has room. */
  lemma {:induction false} StepNewRoot(n: nat, c: Job, levels: LevelList, p: Part, newId: nat, recs: seq<Rec>)
    requires NodeSizeOk(n) && newId != NO_NODE
    requires Rooted(n, c.lv0, c.b) && Pending(n, c, levels, p) && p.d + 1 == |c.lv0|
    requires |levels[p.d]| == 2 && RootOver(n, levels[p.d], 2, recs)
    ensures Settled(n, c, levels + [[Page(newId, recs)]])
  {
    var q := Page(newId, recs);
    var w := levels + [[q]];
    assert LevelOk(n, levels[p.d]);
    RootOfTwo(n, levels[p.d], 2, recs);
    hide Recs, Heads, LevelOk, Covers, GrowthOk, Due;
    RootPage(n, levels[p.d], newId, 2, recs);
    assert levels[p.d][..2] == levels[p.d];
    assert LevelOk(n, [q]) && RoomAt(n, [q], c.key) by { OnePage(n, q, c.key); }
    hide RoomAt, RootOver;
    assert w[..c.b] == levels[..c.b];
    forall l | 0 <= l < |w| ensures LevelOk(n, w[l]) {
      if l < |levels| { assert w[l] == levels[l]; }
    }
    forall l | c.b <= l && l + 1 < |w| ensures Recs(w[l + 1]) == Heads(w[l]) {
      if l < p.d { assert Recs(levels[l + 1]) == Heads(levels[l]); }
    }
  }

  lemma {:induction false} OnePage(n: nat, q: Page, key: int)
    requires PageOk(n, q) && Roomy(n, q.recs)
    ensures LevelOk(n, [q]) && RoomAt(n, [q], key)
  {
  }
}
