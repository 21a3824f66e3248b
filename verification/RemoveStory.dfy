/**
 What a removal does to the levels, step by step: which page loses a record, whether the page is
 dropped, merged with a neighbour or, as a root, given up, and how that goes on one level up.
 */
module RemoveStory {
  import opened Layout
  import opened Levels
  import opened LevelOps
  import opened TreeState
  import opened InsertState
  import opened RemoveState

  /**
   A removal at one level: the page i had one record and leaves its chain, and the removal goes
   on above; or it loses the record at pos, and mid is the tree once the index is up to date.
   */
  datatype Story = Dropped(i: nat, rest: Story) | Deleted(i: nat, pos: nat, mid: LevelList, end: Ending)

  /** What becomes of a page that has lost a record: nothing, the root is given up, or pages j and j + 1 are merged. */
  datatype Ending = Kept | Collapsed | Merged(j: nat, rest: Story)

  /** Page i is in one of the pages j and j + 1, both under one parent, and the two fit into one; the left one first. */
  ghost predicate Joins(n: nat, upper: Level, lower: Level, i: nat, j: nat) {
    && (j == i || j + 1 == i) && j + 1 < |lower|
    && !Heading(upper, Head(lower[j + 1]).key)
    && (j == i ==> Heading(upper, Head(lower[i]).key))
    && FreeSpace(n, lower[j].recs) + FreeSpace(n, lower[j + 1].recs) >= n
  }

  ghost predicate HasPartner(n: nat, upper: Level, lower: Level, i: nat) {
    exists j: nat :: Joins(n, upper, lower, i, j)
  }

  /** The record at pos of page i of level b is gone, nothing else of the level or below, and all levels from b are indexed. */
  ghost predicate Reindexed(n: nat, lv0: LevelList, mid: LevelList, b: nat, i: nat, pos: nat) {
    && b < |lv0| && i < |lv0[b]| && pos < |lv0[b][i].recs|
    && b < |mid| && mid[..b] == lv0[..b] && mid[b] == WithDelete(lv0[b], i, pos)
    && Rooted(n, mid, b)
    && (pos > 0 || b + 1 == |lv0| ==> mid == lv0[b := mid[b]])
  }

  /** The removal of the key at level b leads from lv0, indexed from that level up, to lv. */
  ghost predicate Tells(n: nat, lv0: LevelList, lv: LevelList, b: nat, key: int, s: Story)
    decreases s
  {
    Rooted(n, lv0, b) && s.i < |lv0[b]| &&
    match s
    case Dropped(i, rest) =>
      && |lv0[b][i].recs| == 1 && lv0[b][i].recs[0].key == key
      && Tells(n, lv0[b := WithDrop(lv0[b], i)], lv, b + 1, key, rest)
    case Deleted(i, pos, mid, end) =>
      && |lv0[b][i].recs| > 1 && pos < |lv0[b][i].recs| && lv0[b][i].recs[pos].key == key
      && Reindexed(n, lv0, mid, b, i, pos)
      && Ends(n, mid, lv, b, i, end)
  }

  /** The page i of level b has lost a record; from mid on the tree becomes lv. */
  ghost predicate Ends(n: nat, mid: LevelList, lv: LevelList, b: nat, i: nat, e: Ending)
    decreases e
  {
    b < |mid| && i < |mid[b]| &&
    match e
    case Kept => lv == mid && !Shrinks(n, mid, b, i)
    case Collapsed => Shrinks(n, mid, b, i) && b + 1 == |mid| && lv == mid[..b]
    case Merged(j, rest) =>
      && Shrinks(n, mid, b, i) && b + 1 < |mid| && Joins(n, mid[b + 1], mid[b], i, j)
      && Tells(n, mid[b := WithMerge(mid[b], j)], lv, b + 1, Head(mid[b][j + 1]).key, rest)
  }

  /**
   The page has more than a third of a node free and is the root of a tree of several levels
   with a single record, or there is a neighbour to merge with.
   */
  ghost predicate Shrinks(n: nat, mid: LevelList, b: nat, i: nat)
    requires b < |mid| && i < |mid[b]|
  {
    && FreeSpace(n, mid[b][i].recs) > n / 3
    && if b + 1 == |mid| then b > 0 && |mid[b][i].recs| == 1
       else HasPartner(n, mid[b + 1], mid[b], i)
  }

  // ---------- the method's steps ----------

  /** A page that is not the first child of its parent can only be merged with its left neighbour. */
  lemma {:induction false} LeftPartner(n: nat, upper: Level, lower: Level, i: nat)
    requires 0 < i < |lower| && !Heading(upper, Head(lower[i]).key)
    ensures var fit := FreeSpace(n, lower[i].recs) + FreeSpace(n, lower[i - 1].recs) >= n;
            && (HasPartner(n, upper, lower, i) <==> fit) && (Joins(n, upper, lower, i, i - 1) <==> fit)
            && Rebalanced(n, upper, lower, i) == if fit then WithMerge(lower, i - 1) else lower
  {
    hide FreeSpace, WithMerge;
    if Joins(n, upper, lower, i, i - 1) { assert HasPartner(n, upper, lower, i); }
  }

  /** A first child can only be merged with its right neighbour, a child of the same parent. */
  lemma {:induction false} RightPartner(n: nat, upper: Level, lower: Level, i: nat)
    requires i + 1 < |lower| && Heading(upper, Head(lower[i]).key) && !Heading(upper, Head(lower[i + 1]).key)
    ensures var fit := FreeSpace(n, lower[i].recs) + FreeSpace(n, lower[i + 1].recs) >= n;
            && (HasPartner(n, upper, lower, i) <==> fit) && (Joins(n, upper, lower, i, i) <==> fit)
            && Rebalanced(n, upper, lower, i) == if fit then WithMerge(lower, i) else lower
  {
    hide FreeSpace, WithMerge;
    if Joins(n, upper, lower, i, i) { assert HasPartner(n, upper, lower, i); }
  }

  /** An only child is not merged. */
  lemma {:induction false} NoPartner(n: nat, upper: Level, lower: Level, i: nat)
    requires i < |lower| && Heading(upper, Head(lower[i]).key)
    requires i + 1 < |lower| ==> Heading(upper, Head(lower[i + 1]).key)
    ensures !HasPartner(n, upper, lower, i) && Rebalanced(n, upper, lower, i) == lower
  {
  }

  lemma {:induction false} EndsKept(n: nat, mid: LevelList, b: nat, i: nat)
    requires b + 1 < |mid| && i < |mid[b]| && !HasPartner(n, mid[b + 1], mid[b], i)
    ensures Ends(n, mid, mid, b, i, Kept)
  {
  }

  lemma {:induction false} EndsMerged(n: nat, mid: LevelList, lv: LevelList, b: nat, i: nat, j: nat, rest: Story)
    requires b + 1 < |mid| && i < |mid[b]| && FreeSpace(n, mid[b][i].recs) > n / 3 && Joins(n, mid[b + 1], mid[b], i, j)
    requires Tells(n, mid[b := WithMerge(mid[b], j)], lv, b + 1, Head(mid[b][j + 1]).key, rest)
    ensures Ends(n, mid, lv, b, i, Merged(j, rest))
  {
    assert HasPartner(n, mid[b + 1], mid[b], i);
  }

  lemma {:induction false} TellsDropped(n: nat, lv0: LevelList, lv: LevelList, b: nat, key: int, i: nat, rest: Story)
    requires Rooted(n, lv0, b) && i < |lv0[b]| && |lv0[b][i].recs| == 1 && lv0[b][i].recs[0].key == key
    requires Tells(n, lv0[b := WithDrop(lv0[b], i)], lv, b + 1, key, rest)
    ensures Tells(n, lv0, lv, b, key, Dropped(i, rest))
  {
  }

  lemma {:induction false} TellsDeleted(n: nat, lv0: LevelList, mid: LevelList, lv: LevelList, b: nat, key: int,
                                        i: nat, pos: nat, e: Ending)
    requires Rooted(n, lv0, b) && i < |lv0[b]| && |lv0[b][i].recs| > 1 && pos < |lv0[b][i].recs| && lv0[b][i].recs[pos].key == key
    requires Reindexed(n, lv0, mid, b, i, pos) && Ends(n, mid, lv, b, i, e)
    ensures Tells(n, lv0, lv, b, key, Deleted(i, pos, mid, e))
  {
  }

  // ---------- what follows of a removal ----------

  lemma {:induction false} Unfold(n: nat, lv0: LevelList, lv: LevelList, b: nat, key: int, s: Story)
    requires Tells(n, lv0, lv, b, key, s)
    ensures b < |lv0| && s.i < |lv0[b]|
    ensures s.Dropped? ==> Tells(n, lv0[b := WithDrop(lv0[b], s.i)], lv, b + 1, key, s.rest)
    ensures s.Deleted? ==> && b < |s.mid| && s.pos < |lv0[b][s.i].recs| && s.mid[..b] == lv0[..b]
                           && s.mid[b] == WithDelete(lv0[b], s.i, s.pos) && |s.mid[b]| == |lv0[b]|
    ensures s.Deleted? && s.end.Kept? ==> lv == s.mid
    ensures s.Deleted? && s.end.Collapsed? ==> lv == s.mid[..b]
    ensures s.Deleted? && s.end.Merged? ==>
              var j := s.end.j;
              && j + 1 < |s.mid[b]|
              && Tells(n, s.mid[b := WithMerge(s.mid[b], j)], lv, b + 1, Head(s.mid[b][j + 1]).key, s.end.rest)
  {
    hide Shrinks, FreeSpace, Heading, WithMerge, WithDrop, Head;
  }

  /** The levels below are not touched. */
  lemma {:induction false} StoryBelow(n: nat, lv0: LevelList, lv: LevelList, b: nat, key: int, s: Story)
    requires Tells(n, lv0, lv, b, key, s)
    ensures b <= |lv| && lv[..b] == lv0[..b]
    decreases s
  {
    hide Tells, WithDrop, WithMerge, WithDelete, Head;
    Unfold(n, lv0, lv, b, key, s);
    match s
    case Dropped(i, rest) =>
      var w := lv0[b := WithDrop(lv0[b], i)];
      StoryBelow(n, w, lv, b + 1, key, rest);
      SameBelow(w, lv, b);
      assert w[..b] == lv0[..b];
    case Deleted(i, pos, mid, end) =>
      if end.Merged? {
        var w := mid[b := WithMerge(mid[b], end.j)];
        StoryBelow(n, w, lv, b + 1, Head(mid[b][end.j + 1]).key, end.rest);
        SameBelow(w, lv, b);
        assert w[..b] == mid[..b];
      }
  }

  /** What the level itself becomes: the page is dropped, or loses the record and is merged if it can be. */
  lemma {:induction false} StoryLevel(n: nat, lv0: LevelList, lv: LevelList, b: nat, key: int, s: Story)
    requires Tells(n, lv0, lv, b, key, s)
    ensures b < |lv| || (b == |lv| && s.Deleted? && s.end.Collapsed?)
    ensures s.Dropped? ==> b < |lv| && lv[b] == WithDrop(lv0[b], s.i)
    ensures s.Deleted? && s.end.Kept? ==> lv[b] == WithDelete(lv0[b], s.i, s.pos)
    ensures s.Deleted? && s.end.Merged? ==> s.end.j + 1 < |lv0[b]| && lv[b] == WithMerge(WithDelete(lv0[b], s.i, s.pos), s.end.j)
  {
    hide Tells, WithDrop, WithMerge, WithDelete, Head;
    Unfold(n, lv0, lv, b, key, s);
    match s
    case Dropped(i, rest) =>
      var w := lv0[b := WithDrop(lv0[b], i)];
      StoryBelow(n, w, lv, b + 1, key, rest);
      SameBelow(w, lv, b);
    case Deleted(i, pos, mid, end) =>
      if end.Merged? {
        var w := mid[b := WithMerge(mid[b], end.j)];
        StoryBelow(n, w, lv, b + 1, Head(mid[b][end.j + 1]).key, end.rest);
        SameBelow(w, lv, b);
      }
  }

  /**
   After a removal of a record that is not the first of its page, the page and a neighbour under
   the same parent are one page exactly if the page then has more than a third of a node free and
   the free spaces of the two sum up to a node.
   */
  lemma {:induction false} MergedIff(n: nat, lv0: LevelList, lv: LevelList, b: nat, key: int, s: Story, j: nat)
    requires Tells(n, lv0, lv, b, key, s) && s.Deleted? && s.pos > 0 && b + 1 < |lv0|
    ensures var low := WithDelete(lv0[b], s.i, s.pos);
            s.i < |low| && (FreeSpace(n, low[s.i].recs) > n / 3 && Joins(n, lv0[b + 1], low, s.i, j)
                            <==> s.end.Merged? && s.end.j == j)
    ensures b < |lv| && (s.end.Merged? ==> s.end.j + 1 < |lv0[b]|)
    ensures lv[b] == if s.end.Merged? then WithMerge(WithDelete(lv0[b], s.i, s.pos), s.end.j) else WithDelete(lv0[b], s.i, s.pos)
  {
    StoryLevel(n, lv0, lv, b, key, s);
    assert s.mid[b + 1] == lv0[b + 1];
    var low := s.mid[b];
    if Joins(n, lv0[b + 1], low, s.i, j) { assert HasPartner(n, lv0[b + 1], low, s.i); }
  }

  /** A page with a single record has more than a third of a node free. */
  lemma {:induction false} OneRecordFree(n: nat, r: Rec)
    requires NodeSizeOk(n) && RecOk(r)
    ensures FreeSpace(n, [r]) > n / 3
  {
    assert BytesTo([r], 0) == 0;
    assert BytesTo([r], 1) == r.rlen + SLOT;
  }

  /** A root above the leaves that is kept has at least two records. */
  lemma {:induction false} KeptRoot(n: nat, mid: LevelList, b: nat, i: nat)
    requires NodeSizeOk(n) && Rooted(n, mid, b) && b > 0 && b + 1 == |mid| && i < |mid[b]|
    ensures i == 0 && |mid[b]| == 1 && |mid[b][0].recs| >= 1
    ensures Shrinks(n, mid, b, 0) <==> |mid[b][0].recs| == 1
  {
    assert LevelOk(n, mid[b]) && PageOk(n, mid[b][0]);
    if |mid[b][0].recs| == 1 {
      assert mid[b][0].recs == [mid[b][0].recs[0]];
      OneRecordFree(n, mid[b][0].recs[0]);
    }
  }

  /**
   A removal at the top level of a tree of several levels leaves a root with at least two
   records, or the level is given up.
   */
  lemma {:induction false} RootHasTwo(n: nat, lv0: LevelList, lv: LevelList, b: nat, key: int, s: Story)
    requires NodeSizeOk(n) && Tells(n, lv0, lv, b, key, s) && b > 0 && b + 1 == |lv0|
    ensures s.Deleted? && |lv0[b]| == 1
    ensures |lv| == if |lv0[b][0].recs| == 2 then b else b + 1
    ensures |lv0[b][0].recs| == 2 ==> lv == lv0[..b]
    ensures |lv0[b][0].recs| > 2 ==> |lv[b]| == 1 && |lv[b][0].recs| == |lv0[b][0].recs| - 1
  {
    assert s.Deleted?;
    var low := s.mid[b];
    KeptRoot(n, s.mid, b, s.i);
    assert low[0].recs == DeleteAt(lv0[b][0].recs, s.pos);
    assert |low| == |lv0[b]|;
  }

  /** The level at which a removal that starts at level b comes to its end. */
  ghost function Tip(b: nat, s: Story): (t: nat)
    ensures b <= t
    decreases s
  {
    match s
    case Dropped(_, rest) => Tip(b + 1, rest)
    case Deleted(_, _, _, end) => if end.Merged? then Tip(b + 1, end.rest) else b
  }

  /**
   Over a whole removal: a level above the leaves that the removal reaches last is given up, or if it
   is the top one, its root has at least two records.
   */
  lemma {:induction false} TopAfter(n: nat, lv0: LevelList, lv: LevelList, b: nat, key: int, s: Story)
    requires NodeSizeOk(n) && Tells(n, lv0, lv, b, key, s)
    ensures var t := Tip(b, s);
            && t <= |lv|
            && (t + 1 == |lv| && t > 0 ==> |lv[t]| == 1 && |lv[t][0].recs| >= 2)
            && (t == |lv| ==> t > 0)
    decreases s
  {
    match s
    case Dropped(i, rest) => TopAfter(n, lv0[b := WithDrop(lv0[b], i)], lv, b + 1, key, rest);
    case Deleted(i, pos, mid, end) =>
      if end.Merged? {
        TopAfter(n, mid[b := WithMerge(mid[b], end.j)], lv, b + 1, Head(mid[b][end.j + 1]).key, end.rest);
      } else if b + 1 == |mid| && b > 0 {
        KeptRoot(n, mid, b, i);
      }
  }
}
