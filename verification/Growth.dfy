/**
 One insertion into a level: either the record goes into the covering page, or that page is
 split.  Effects on the level, and on which pages have room.
 */
module GrowthOps {
  import opened Layout
  import opened Levels
  import opened LevelOps
  import opened IndexFacts
  import opened Bnode

  datatype Growth =
    | InPage(i: nat, pos: nat)
    | Split(i: nat, pos: nat, left: seq<Rec>, right: seq<Rec>, newId: nat)

  ghost predicate GrowthOk(n: nat, lv: Level, g: Growth, r: Rec) {
    && InsertPre(n, lv, g.i, g.pos, r)
    && (g.InPage? ==> Bytes(lv[g.i].recs) + r.rlen + SLOT + FIXED <= n)
    && (g.Split? ==>
          && SplitPre(n, lv, g.i, g.pos, r, g.left, g.right, g.newId)
          && |g.left| >= 2 && |g.right| >= 2
          && Roomy(n, g.left) && Roomy(n, g.right)
          && !Roomy(n, lv[g.i].recs))
  }

  ghost function Grown(lv: Level, g: Growth, r: Rec): Level
    requires g.i < |lv| && g.pos < |lv[g.i].recs|
  {
    match g
    case InPage(i, pos) => WithInsert(lv, i, pos, r)
    case Split(i, pos, left, right, newId) => WithSplit(lv, i, left, right, newId)
  }

  /** The split cuts behind the first record with which the count passes half a node; counted is what the new record counts. */
  ghost predicate CutAt(n: nat, lv: Level, g: Growth, counted: nat) {
    && g.Split? && g.i < |lv| && g.pos + 1 <= |lv[g.i].recs|
    && |g.left| == CutFrom(n, CountedLens(lv[g.i].recs, g.pos + 1, counted), 0)
  }

  ghost function NewPage(g: Growth): Page
    requires g.Split?
  {
    Page(g.newId, g.right)
  }

  lemma {:induction false} GrowthEffect(n: nat, lv: Level, g: Growth, r: Rec)
    requires GrowthOk(n, lv, g, r)
    ensures LevelOk(n, Grown(lv, g, r))
    ensures Recs(Grown(lv, g, r)) == Recs(lv) + {r}
    ensures Heads(Grown(lv, g, r)) == if g.InPage? then Heads(lv) else Heads(lv) + {Head(NewPage(g))}
    ensures Ids(Grown(lv, g, r)) == if g.InPage? then Ids(lv) else Ids(lv) + {g.newId}
  {
    match g
    case InPage(i, pos) => InsertOp(n, lv, i, pos, r);
    case Split(i, pos, left, right, newId) => SplitOp(n, lv, i, pos, r, left, right, newId);
  }

  /** The pages behind the place of an insertion are as before. */
  lemma {:induction false} Behind(lv: Level, g: Growth, r: Rec, j: nat)
    requires g.i < |lv| && g.pos < |lv[g.i].recs| && j < |Grown(lv, g, r)|
    requires j > g.i + if g.Split? then 1 else 0
    ensures var k := j - if g.Split? then 1 else 0; k < |lv| && Grown(lv, g, r)[j] == lv[k]
  {
  }

  /** A key that the page covered is afterwards covered by that page or by its new right half. */
  lemma {:induction false} CoverAfterGrowth(n: nat, lv: Level, g: Growth, r: Rec, key: int, x: nat)
    requires GrowthOk(n, lv, g, r) && LevelOk(n, Grown(lv, g, r))
    requires Covers(lv, g.i, key) && Covers(Grown(lv, g, r), x, key)
    ensures x == g.i || (g.Split? && x == g.i + 1)
  {
    SubFirst(n, lv, g, r);
    assert g.i < |lv| && g.pos < |lv[g.i].recs|;
    hide GrowthOk, LevelOk, Grown;
    if x > g.i + if g.Split? then 1 else 0 { Behind(lv, g, r, x); }
  }

  lemma {:induction false} SubFirst(n: nat, lv: Level, g: Growth, r: Rec)
    requires GrowthOk(n, lv, g, r)
    ensures g.i < |Grown(lv, g, r)| && Grown(lv, g, r)[g.i].recs != []
    ensures First(Grown(lv, g, r)[g.i]) == First(lv[g.i])
    ensures Grown(lv, g, r)[0].id == lv[0].id
    ensures g.Split? ==> Grown(lv, g, r)[g.i].recs == g.left && Grown(lv, g, r)[g.i + 1].recs == g.right
    ensures g.InPage? ==> |Grown(lv, g, r)[g.i].recs| == |lv[g.i].recs| + 1
  {
    match g
    case InPage(i, pos) =>
    case Split(i, pos, left, right, newId) => SplitMid(n, lv, i, pos, r, left, right, newId);
  }

  /** After a split, whatever page covers a key that the old page covered has room and two records. */
  lemma {:induction false} RoomAfterSplit(n: nat, lv: Level, g: Growth, r: Rec, key: int, x: nat)
    requires GrowthOk(n, lv, g, r) && LevelOk(n, Grown(lv, g, r))
    requires Covers(lv, g.i, key) && Covers(Grown(lv, g, r), x, key)
    ensures |Grown(lv, g, r)[x].recs| >= 2
    ensures g.Split? ==> Roomy(n, Grown(lv, g, r)[x].recs)
  {
    CoverAfterGrowth(n, lv, g, r, key, x);
    SubFirst(n, lv, g, r);
    assert PageOk(n, lv[g.i]);
  }

  /** The first key of the new right page lies in the range of the page that was split. */
  lemma {:induction false} NewPageCovered(n: nat, lv: Level, g: Growth, r: Rec)
    requires GrowthOk(n, lv, g, r) && g.Split?
    ensures g.right != [] && RecOk(g.right[0]) && RecOk(Head(NewPage(g)))
    ensures First(lv[g.i]) < Head(NewPage(g)).key && Covers(lv, g.i, Head(NewPage(g)).key)
    ensures Head(NewPage(g)) !in Heads(lv)
  {
    SplitMid(n, lv, g.i, g.pos, r, g.left, g.right, g.newId);
    assert ChainOk(n, [Page(lv[g.i].id, g.left), Page(g.newId, g.right)]);
    assert PageOk(n, [Page(lv[g.i].id, g.left), Page(g.newId, g.right)][1]);
    assert RecOk(g.right[0]);
    var key := g.right[0].key;
    assert PageOk(n, Page(g.newId, g.right)) && key <= g.right[|g.right| - 1].key;
    forall j | g.i < j < |lv| ensures key < First(lv[j]) {
      if j > g.i + 1 { FirstsAscend(n, lv, g.i + 1, j); }
    }
    forall j | 0 <= j < |lv| ensures Head(lv[j]) != Head(NewPage(g)) {
      assert lv[j].id in Ids(lv);
    }
  }
}
