/**
 What inserting, splitting, deleting, unlinking and merging do to a level:
 the chain stays ordered, and the records and heads change by exactly one element.
 */
module LevelOps {
  import opened Layout
  import opened Levels

  /** The record at pos has the greatest key that is not above key. */
  predicate FloorAt(s: seq<Rec>, pos: nat, key: int) {
    && pos < |s|
    && s[pos].key <= key
    && forall k :: pos < k < |s| ==> key < s[k].key
  }

  /** Page i is where key belongs: the last page that does not start above key. */
  predicate Covers(lv: Level, i: nat, key: int)
    requires Nonempty(lv)
  {
    && i < |lv|
    && First(lv[i]) <= key
    && forall j :: i < j < |lv| ==> key < First(lv[j])
  }

  /** The floor inside the covering page is the floor of the whole level. */
  lemma {:induction false} FloorIsGlobal(n: nat, lv: Level, i: nat, pos: nat, key: int)
    requires LevelOk(n, lv) && Covers(lv, i, key) && FloorAt(lv[i].recs, pos, key)
    ensures lv[i].recs[pos] in Recs(lv)
    ensures forall r :: r in Recs(lv) && r.key <= key ==> r.key <= lv[i].recs[pos].key
  {
    assert lv[i].recs[pos] in lv[i].recs;
    forall r | r in Recs(lv) && r.key <= key ensures r.key <= lv[i].recs[pos].key {
      var a :| 0 <= a < |lv| && r in lv[a].recs;
      FloorOver(n, lv, i, pos, key, a, r);
    }
  }

  lemma {:induction false} FloorOver(n: nat, lv: Level, i: nat, pos: nat, key: int, a: nat, r: Rec)
    requires ChainOk(n, lv) && Nonempty(lv) && Covers(lv, i, key) && FloorAt(lv[i].recs, pos, key)
    requires a < |lv| && r in lv[a].recs && r.key <= key
    ensures r.key <= lv[i].recs[pos].key
  {
    assert PageOk(n, lv[i]) && lv[i].recs[pos] in lv[i].recs;
    hide ChainOk, PageOk;
    KeysWithin(n, lv, a, r);
    if a < i {
      KeysAscend(n, lv, a, i, r, lv[i].recs[pos]);
    } else if a == i {
      var k :| 0 <= k < |lv[i].recs| && lv[i].recs[k] == r;
    }
  }

  lemma {:induction false} KeysAscend(n: nat, lv: Level, a: nat, b: nat, r: Rec, q: Rec)
    requires ChainOk(n, lv) && a < b < |lv| && r in lv[a].recs && q in lv[b].recs
    ensures r.key < q.key
  {
    KeysWithin(n, lv, a, r);
    KeysWithin(n, lv, b, q);
    assert Before(lv[a], lv[b]);
  }

  lemma {:induction false} KeyUniqueInPage(s: seq<Rec>, r: Rec, q: Rec)
    requires SortedRecs(s) && r in s && q in s && r.key == q.key
    ensures r == q
  {
    var x :| 0 <= x < |s| && s[x] == r;
    var y :| 0 <= y < |s| && s[y] == q;
  }

  /** A key occurs at most once in a level. */
  lemma {:induction false} KeyUnique(n: nat, lv: Level, r: Rec, q: Rec)
    requires ChainOk(n, lv) && r in Recs(lv) && q in Recs(lv) && r.key == q.key
    ensures r == q
  {
    var a :| 0 <= a < |lv| && r in lv[a].recs;
    var b :| 0 <= b < |lv| && q in lv[b].recs;
    if a < b {
      KeysAscend(n, lv, a, b, r, q);
    } else if b < a {
      KeysAscend(n, lv, b, a, q, r);
    } else {
      assert PageOk(n, lv[a]);
      KeyUniqueInPage(lv[a].recs, r, q);
    }
  }

  /** A page whose keys stay inside [First, next page's First) fits where a run of pages was. */
  lemma {:induction false} FitsBetween(n: nat, lv: Level, i: nat, j: nat, mid: Level)
    requires ChainOk(n, lv) && i < j <= |lv| && ChainOk(n, mid)
    requires forall x :: 0 <= x < |mid| ==> First(lv[i]) <= First(mid[x])
    requires forall x :: 0 <= x < |mid| ==> (j < |lv| ==> Last(mid[x]) < First(lv[j]))
    requires forall x :: 0 <= x < |mid| ==> mid[x].id !in Ids(lv[..i]) + Ids(lv[j..])
    ensures ChainOk(n, Splice(lv, i, j, mid))
  {
    forall x, y | 0 <= x < |lv[..i]| && 0 <= y < |mid| ensures Before(lv[..i][x], mid[y]) {
      assert Before(lv[x], lv[i]);
      assert lv[..i][x].id in Ids(lv[..i]);
    }
    forall x, y | 0 <= x < |mid| && 0 <= y < |lv[j..]| ensures Before(mid[x], lv[j..][y]) {
      assert lv[j..][y].id in Ids(lv[j..]);
      assert First(lv[j]) <= First(lv[j + y]) by {
        if y > 0 { assert Before(lv[j], lv[j + y]); assert PageOk(n, lv[j]); }
      }
    }
    SpliceChain(n, lv, i, j, mid);
  }

  /** One page rewritten in place: only its own records and its own head change. */
  lemma {:induction false} ReplaceChain(n: nat, lv: Level, i: nat, q: Page)
    requires LevelOk(n, lv) && i < |lv| && PageOk(n, q) && q.id == lv[i].id
    requires First(lv[i]) <= First(q)
    requires i + 1 < |lv| ==> Last(q) < First(lv[i + 1])
    ensures LevelOk(n, Splice(lv, i, i + 1, [q]))
    ensures Ids(Splice(lv, i, i + 1, [q])) == Ids(lv)
  {
    assert lv[i..i + 1] == [lv[i]];
    IdsOne(lv[i]);
    IdsOne(q);
    IdsParts(n, lv, i, i + 1);
    FitsBetween(n, lv, i, i + 1, [q]);
    IdsEffect(n, lv, i, i + 1, [q], {}, {});
  }

  lemma {:induction false} ReplaceRecs(n: nat, lv: Level, i: nat, q: Page, del: set<Rec>, add: set<Rec>)
    requires LevelOk(n, lv) && i < |lv| && q.recs != []
    requires del <= RecSet(lv[i].recs) && RecSet(q.recs) == RecSet(lv[i].recs) - del + add
    ensures Recs(Splice(lv, i, i + 1, [q])) == Recs(lv) - del + add
  {
    assert lv[i..i + 1] == [lv[i]];
    RecsOne(lv[i]);
    RecsOne(q);
    RecsEffect(n, lv, i, i + 1, [q], del, add);
  }

  lemma {:induction false} ReplaceHeads(n: nat, lv: Level, i: nat, q: Page)
    requires LevelOk(n, lv) && i < |lv| && q.recs != []
    ensures Heads(Splice(lv, i, i + 1, [q])) == Heads(lv) - {Head(lv[i])} + {Head(q)}
  {
    assert lv[i..i + 1] == [lv[i]];
    HeadsOne(lv[i]);
    HeadsOne(q);
    HeadsEffect(n, lv, i, i + 1, [q], {Head(lv[i])}, {Head(q)});
  }

  lemma {:induction false} SameHeads(n: nat, lv: Level, i: nat, q: Page)
    requires LevelOk(n, lv) && i < |lv| && q.recs != [] && Head(q) == Head(lv[i])
    ensures Heads(Splice(lv, i, i + 1, [q])) == Heads(lv)
  {
    ReplaceHeads(n, lv, i, q);
    HeadOf(n, lv, i);
  }

  lemma {:induction false} HeadOf(n: nat, lv: Level, i: nat)
    requires LevelOk(n, lv) && i < |lv|
    ensures Head(lv[i]) in Heads(lv)
  {
  }

  // ---------- insertion without a split ----------

  lemma {:induction false} InsertSorted(s: seq<Rec>, pos: nat, r: Rec)
    requires SortedRecs(s) && FloorAt(s, pos, r.key) && s[pos].key < r.key
    ensures SortedRecs(InsertAt(s, pos + 1, r))
    ensures RecSet(InsertAt(s, pos + 1, r)) == RecSet(s) + {r}
    ensures InsertAt(s, pos + 1, r)[0] == s[0]
  {
    var t := InsertAt(s, pos + 1, r);
    forall i, j | 0 <= i < j < |t| ensures t[i].key < t[j].key {
    }
    assert s == s[..pos + 1] + s[pos + 1..];
  }

  lemma {:induction false} LastOfInsert(n: nat, lv: Level, i: nat, pos: nat, r: Rec)
    requires LevelOk(n, lv) && Covers(lv, i, r.key) && FloorAt(lv[i].recs, pos, r.key)
    ensures var t := InsertAt(lv[i].recs, pos + 1, r);
            i + 1 < |lv| ==> forall k :: 0 <= k < |t| ==> t[k].key < First(lv[i + 1])
  {
    var s := lv[i].recs;
    var t := InsertAt(s, pos + 1, r);
    if i + 1 < |lv| {
      assert Before(lv[i], lv[i + 1]);
      forall k | 0 <= k < |t| ensures t[k].key < First(lv[i + 1]) {
        if t[k] != r {
          assert t[k] in s;
          KeysWithin(n, lv, i, t[k]);
        }
      }
    }
  }

  ghost predicate InsertPre(n: nat, lv: Level, i: nat, pos: nat, r: Rec) {
    && LevelOk(n, lv) && RecOk(r)
    && Covers(lv, i, r.key)
    && FloorAt(lv[i].recs, pos, r.key)
    && lv[i].recs[pos].key < r.key
  }

  ghost function WithInsert(lv: Level, i: nat, pos: nat, r: Rec): Level
    requires i < |lv| && pos < |lv[i].recs|
  {
    Splice(lv, i, i + 1, [Page(lv[i].id, InsertAt(lv[i].recs, pos + 1, r))])
  }

  lemma {:induction false} InsertOp(n: nat, lv: Level, i: nat, pos: nat, r: Rec)
    requires InsertPre(n, lv, i, pos, r)
    requires Bytes(lv[i].recs) + r.rlen + SLOT + FIXED <= n
    ensures LevelOk(n, WithInsert(lv, i, pos, r))
    ensures Recs(WithInsert(lv, i, pos, r)) == Recs(lv) + {r}
    ensures Heads(WithInsert(lv, i, pos, r)) == Heads(lv)
    ensures Ids(WithInsert(lv, i, pos, r)) == Ids(lv)
  {
    hide InsertPre, ChainOk, PageOk, Recs, Heads, Ids, RecSet, InsertAt, Bytes;
    InsertedPage(n, lv, i, pos, r);
    var q := Page(lv[i].id, InsertAt(lv[i].recs, pos + 1, r));
    ReplaceChain(n, lv, i, q);
    ReplaceRecs(n, lv, i, q, {}, {r});
    SameHeads(n, lv, i, q);
  }

  /** The page with the new record: a good one, with the same first record and the keys of its range. */
  lemma {:induction false} InsertedPage(n: nat, lv: Level, i: nat, pos: nat, r: Rec)
    requires InsertPre(n, lv, i, pos, r)
    requires Bytes(lv[i].recs) + r.rlen + SLOT + FIXED <= n
    ensures LevelOk(n, lv) && i < |lv| && pos < |lv[i].recs|
    ensures var q := Page(lv[i].id, InsertAt(lv[i].recs, pos + 1, r));
            && PageOk(n, q) && q.recs != [] && lv[i].recs != [] && First(q) == First(lv[i]) && Head(q) == Head(lv[i])
            && RecSet(q.recs) == RecSet(lv[i].recs) - {} + {r}
            && (i + 1 < |lv| ==> lv[i + 1].recs != [] && Last(q) < First(lv[i + 1]))
  {
    hide ChainOk, InsertAt, RecSet, SortedRecs, RecsOk, Bytes;
    SplitSource(n, lv, i, pos, r);
    BytesInsert(lv[i].recs, pos + 1, r);
    var t := InsertAt(lv[i].recs, pos + 1, r);
    GoodPage(n, lv[i].id, t);
    assert RecSet(lv[i].recs) - {} + {r} == RecSet(lv[i].recs) + {r};
  }

  lemma {:induction false} GoodPage(n: nat, id: nat, t: seq<Rec>)
    requires id != NO_NODE && t != [] && SortedRecs(t) && RecsOk(t) && Bytes(t) + FIXED <= n
    ensures PageOk(n, Page(id, t)) && First(Page(id, t)) == t[0].key && Last(Page(id, t)) == t[|t| - 1].key
  {
  }

  // ---------- insertion with a split ----------

  ghost function WithSplit(lv: Level, i: nat, left: seq<Rec>, right: seq<Rec>, newId: nat): Level
    requires i < |lv|
  {
    Splice(lv, i, i + 1, [Page(lv[i].id, left), Page(newId, right)])
  }

  lemma {:induction false} SplitPages(n: nat, p: Page, t: seq<Rec>, left: seq<Rec>, right: seq<Rec>, newId: nat)
    requires p.id != NO_NODE && newId != NO_NODE && newId != p.id
    requires SortedRecs(t) && RecsOk(t) && t == left + right && left != [] && right != []
    requires Bytes(left) + FIXED <= n && Bytes(right) + FIXED <= n
    ensures ChainOk(n, [Page(p.id, left), Page(newId, right)])
    ensures RecSet(t) == RecSet(left) + RecSet(right)
  {
    assert forall k :: 0 <= k < |left| ==> left[k] == t[k];
    assert forall k :: 0 <= k < |right| ==> right[k] == t[|left| + k];
    var l, r := Page(p.id, left), Page(newId, right);
    assert PageOk(n, l) && PageOk(n, r) && Before(l, r);
  }

  lemma {:induction false} TwoPages(l: Page, r: Page)
    ensures Recs([l, r]) == RecSet(l.recs) + RecSet(r.recs)
    ensures Heads([l, r]) == {Head(l), Head(r)}
    ensures Ids([l, r]) == {l.id, r.id}
  {
    assert [l, r] == [l] + [r];
    RecsConcat([l], [r]);
    HeadsConcat([l], [r]);
    IdsConcat([l], [r]);
    RecsOne(l);
    RecsOne(r);
    HeadsOne(l);
    HeadsOne(r);
    IdsOne(l);
    IdsOne(r);
  }

  ghost predicate SplitPre(n: nat, lv: Level, i: nat, pos: nat, r: Rec,
                           left: seq<Rec>, right: seq<Rec>, newId: nat) {
    && InsertPre(n, lv, i, pos, r)
    && left + right == InsertAt(lv[i].recs, pos + 1, r)
    && left != [] && right != []
    && Bytes(left) + FIXED <= n && Bytes(right) + FIXED <= n
    && newId != NO_NODE && newId !in Ids(lv)
  }

  /** What the page to be split and the new record give: sorted records that stay below the next page. */
  lemma {:induction false} SplitSource(n: nat, lv: Level, i: nat, pos: nat, r: Rec)
    requires InsertPre(n, lv, i, pos, r)
    ensures lv[i].id != NO_NODE && lv[i].id in Ids(lv) && lv[i].recs != []
    ensures var t := InsertAt(lv[i].recs, pos + 1, r);
            && |t| == |lv[i].recs| + 1 && t[0] == lv[i].recs[0] && SortedRecs(t) && RecsOk(t)
            && RecSet(t) == RecSet(lv[i].recs) + {r}
            && (i + 1 < |lv| ==> lv[i + 1].recs != [] && t[|t| - 1].key < First(lv[i + 1]))
  {
    var p := lv[i];
    assert PageOk(n, p);
    LastOfInsert(n, lv, i, pos, r);
    InsertSorted(p.recs, pos, r);
  }

  /** The two halves of sorted records, at their ends. */
  lemma {:induction false} HalvesEnds(t: seq<Rec>, left: seq<Rec>, right: seq<Rec>)
    requires SortedRecs(t) && t == left + right && left != [] && right != []
    ensures left[0] == t[0] && t[0].key < right[0].key
    ensures left[|left| - 1].key < t[|t| - 1].key && right[|right| - 1] == t[|t| - 1]
  {
    assert t[|left|] == right[0] && left[|left| - 1] == t[|left| - 1];
  }

  lemma {:induction false} SplitMid(n: nat, lv: Level, i: nat, pos: nat, r: Rec,
                                    left: seq<Rec>, right: seq<Rec>, newId: nat)
    requires SplitPre(n, lv, i, pos, r, left, right, newId)
    ensures ChainOk(n, [Page(lv[i].id, left), Page(newId, right)])
    ensures RecSet(left) + RecSet(right) == RecSet(lv[i].recs) + {r}
    ensures left[0] == lv[i].recs[0]
    ensures First(lv[i]) < right[0].key
    ensures i + 1 < |lv| ==> left[|left| - 1].key < First(lv[i + 1])
    ensures i + 1 < |lv| ==> right[|right| - 1].key < First(lv[i + 1])
  {
    SplitSource(n, lv, i, pos, r);
    var t := InsertAt(lv[i].recs, pos + 1, r);
    hide LevelOk, Ids, RecSet, Bytes, ChainOk, InsertAt, SortedRecs, RecsOk;
    HalvesEnds(t, left, right);
    SplitPages(n, lv[i], t, left, right, newId);
  }

  lemma {:induction false} SplitChain(n: nat, lv: Level, i: nat, left: seq<Rec>, right: seq<Rec>, newId: nat)
    requires LevelOk(n, lv) && i < |lv| && newId !in Ids(lv)
    requires left != [] && right != [] && ChainOk(n, [Page(lv[i].id, left), Page(newId, right)])
    requires left[0] == lv[i].recs[0] && First(lv[i]) < right[0].key
    requires i + 1 < |lv| ==> left[|left| - 1].key < First(lv[i + 1])
    requires i + 1 < |lv| ==> right[|right| - 1].key < First(lv[i + 1])
    ensures LevelOk(n, WithSplit(lv, i, left, right, newId))
  {
    var p := lv[i];
    var mid := [Page(p.id, left), Page(newId, right)];
    assert mid[0].recs == left && mid[1].recs == right;
    assert lv[i..i + 1] == [p];
    IdsOne(p);
    IdsParts(n, lv, i, i + 1);
    FitsBetween(n, lv, i, i + 1, mid);
  }

  lemma {:induction false} SplitRecs(n: nat, lv: Level, i: nat, left: seq<Rec>, right: seq<Rec>, newId: nat, r: Rec)
    requires LevelOk(n, lv) && i < |lv|
    requires RecSet(left) + RecSet(right) == RecSet(lv[i].recs) + {r}
    ensures Recs(WithSplit(lv, i, left, right, newId)) == Recs(lv) + {r}
  {
    assert lv[i..i + 1] == [lv[i]];
    RecsOne(lv[i]);
    var mid := [Page(lv[i].id, left), Page(newId, right)];
    TwoPages(mid[0], mid[1]);
    RecsEffect(n, lv, i, i + 1, mid, {}, {r});
  }

  lemma {:induction false} SplitHeads(n: nat, lv: Level, i: nat, left: seq<Rec>, right: seq<Rec>, newId: nat)
    requires LevelOk(n, lv) && i < |lv| && left != [] && left[0] == lv[i].recs[0]
    ensures Heads(WithSplit(lv, i, left, right, newId)) == Heads(lv) + {Head(Page(newId, right))}
  {
    assert lv[i..i + 1] == [lv[i]];
    HeadsOne(lv[i]);
    var mid := [Page(lv[i].id, left), Page(newId, right)];
    TwoPages(mid[0], mid[1]);
    HeadsEffect(n, lv, i, i + 1, mid, {}, {Head(Page(newId, right))});
  }

  lemma {:induction false} SplitIds(n: nat, lv: Level, i: nat, left: seq<Rec>, right: seq<Rec>, newId: nat)
    requires LevelOk(n, lv) && i < |lv|
    ensures Ids(WithSplit(lv, i, left, right, newId)) == Ids(lv) + {newId}
  {
    assert lv[i..i + 1] == [lv[i]];
    IdsOne(lv[i]);
    var mid := [Page(lv[i].id, left), Page(newId, right)];
    TwoPages(mid[0], mid[1]);
    IdsEffect(n, lv, i, i + 1, mid, {}, {newId});
  }

  lemma {:induction false} SplitOp(n: nat, lv: Level, i: nat, pos: nat, r: Rec,
                                   left: seq<Rec>, right: seq<Rec>, newId: nat)
    requires SplitPre(n, lv, i, pos, r, left, right, newId)
    ensures LevelOk(n, WithSplit(lv, i, left, right, newId))
    ensures Recs(WithSplit(lv, i, left, right, newId)) == Recs(lv) + {r}
    ensures Heads(WithSplit(lv, i, left, right, newId)) == Heads(lv) + {Head(Page(newId, right))}
    ensures Ids(WithSplit(lv, i, left, right, newId)) == Ids(lv) + {newId}
  {
    SplitMid(n, lv, i, pos, r, left, right, newId);
    SplitChain(n, lv, i, left, right, newId);
    SplitRecs(n, lv, i, left, right, newId, r);
    SplitHeads(n, lv, i, left, right, newId);
    SplitIds(n, lv, i, left, right, newId);
  }

  // ---------- deletion that leaves the page nonempty ----------

  lemma {:induction false} DeleteSorted(s: seq<Rec>, pos: nat)
    requires SortedRecs(s) && pos < |s|
    ensures SortedRecs(DeleteAt(s, pos))
    ensures RecSet(DeleteAt(s, pos)) == RecSet(s) - {s[pos]}
  {
    var t := DeleteAt(s, pos);
    forall r | r in RecSet(s) - {s[pos]} ensures r in t {
      var k :| 0 <= k < |s| && s[k] == r;
      assert if k < pos then t[k] == r else t[k - 1] == r;
    }
  }

  ghost function WithDelete(lv: Level, i: nat, pos: nat): Level
    requires i < |lv| && pos < |lv[i].recs|
  {
    Splice(lv, i, i + 1, [Page(lv[i].id, DeleteAt(lv[i].recs, pos))])
  }

  lemma {:induction false} DeleteOp(n: nat, lv: Level, i: nat, pos: nat)
    requires LevelOk(n, lv) && i < |lv| && pos < |lv[i].recs| && |lv[i].recs| > 1
    ensures LevelOk(n, WithDelete(lv, i, pos))
    ensures Recs(WithDelete(lv, i, pos)) == Recs(lv) - {lv[i].recs[pos]}
    ensures Heads(WithDelete(lv, i, pos)) ==
            Heads(lv) - {Head(lv[i])} + {Head(Page(lv[i].id, DeleteAt(lv[i].recs, pos)))}
    ensures pos > 0 ==> Heads(WithDelete(lv, i, pos)) == Heads(lv)
    ensures Ids(WithDelete(lv, i, pos)) == Ids(lv)
  {
    var p := lv[i];
    var q := Page(p.id, DeleteAt(p.recs, pos));
    assert PageOk(n, p);
    DeleteSorted(p.recs, pos);
    BytesDelete(p.recs, pos);
    assert PageOk(n, q);
    if i + 1 < |lv| { assert Before(lv[i], lv[i + 1]); }
    ReplaceChain(n, lv, i, q);
    ReplaceRecs(n, lv, i, q, {p.recs[pos]}, {});
    ReplaceHeads(n, lv, i, q);
    if pos > 0 { SameHeads(n, lv, i, q); }
  }

  // ---------- a new value in place ----------

  function Revalued(s: seq<Rec>, pos: nat, v: nat): (t: seq<Rec>)
    requires pos < |s|
    ensures |t| == |s|
  {
    s[pos := s[pos].(val := v)]
  }

  lemma {:induction false} RevaluedRecs(s: seq<Rec>, pos: nat, v: nat)
    requires SortedRecs(s) && RecsOk(s) && pos < |s|
    ensures SortedRecs(Revalued(s, pos, v)) && RecsOk(Revalued(s, pos, v))
    ensures RecSet(Revalued(s, pos, v)) == RecSet(s) - {s[pos]} + {s[pos].(val := v)}
    ensures Bytes(Revalued(s, pos, v)) == Bytes(s)
  {
    var t := Revalued(s, pos, v);
    SameBytes(s, t, |s|);
    forall r | r in RecSet(s) - {s[pos]} + {s[pos].(val := v)} ensures r in t {
      if r == s[pos].(val := v) {
        assert t[pos] == r;
      } else {
        var k :| 0 <= k < |s| && s[k] == r;
        assert t[k] == r;
      }
    }
  }

  lemma {:induction false} SameBytes(s: seq<Rec>, t: seq<Rec>, k: nat)
    requires k <= |s| == |t| && forall i :: 0 <= i < |s| ==> s[i].rlen == t[i].rlen
    ensures BytesTo(s, k) == BytesTo(t, k)
  {
    if k > 0 { SameBytes(s, t, k - 1); }
  }

  ghost function WithValue(lv: Level, i: nat, pos: nat, v: nat): Level
    requires i < |lv| && pos < |lv[i].recs|
  {
    Splice(lv, i, i + 1, [Page(lv[i].id, Revalued(lv[i].recs, pos, v))])
  }

  lemma {:induction false} ValueOp(n: nat, lv: Level, i: nat, pos: nat, v: nat)
    requires LevelOk(n, lv) && i < |lv| && pos < |lv[i].recs|
    ensures LevelOk(n, WithValue(lv, i, pos, v))
    ensures Recs(WithValue(lv, i, pos, v)) == Recs(lv) - {lv[i].recs[pos]} + {lv[i].recs[pos].(val := v)}
    ensures Heads(WithValue(lv, i, pos, v)) == Heads(lv)
    ensures Ids(WithValue(lv, i, pos, v)) == Ids(lv)
  {
    var p := lv[i];
    var q := Page(p.id, Revalued(p.recs, pos, v));
    assert PageOk(n, p);
    RevaluedRecs(p.recs, pos, v);
    assert PageOk(n, q) && First(q) == First(p) && Last(q) == Last(p) && Head(q) == Head(p);
    if i + 1 < |lv| { assert Before(lv[i], lv[i + 1]); }
    hide ChainOk, PageOk, Recs, Heads, Ids, RecSet, SortedRecs, RecsOk, Bytes;
    ReplaceChain(n, lv, i, q);
    ReplaceRecs(n, lv, i, q, {p.recs[pos]}, {p.recs[pos].(val := v)});
    SameHeads(n, lv, i, q);
  }

  // ---------- unlinking a page whose only record goes away ----------

  ghost function WithDrop(lv: Level, i: nat): Level
    requires i < |lv|
  {
    Splice(lv, i, i + 1, [])
  }

  lemma {:induction false} DropOp(n: nat, lv: Level, i: nat)
    requires LevelOk(n, lv) && i < |lv| && |lv| > 1 && |lv[i].recs| == 1
    ensures LevelOk(n, WithDrop(lv, i))
    ensures Recs(WithDrop(lv, i)) == Recs(lv) - {lv[i].recs[0]}
    ensures Heads(WithDrop(lv, i)) == Heads(lv) - {Head(lv[i])}
    ensures Ids(WithDrop(lv, i)) == Ids(lv) - {lv[i].id}
  {
    var p := lv[i];
    assert lv[i..i + 1] == [p];
    IdsOne(p);
    RecsOne(p);
    HeadsOne(p);
    assert RecSet(p.recs) == {p.recs[0]};
    FitsBetween(n, lv, i, i + 1, []);
    RecsEffect(n, lv, i, i + 1, [], {p.recs[0]}, {});
    HeadsEffect(n, lv, i, i + 1, [], {Head(p)}, {});
    IdsEffect(n, lv, i, i + 1, [], {p.id}, {});
  }

  // ---------- merging two neighbours ----------

  ghost function WithMerge(lv: Level, i: nat): Level
    requires i + 1 < |lv|
  {
    Splice(lv, i, i + 2, [Page(lv[i].id, lv[i].recs + lv[i + 1].recs)])
  }

  lemma {:induction false} MergePage(n: nat, p: Page, q: Page)
    requires PageOk(n, p) && PageOk(n, q) && Before(p, q)
    requires Bytes(p.recs) + Bytes(q.recs) + FIXED <= n
    ensures PageOk(n, Page(p.id, p.recs + q.recs))
    ensures RecSet(p.recs + q.recs) == RecSet(p.recs) + RecSet(q.recs)
  {
    BytesConcat(p.recs, q.recs);
    var t := p.recs + q.recs;
    forall x, y | 0 <= x < y < |t| ensures t[x].key < t[y].key {
      if x < |p.recs| <= y {
        assert t[x].key <= Last(p) && First(q) <= t[y].key;
      }
    }
  }

  lemma {:induction false} MergeChain(n: nat, lv: Level, i: nat)
    requires LevelOk(n, lv) && i + 1 < |lv|
    requires PageOk(n, Page(lv[i].id, lv[i].recs + lv[i + 1].recs))
    ensures LevelOk(n, WithMerge(lv, i))
  {
    var m := Page(lv[i].id, lv[i].recs + lv[i + 1].recs);
    assert m.id !in Ids(lv[..i]) + Ids(lv[i + 2..]) by {
      assert lv[i..i + 2][0] == lv[i];
      IdsParts(n, lv, i, i + 2);
    }
    if i + 2 < |lv| { assert Before(lv[i + 1], lv[i + 2]); }
    FitsBetween(n, lv, i, i + 2, [m]);
  }

  lemma {:induction false} MergeRecs(n: nat, lv: Level, i: nat)
    requires LevelOk(n, lv) && i + 1 < |lv|
    requires RecSet(lv[i].recs + lv[i + 1].recs) == RecSet(lv[i].recs) + RecSet(lv[i + 1].recs)
    ensures Recs(WithMerge(lv, i)) == Recs(lv)
  {
    hide ChainOk, Recs, RecSet;
    var p, q := lv[i], lv[i + 1];
    var m := Page(p.id, p.recs + q.recs);
    assert lv[i..i + 2] == [p, q];
    RecsOne(m);
    TwoPages(p, q);
    RecsEffect(n, lv, i, i + 2, [m], {}, {});
  }

  lemma {:induction false} MergeHeads(n: nat, lv: Level, i: nat)
    requires LevelOk(n, lv) && i + 1 < |lv| && lv[i].recs != [] && lv[i].id != lv[i + 1].id
    ensures Heads(WithMerge(lv, i)) == Heads(lv) - {Head(lv[i + 1])}
  {
    hide ChainOk, Heads;
    var p, q := lv[i], lv[i + 1];
    var m := Page(p.id, p.recs + q.recs);
    assert lv[i..i + 2] == [p, q];
    HeadsOne(m);
    TwoPages(p, q);
    HeadsEffect(n, lv, i, i + 2, [m], {Head(q)}, {});
  }

  lemma {:induction false} MergeIds(n: nat, lv: Level, i: nat)
    requires LevelOk(n, lv) && i + 1 < |lv| && lv[i].id != lv[i + 1].id
    ensures Ids(WithMerge(lv, i)) == Ids(lv) - {lv[i + 1].id}
  {
    hide ChainOk, Ids;
    var p, q := lv[i], lv[i + 1];
    var m := Page(p.id, p.recs + q.recs);
    assert lv[i..i + 2] == [p, q];
    IdsOne(m);
    TwoPages(p, q);
    IdsEffect(n, lv, i, i + 2, [m], {q.id}, {});
  }

  lemma {:induction false} MergeViews(n: nat, lv: Level, i: nat)
    requires LevelOk(n, lv) && i + 1 < |lv|
    requires RecSet(lv[i].recs + lv[i + 1].recs) == RecSet(lv[i].recs) + RecSet(lv[i + 1].recs)
    ensures Recs(WithMerge(lv, i)) == Recs(lv)
    ensures Heads(WithMerge(lv, i)) == Heads(lv) - {Head(lv[i + 1])}
    ensures Ids(WithMerge(lv, i)) == Ids(lv) - {lv[i + 1].id}
  {
    assert Before(lv[i], lv[i + 1]);
    hide LevelOk, Recs, Heads, Ids, RecSet, WithMerge;
    MergeRecs(n, lv, i);
    MergeHeads(n, lv, i);
    MergeIds(n, lv, i);
  }

  lemma {:induction false} MergeOp(n: nat, lv: Level, i: nat)
    requires LevelOk(n, lv) && i + 1 < |lv|
    requires Bytes(lv[i].recs) + Bytes(lv[i + 1].recs) + FIXED <= n
    ensures LevelOk(n, WithMerge(lv, i))
    ensures Recs(WithMerge(lv, i)) == Recs(lv)
    ensures Heads(WithMerge(lv, i)) == Heads(lv) - {Head(lv[i + 1])}
    ensures Ids(WithMerge(lv, i)) == Ids(lv) - {lv[i + 1].id}
  {
    assert Before(lv[i], lv[i + 1]);
    MergePage(n, lv[i], lv[i + 1]);
    MergeChain(n, lv, i);
    MergeViews(n, lv, i);
  }
}
