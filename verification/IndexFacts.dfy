/**
 Two neighbouring levels: what it means for searching that the upper one indexes the
 pages of the lower one.
 */
module IndexFacts {
  import opened Layout
  import opened Levels
  import opened LevelOps

  /** Every index record leads to a page that starts with the record's key. */
  lemma {:induction false} ChildOf(upper: Level, lower: Level, r: Rec) returns (j: nat)
    requires Recs(upper) <= Heads(lower) && r in Recs(upper)
    ensures j < |lower| && Head(lower[j]) == r
  {
    assert r in Heads(lower);
    j :| 0 <= j < |lower| && Head(lower[j]) == r;
  }

  lemma {:induction false} HeadKey(n: nat, lv: Level, j: nat)
    requires LevelOk(n, lv) && j < |lv|
    ensures Head(lv[j]).key == First(lv[j]) && Head(lv[j]).val == lv[j].id && RecOk(Head(lv[j]))
    ensures Head(lv[j]) in Heads(lv)
  {
    assert PageOk(n, lv[j]);
    assert RecOk(lv[j].recs[0]);
  }

  lemma {:induction false} FirstsAscend(n: nat, lv: Level, i: nat, j: nat)
    requires ChainOk(n, lv) && i < j < |lv|
    ensures First(lv[i]) <= Last(lv[i]) < First(lv[j])
  {
    assert Before(lv[i], lv[j]);
    assert PageOk(n, lv[i]);
  }

  /** Pages in order have their first keys in order. */
  lemma {:induction false} FirstsOrder(n: nat, lv: Level, i: nat, j: nat)
    requires LevelOk(n, lv) && i < |lv| && j < |lv|
    ensures lv[i].recs != [] && lv[j].recs != []
    ensures i <= j ==> First(lv[i]) <= First(lv[j])
  {
    assert PageOk(n, lv[i]) && PageOk(n, lv[j]);
    if i < j { FirstsAscend(n, lv, i, j); }
  }

  /** In a tree without dangling nodes the child found under the floor of a key covers the key. */
  lemma {:induction false} CoverDown(n: nat, upper: Level, lower: Level, i: nat, pos: nat, j: nat, key: int)
    requires LevelOk(n, upper) && LevelOk(n, lower) && Recs(upper) == Heads(lower)
    requires Covers(upper, i, key) && FloorAt(upper[i].recs, pos, key)
    requires j < |lower| && Head(lower[j]) == upper[i].recs[pos]
    ensures Covers(lower, j, key)
  {
    FloorIsGlobal(n, upper, i, pos, key);
    HeadKey(n, lower, j);
    forall m | j < m < |lower| ensures key < First(lower[m]) {
      HeadKey(n, lower, m);
      FirstsAscend(n, lower, j, m);
      assert Head(lower[m]) in Recs(upper);
    }
  }

  /** A page's first key is its index key, so both levels start with the same key. */
  /** A level that indexes the leftmost node below it starts with that node's first key. */
  lemma {:induction false} LeftmostFirstKey(n: nat, upper: Level, lower: Level)
    requires LevelOk(n, upper) && LevelOk(n, lower) && Recs(upper) <= Heads(lower) && Head(lower[0]) in Recs(upper)
    ensures First(upper[0]) == First(lower[0])
  {
    var r := upper[0].recs[0];
    assert r in upper[0].recs;
    var j := ChildOf(upper, lower, r);
    HeadKey(n, lower, j);
    HeadKey(n, lower, 0);
    if j > 0 { FirstsAscend(n, lower, 0, j); }
    var a :| 0 <= a < |upper| && Head(lower[0]) in upper[a].recs;
    KeysWithin(n, upper, a, Head(lower[0]));
    if a > 0 { FirstsAscend(n, upper, 0, a); }
  }

  lemma {:induction false} SameFirstKey(n: nat, upper: Level, lower: Level)
    requires LevelOk(n, upper) && LevelOk(n, lower) && Recs(upper) == Heads(lower)
    ensures First(upper[0]) == First(lower[0])
  {
    HeadKey(n, lower, 0);
    LeftmostFirstKey(n, upper, lower);
  }

  /** All keys covered by one lower page are covered by one upper page. */
  lemma {:induction false} CoverUp(n: nat, upper: Level, lower: Level, j: nat, key: int, i: nat)
    requires LevelOk(n, upper) && LevelOk(n, lower) && Recs(upper) == Heads(lower)
    requires Covers(lower, j, key)
    ensures Covers(upper, i, key) <==> Covers(upper, i, First(lower[j]))
  {
    forall m | 0 <= m < |upper| ensures First(upper[m]) <= key <==> First(upper[m]) <= First(lower[j]) {
      var r := upper[m].recs[0];
      assert PageOk(n, upper[m]) && r in upper[m].recs;
      var x := ChildOf(upper, lower, r);
      HeadKey(n, lower, x);
      if x < j { FirstsAscend(n, lower, x, j); }
    }
  }

  lemma {:induction false} OneHead(n: nat, lv: Level, r: Rec)
    requires LevelOk(n, lv) && Heads(lv) == {r}
    ensures |lv| == 1 && lv[0].id == r.val
  {
    HeadKey(n, lv, 0);
    if |lv| > 1 {
      FirstsAscend(n, lv, 0, 1);
      HeadKey(n, lv, 1);
    }
  }

  /** The position of a record tells whether it heads its page. */
  lemma {:induction false} NotAFirstKey(n: nat, lv: Level, i: nat, pos: nat, m: nat)
    requires LevelOk(n, lv) && i < |lv| && 0 < pos < |lv[i].recs| && m < |lv|
    ensures First(lv[m]) != lv[i].recs[pos].key
  {
    assert PageOk(n, lv[i]);
    var r := lv[i].recs[pos];
    KeysWithin(n, lv, i, r);
    if m < i {
      FirstsAscend(n, lv, m, i);
    } else if i < m {
      FirstsAscend(n, lv, i, m);
    }
  }

  // ---------- the next record of a level ----------

  lemma {:induction false} UpToLast(n: nat, lv: Level, a: nat, i: nat, q: Rec)
    requires LevelOk(n, lv) && a <= i < |lv| && q in lv[a].recs
    ensures q.key <= Last(lv[i])
  {
    KeysWithin(n, lv, a, q);
    assert PageOk(n, lv[i]);
    if a < i { FirstsAscend(n, lv, a, i); }
  }

  lemma {:induction false} NextKey(recs: seq<Rec>, pos: nat, q: Rec)
    requires SortedRecs(recs) && pos + 1 < |recs| && q in recs && recs[pos].key < q.key
    ensures recs[pos + 1].key <= q.key
  {
    var k :| 0 <= k < |recs| && recs[k] == q;
  }

  /** Where a record with a greater key can be: behind in the page, or in a later page. */
  lemma {:induction false} AfterInPage(n: nat, lv: Level, i: nat, pos: nat, a: nat, q: Rec)
    requires ChainOk(n, lv) && i < |lv| && pos + 1 < |lv[i].recs| && a < |lv| && q in lv[a].recs
    requires lv[i].recs[pos].key < q.key && SortedRecs(lv[i].recs)
    ensures lv[i].recs[pos + 1].key <= q.key
  {
    hide ChainOk, SortedRecs;
    var p, r := lv[i].recs[pos], lv[i].recs[pos + 1];
    assert p in lv[i].recs && r in lv[i].recs;
    if a > i {
      KeysAscend(n, lv, i, a, r, q);
    } else if a < i {
      KeysAscend(n, lv, a, i, q, p);
    } else {
      NextKey(lv[i].recs, pos, q);
    }
  }

  lemma {:induction false} SuccessorInPage(n: nat, lv: Level, i: nat, pos: nat)
    requires LevelOk(n, lv) && i < |lv| && pos + 1 < |lv[i].recs|
    ensures lv[i].recs[pos + 1] in Recs(lv) && lv[i].recs[pos].key < lv[i].recs[pos + 1].key
    ensures forall q :: q in Recs(lv) && lv[i].recs[pos].key < q.key ==> lv[i].recs[pos + 1].key <= q.key
  {
    var r := lv[i].recs[pos + 1];
    assert PageOk(n, lv[i]) && r in lv[i].recs;
    hide PageOk, ChainOk;
    forall q | q in Recs(lv) && lv[i].recs[pos].key < q.key ensures r.key <= q.key {
      var a :| 0 <= a < |lv| && q in lv[a].recs;
      AfterInPage(n, lv, i, pos, a, q);
    }
  }

  lemma {:induction false} LastOfLevel(n: nat, lv: Level, i: nat)
    requires LevelOk(n, lv) && i + 1 == |lv|
    ensures forall q :: q in Recs(lv) ==> q.key <= Last(lv[i])
  {
    forall q | q in Recs(lv) ensures q.key <= Last(lv[i]) {
      var a :| 0 <= a < |lv| && q in lv[a].recs;
      UpToLast(n, lv, a, i, q);
    }
  }

  lemma {:induction false} SuccessorInNext(n: nat, lv: Level, i: nat)
    requires LevelOk(n, lv) && i + 1 < |lv|
    ensures lv[i + 1].recs != [] && lv[i + 1].recs[0] in Recs(lv) && Last(lv[i]) < lv[i + 1].recs[0].key
    ensures forall q :: q in Recs(lv) && Last(lv[i]) < q.key ==> lv[i + 1].recs[0].key <= q.key
  {
    assert PageOk(n, lv[i + 1]) && lv[i + 1].recs[0] in lv[i + 1].recs;
    FirstsAscend(n, lv, i, i + 1);
    forall q | q in Recs(lv) && Last(lv[i]) < q.key ensures lv[i + 1].recs[0].key <= q.key {
      var a :| 0 <= a < |lv| && q in lv[a].recs;
      if a > i {
        KeysWithin(n, lv, a, q);
        if a > i + 1 { FirstsAscend(n, lv, i + 1, a); }
      } else {
        UpToLast(n, lv, a, i, q);
      }
    }
  }
}
