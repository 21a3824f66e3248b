/**
 One level of the tree: a chain of sibling pages, seen as a value.

 The pages of a level are listed from left to right.  All keys of a page are
 smaller than all keys of the pages to its right.  Recs is what a level stores,
 Heads is what the level above has to store to index it: for every page one
 record with the page's first key and the page's id.
 */
module Levels {
  import opened Layout

  datatype Page = Page(id: nat, recs: seq<Rec>)

  type Level = seq<Page>

  predicate SortedRecs(s: seq<Rec>) {
    forall i, j :: 0 <= i < j < |s| ==> s[i].key < s[j].key
  }

  predicate PageOk(n: nat, p: Page) {
    && p.id != NO_NODE
    && p.recs != []
    && RecsOk(p.recs)
    && SortedRecs(p.recs)
    && Bytes(p.recs) + FIXED <= n
  }

  function First(p: Page): int
    requires p.recs != []
  {
    p.recs[0].key
  }

  function Last(p: Page): int
    requires p.recs != []
  {
    p.recs[|p.recs| - 1].key
  }

  /** The index record of a page: its first key, and its id as the value. */
  function Head(p: Page): Rec {
    if p.recs == [] then Rec(0, 0, 0, p.id)
    else Rec(p.recs[0].key, p.recs[0].klen, p.recs[0].klen + INDEX_VALUE, p.id)
  }

  predicate Before(p: Page, q: Page)
    requires p.recs != [] && q.recs != []
  {
    Last(p) < First(q) && p.id != q.id
  }

  predicate PagesOk(n: nat, lv: Level) {
    forall i :: 0 <= i < |lv| ==> PageOk(n, lv[i])
  }

  /** A chain of good pages, in key order, with pairwise different ids. */
  predicate ChainOk(n: nat, lv: Level) {
    && PagesOk(n, lv)
    && forall i, j :: 0 <= i < j < |lv| ==> Before(lv[i], lv[j])
  }

  predicate LevelOk(n: nat, lv: Level) {
    lv != [] && ChainOk(n, lv)
  }

  ghost function RecSet(s: seq<Rec>): set<Rec> {
    set r | r in s
  }

  ghost function Recs(lv: Level): set<Rec> {
    set i, r | 0 <= i < |lv| && r in lv[i].recs :: r
  }

  ghost function Heads(lv: Level): set<Rec> {
    set i | 0 <= i < |lv| :: Head(lv[i])
  }

  ghost function Ids(lv: Level): set<nat> {
    set i | 0 <= i < |lv| :: lv[i].id
  }

  // ---------- the three views of a level distribute over concatenation ----------

  lemma {:induction false} RecsConcat(a: Level, b: Level)
    ensures Recs(a + b) == Recs(a) + Recs(b)
  {
    forall r | r in Recs(a) + Recs(b) ensures r in Recs(a + b) {
      if r in Recs(a) {
        var i :| 0 <= i < |a| && r in a[i].recs;
        assert (a + b)[i] == a[i];
      } else {
        var i :| 0 <= i < |b| && r in b[i].recs;
        assert (a + b)[|a| + i] == b[i];
      }
    }
  }

  lemma {:induction false} RecsOne(p: Page)
    ensures Recs([p]) == RecSet(p.recs)
  {
    forall r | r in RecSet(p.recs) ensures r in Recs([p]) {
      assert r in [p][0].recs;
    }
  }

  lemma {:induction false} HeadsConcat(a: Level, b: Level)
    ensures Heads(a + b) == Heads(a) + Heads(b)
  {
    forall r | r in Heads(a) + Heads(b) ensures r in Heads(a + b) {
      if r in Heads(a) {
        var i :| 0 <= i < |a| && r == Head(a[i]);
        assert (a + b)[i] == a[i];
      } else {
        var i :| 0 <= i < |b| && r == Head(b[i]);
        assert (a + b)[|a| + i] == b[i];
      }
    }
  }

  lemma {:induction false} HeadsOne(p: Page)
    ensures Heads([p]) == {Head(p)}
  {
    assert [p][0] == p;
  }

  lemma {:induction false} IdsConcat(a: Level, b: Level)
    ensures Ids(a + b) == Ids(a) + Ids(b)
  {
    forall r | r in Ids(a) + Ids(b) ensures r in Ids(a + b) {
      if r in Ids(a) {
        var i :| 0 <= i < |a| && r == a[i].id;
        assert (a + b)[i] == a[i];
      } else {
        var i :| 0 <= i < |b| && r == b[i].id;
        assert (a + b)[|a| + i] == b[i];
      }
    }
  }

  lemma {:induction false} IdsOne(p: Page)
    ensures Ids([p]) == {p.id}
  {
    assert [p][0] == p;
  }

  // ---------- replacing a run of neighbouring pages: every tree operation is one of these ----------

  ghost predicate Nonempty(lv: Level) {
    forall i :: 0 <= i < |lv| ==> lv[i].recs != []
  }

  lemma {:induction false} SpliceViews(lv: Level, i: nat, j: nat, mid: Level)
    requires i <= j <= |lv|
    ensures Recs(Splice(lv, i, j, mid)) == Recs(lv[..i]) + Recs(mid) + Recs(lv[j..])
    ensures Heads(Splice(lv, i, j, mid)) == Heads(lv[..i]) + Heads(mid) + Heads(lv[j..])
    ensures Ids(Splice(lv, i, j, mid)) == Ids(lv[..i]) + Ids(mid) + Ids(lv[j..])
  {
    RecsConcat(lv[..i] + mid, lv[j..]);
    RecsConcat(lv[..i], mid);
    HeadsConcat(lv[..i] + mid, lv[j..]);
    HeadsConcat(lv[..i], mid);
    IdsConcat(lv[..i] + mid, lv[j..]);
    IdsConcat(lv[..i], mid);
  }

  lemma {:induction false} KeysWithin(n: nat, lv: Level, i: nat, r: Rec)
    requires ChainOk(n, lv) && i < |lv| && r in lv[i].recs
    ensures First(lv[i]) <= r.key <= Last(lv[i])
  {
    var k :| 0 <= k < |lv[i].recs| && lv[i].recs[k] == r;
    assert PageOk(n, lv[i]);
  }

  /** Pages before and after a position hold different records, heads and ids. */
  lemma {:induction false} Apart(n: nat, lv: Level, i: nat)
    requires ChainOk(n, lv) && i <= |lv|
    ensures Recs(lv[..i]) !! Recs(lv[i..])
    ensures Heads(lv[..i]) !! Heads(lv[i..])
    ensures Ids(lv[..i]) !! Ids(lv[i..])
  {
    assert forall a, b :: 0 <= a < i && 0 <= b < |lv| - i ==> Before(lv[..i][a], lv[i..][b]);
    forall r | r in Recs(lv[..i]) ensures r !in Recs(lv[i..]) {
      var a :| 0 <= a < i && r in lv[..i][a].recs;
      KeysWithin(n, lv, a, r);
      forall b, q | 0 <= b < |lv| - i && q in lv[i..][b].recs ensures r.key < q.key {
        assert Before(lv[..i][a], lv[i..][b]);
        KeysWithin(n, lv, i + b, q);
      }
    }
  }

  lemma {:induction false} SubChain(n: nat, lv: Level, i: nat, j: nat)
    requires ChainOk(n, lv) && i <= j <= |lv|
    ensures ChainOk(n, lv[i..j])
  {
    assert forall a :: 0 <= a < j - i ==> lv[i..j][a] == lv[i + a];
  }

  /** A level cut at i and j into three parts that share no record. */
  lemma {:induction false} RecsParts(n: nat, lv: Level, i: nat, j: nat)
    requires ChainOk(n, lv) && i <= j <= |lv|
    ensures Recs(lv) == Recs(lv[..i]) + Recs(lv[i..j]) + Recs(lv[j..])
    ensures Recs(lv[i..j]) !! Recs(lv[..i]) + Recs(lv[j..])
  {
    Apart(n, lv, i);
    Apart(n, lv, j);
    assert lv[i..] == lv[i..j] + lv[j..];
    assert lv[..j] == lv[..i] + lv[i..j];
    assert lv == lv[..i] + lv[i..];
    RecsConcat(lv[..i], lv[i..]);
    RecsConcat(lv[i..j], lv[j..]);
    RecsConcat(lv[..i], lv[i..j]);
  }

  lemma {:induction false} HeadsParts(n: nat, lv: Level, i: nat, j: nat)
    requires ChainOk(n, lv) && i <= j <= |lv|
    ensures Heads(lv) == Heads(lv[..i]) + Heads(lv[i..j]) + Heads(lv[j..])
    ensures Heads(lv[i..j]) !! Heads(lv[..i]) + Heads(lv[j..])
  {
    Apart(n, lv, i);
    Apart(n, lv, j);
    assert lv[i..] == lv[i..j] + lv[j..];
    assert lv[..j] == lv[..i] + lv[i..j];
    assert lv == lv[..i] + lv[i..];
    HeadsConcat(lv[..i], lv[i..]);
    HeadsConcat(lv[i..j], lv[j..]);
    HeadsConcat(lv[..i], lv[i..j]);
  }

  lemma {:induction false} IdsParts(n: nat, lv: Level, i: nat, j: nat)
    requires ChainOk(n, lv) && i <= j <= |lv|
    ensures Ids(lv) == Ids(lv[..i]) + Ids(lv[i..j]) + Ids(lv[j..])
    ensures Ids(lv[i..j]) !! Ids(lv[..i]) + Ids(lv[j..])
  {
    Apart(n, lv, i);
    Apart(n, lv, j);
    assert lv[i..] == lv[i..j] + lv[j..];
    assert lv[..j] == lv[..i] + lv[i..j];
    assert lv == lv[..i] + lv[i..];
    IdsConcat(lv[..i], lv[i..]);
    IdsConcat(lv[i..j], lv[j..]);
    IdsConcat(lv[..i], lv[i..j]);
  }

  /** All pages of a come before all pages of b. */
  predicate AllBefore(a: Level, b: Level)
    requires Nonempty(a) && Nonempty(b)
  {
    forall x, y :: 0 <= x < |a| && 0 <= y < |b| ==> Before(a[x], b[y])
  }

  lemma {:induction false} ChainConcat(n: nat, a: Level, b: Level)
    requires ChainOk(n, a) && ChainOk(n, b) && AllBefore(a, b)
    ensures ChainOk(n, a + b)
  {
    var c := a + b;
    forall i, j | 0 <= i < j < |c| ensures Before(c[i], c[j]) {
      if j < |a| {
        assert c[i] == a[i] && c[j] == a[j];
      } else if i < |a| {
        assert c[i] == a[i] && c[j] == b[j - |a|];
      } else {
        assert c[i] == b[i - |a|] && c[j] == b[j - |a|];
      }
    }
  }

  /** A splice keeps the chain if the new pages fit between the old neighbours. */
  lemma {:induction false} SpliceChain(n: nat, lv: Level, i: nat, j: nat, mid: Level)
    requires ChainOk(n, lv) && i <= j <= |lv| && ChainOk(n, mid)
    requires AllBefore(lv[..i], mid) && AllBefore(mid, lv[j..])
    ensures ChainOk(n, Splice(lv, i, j, mid))
  {
    SubChain(n, lv, 0, i);
    SubChain(n, lv, j, |lv|);
    assert lv[0..i] == lv[..i] && lv[j..|lv|] == lv[j..];
    ChainConcat(n, lv[..i], mid);
    forall x, y | 0 <= x < |lv[..i] + mid| && 0 <= y < |lv[j..]|
      ensures Before((lv[..i] + mid)[x], lv[j..][y])
    {
      if x < i {
        assert (lv[..i] + mid)[x] == lv[x];
      } else {
        assert (lv[..i] + mid)[x] == mid[x - i];
      }
    }
    ChainConcat(n, lv[..i] + mid, lv[j..]);
  }

  lemma {:induction false} SetStep<T>(a: set<T>, m: set<T>, b: set<T>, m': set<T>, del: set<T>, add: set<T>)
    requires m !! a + b && del <= m && m' == m - del + add
    ensures a + m' + b == a + m + b - del + add
  {
  }

  /** If the new pages hold what the old ones held, minus del, plus add, then so does the level. */
  lemma {:induction false} RecsEffect(n: nat, lv: Level, i: nat, j: nat, mid: Level, del: set<Rec>, add: set<Rec>)
    requires ChainOk(n, lv) && i <= j <= |lv|
    requires del <= Recs(lv[i..j]) && Recs(mid) == Recs(lv[i..j]) - del + add
    ensures Recs(Splice(lv, i, j, mid)) == Recs(lv) - del + add
  {
    SpliceViews(lv, i, j, mid);
    RecsParts(n, lv, i, j);
    SetStep(Recs(lv[..i]), Recs(lv[i..j]), Recs(lv[j..]), Recs(mid), del, add);
  }

  lemma {:induction false} HeadsEffect(n: nat, lv: Level, i: nat, j: nat, mid: Level, del: set<Rec>, add: set<Rec>)
    requires ChainOk(n, lv) && i <= j <= |lv|
    requires del <= Heads(lv[i..j]) && Heads(mid) == Heads(lv[i..j]) - del + add
    ensures Heads(Splice(lv, i, j, mid)) == Heads(lv) - del + add
  {
    SpliceViews(lv, i, j, mid);
    HeadsParts(n, lv, i, j);
    SetStep(Heads(lv[..i]), Heads(lv[i..j]), Heads(lv[j..]), Heads(mid), del, add);
  }

  lemma {:induction false} IdsEffect(n: nat, lv: Level, i: nat, j: nat, mid: Level, del: set<nat>, add: set<nat>)
    requires ChainOk(n, lv) && i <= j <= |lv|
    requires del <= Ids(lv[i..j]) && Ids(mid) == Ids(lv[i..j]) - del + add
    ensures Ids(Splice(lv, i, j, mid)) == Ids(lv) - del + add
  {
    SpliceViews(lv, i, j, mid);
    IdsParts(n, lv, i, j);
    SetStep(Ids(lv[..i]), Ids(lv[i..j]), Ids(lv[j..]), Ids(mid), del, add);
  }
}
