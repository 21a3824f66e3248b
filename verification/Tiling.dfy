/**
 How the records of a slotted page lie in its data area.

 lens are the record lengths and offs the offsets, both in slot order; offs has one more
 entry, the offset of the free area.  phys lists the slots in the order in which their
 records lie in the page; rank tells the place of a slot in phys.
 */
module Tiling {
  import opened Layout

  ghost function LenOf(lens: seq<nat>, slot: nat): nat {
    if slot < |lens| then lens[slot] else 0
  }

  /** Where the k-th record in physical order starts. */
  ghost function Start(lens: seq<nat>, phys: seq<nat>, k: nat): nat
    requires k <= |phys|
  {
    if k == 0 then HEADER else Start(lens, phys, k - 1) + LenOf(lens, phys[k - 1])
  }

  ghost predicate Ranks(n: nat, phys: seq<nat>, rank: seq<nat>) {
    && |phys| == n && |rank| == n
    && forall i :: 0 <= i < n ==> rank[i] < n && phys[rank[i]] == i
  }

  ghost predicate Laid(lens: seq<nat>, offs: seq<nat>, phys: seq<nat>) {
    && |offs| == |lens| + 1 && |phys| == |lens|
    && (forall k :: 0 <= k < |lens| ==> phys[k] < |lens| && offs[phys[k]] == Start(lens, phys, k))
    && offs[|lens|] == Start(lens, phys, |lens|)
  }

  /** The records lie one after the other, from the header to the free area, without a gap. */
  ghost predicate Tiles(lens: seq<nat>, offs: seq<nat>, phys: seq<nat>, rank: seq<nat>) {
    Ranks(|lens|, phys, rank) && Laid(lens, offs, phys)
  }

  /** Later records in physical order start at or after the end of earlier ones. */
  lemma {:induction false} StartStep(lens: seq<nat>, phys: seq<nat>, k: nat, m: nat)
    requires k < m <= |phys|
    ensures Start(lens, phys, k) + LenOf(lens, phys[k]) <= Start(lens, phys, m)
    decreases m - k
  {
    if k + 1 < m {
      StartStep(lens, phys, k, m - 1);
    }
  }

  lemma {:induction false} StartNext(lens: seq<nat>, phys: seq<nat>, k: nat)
    requires k < |phys|
    ensures Start(lens, phys, k + 1) == Start(lens, phys, k) + LenOf(lens, phys[k])
  {
  }

  lemma {:induction false} StartAtLeast(lens: seq<nat>, phys: seq<nat>, k: nat)
    requires k <= |phys|
    ensures HEADER <= Start(lens, phys, k)
  {
    if k > 0 {
      StartAtLeast(lens, phys, k - 1);
    }
  }

  /** Every record lies between the header and the free area. */
  lemma {:induction false} Inside(lens: seq<nat>, offs: seq<nat>, phys: seq<nat>, rank: seq<nat>, i: nat)
    requires Tiles(lens, offs, phys, rank) && i < |lens|
    ensures HEADER <= offs[i] && offs[i] + lens[i] <= offs[|lens|]
  {
    assert phys[rank[i]] == i;
    StartAtLeast(lens, phys, rank[i]);
    StartStep(lens, phys, rank[i], |lens|);
  }

  /** Two records do not overlap, and the order of their offsets is their physical order. */
  lemma {:induction false} Apart(lens: seq<nat>, offs: seq<nat>, phys: seq<nat>, rank: seq<nat>, i: nat, j: nat)
    requires Tiles(lens, offs, phys, rank) && i < |lens| && j < |lens| && i != j
    ensures rank[i] != rank[j]
    ensures rank[i] < rank[j] ==> offs[i] + lens[i] <= offs[j]
    ensures rank[j] < rank[i] ==> offs[j] + lens[j] <= offs[i]
  {
    assert phys[rank[i]] == i && phys[rank[j]] == j;
    if rank[i] < rank[j] {
      StartStep(lens, phys, rank[i], rank[j]);
    } else if rank[j] < rank[i] {
      StartStep(lens, phys, rank[j], rank[i]);
    }
  }

  // ---------- a new record at the end of the data area, in slot p ----------

  ghost function Up(x: nat, p: nat): nat {
    if x >= p then x + 1 else x
  }

  /** The slots from p on are renumbered, and slot p comes last. */
  ghost function PhysPlaced(phys: seq<nat>, p: nat): (t: seq<nat>)
    ensures |t| == |phys| + 1
    ensures forall k :: 0 <= k < |phys| ==> t[k] == Up(phys[k], p)
    ensures t[|phys|] == p
  {
    seq<nat>(|phys|, k requires 0 <= k < |phys| => Up(phys[k], p)) + [p]
  }

  ghost function OffsPlaced(offs: seq<nat>, p: nat, len: nat): (t: seq<nat>)
    requires p < |offs|
    ensures |t| == |offs| + 1
  {
    var n := |offs| - 1;
    InsertAt(offs[..n], p, offs[n]) + [offs[n] + len]
  }

  lemma {:induction false} StartPlaced(lens: seq<nat>, phys: seq<nat>, p: nat, len: nat, k: nat)
    requires p <= |lens| && k <= |phys| && forall j :: 0 <= j < |phys| ==> phys[j] < |lens|
    ensures Start(InsertAt(lens, p, len), PhysPlaced(phys, p), k) == Start(lens, phys, k)
  {
    if k > 0 {
      StartPlaced(lens, phys, p, len, k - 1);
      assert InsertAt(lens, p, len)[Up(phys[k - 1], p)] == lens[phys[k - 1]];
    }
  }

  lemma {:induction false} RanksPlaced(n: nat, phys: seq<nat>, rank: seq<nat>, p: nat)
    requires Ranks(n, phys, rank) && p <= n
    ensures Ranks(n + 1, PhysPlaced(phys, p), InsertAt(rank, p, n))
  {
    var rank' := InsertAt(rank, p, n);
    forall i | 0 <= i < n + 1 ensures rank'[i] < n + 1 && PhysPlaced(phys, p)[rank'[i]] == i {
      if i < p {
        assert rank'[i] == rank[i];
      } else if i > p {
        assert rank'[i] == rank[i - 1];
      }
    }
  }

  lemma {:induction false} OffsPlacedAt(offs: seq<nat>, p: nat, len: nat, x: nat)
    requires p < |offs| && x < |offs|
    ensures x + 1 < |offs| ==> OffsPlaced(offs, p, len)[Up(x, p)] == offs[x]
    ensures OffsPlaced(offs, p, len)[p] == offs[|offs| - 1]
    ensures OffsPlaced(offs, p, len)[|offs|] == offs[|offs| - 1] + len
  {
  }

  lemma {:induction false} LaidPlaced(lens: seq<nat>, offs: seq<nat>, phys: seq<nat>, p: nat, len: nat)
    requires Laid(lens, offs, phys) && p <= |lens|
    ensures Laid(InsertAt(lens, p, len), OffsPlaced(offs, p, len), PhysPlaced(phys, p))
  {
    hide OffsPlaced, Start;
    var n := |lens|;
    var lens', offs', phys' := InsertAt(lens, p, len), OffsPlaced(offs, p, len), PhysPlaced(phys, p);
    assert Start(lens', phys', n) == offs[n] by { StartPlaced(lens, phys, p, len, n); }
    OffsPlacedAt(offs, p, len, n);
    assert lens'[p] == len;
    StartNext(lens', phys', n);
    hide InsertAt, PhysPlaced;
    forall k | 0 <= k < n + 1 ensures phys'[k] < n + 1 && offs'[phys'[k]] == Start(lens', phys', k) {
      if k < n {
        StartPlaced(lens, phys, p, len, k);
        OffsPlacedAt(offs, p, len, phys[k]);
      }
    }
  }

  /** Placing a record leaves the others where they are. */
  lemma {:induction false} TilesPlaced(lens: seq<nat>, offs: seq<nat>, phys: seq<nat>, rank: seq<nat>, p: nat, len: nat)
    requires Tiles(lens, offs, phys, rank) && p <= |lens|
    ensures Tiles(InsertAt(lens, p, len), OffsPlaced(offs, p, len), PhysPlaced(phys, p), InsertAt(rank, p, |lens|))
  {
    RanksPlaced(|lens|, phys, rank, p);
    LaidPlaced(lens, offs, phys, p, len);
  }

  // ---------- the record of slot p taken out, the later ones moved down ----------

  ghost function Down(x: nat, p: nat): nat {
    if x > p then x - 1 else x
  }

  /** The place of slot p is left out and the slots behind p are renumbered. */
  ghost function PhysRemoved(phys: seq<nat>, q: nat, p: nat): (t: seq<nat>)
    requires q < |phys|
    ensures |t| == |phys| - 1
    ensures forall k :: 0 <= k < |t| ==> t[k] == Down(phys[if k < q then k else k + 1], p)
  {
    seq<nat>(|phys| - 1, k requires 0 <= k < |phys| - 1 => Down(phys[if k < q then k else k + 1], p))
  }

  ghost function RankRemoved(rank: seq<nat>, p: nat): (t: seq<nat>)
    requires p < |rank|
    ensures |t| == |rank| - 1
    ensures forall i :: 0 <= i < |t| ==> t[i] == Down(rank[if i < p then i else i + 1], rank[p])
  {
    seq<nat>(|rank| - 1, i requires 0 <= i < |rank| - 1 => Down(rank[if i < p then i else i + 1], rank[p]))
  }

  /** What delete_from_node does to an offset: those behind the removed record move down by its length. */
  function Moved(off: nat, at: nat, len: nat): (r: int)
  {
    if off > at then off - len else off
  }

  ghost predicate OffsRemoved(offs: seq<nat>, p: nat, len: nat, offs': seq<nat>) {
    && p + 1 < |offs| && |offs'| == |offs| - 1
    && forall i :: 0 <= i < |offs'| ==> offs'[i] == Moved(offs[if i < p then i else i + 1], offs[p], len)
  }

  /** The physical order is known from the offsets: no place is taken twice. */
  lemma {:induction false} RankOfPhys(lens: seq<nat>, offs: seq<nat>, phys: seq<nat>, rank: seq<nat>, k: nat)
    requires Tiles(lens, offs, phys, rank) && k < |lens| && forall i :: 0 <= i < |lens| ==> lens[i] > 0
    ensures phys[k] < |lens| && rank[phys[k]] == k
  {
    var x := phys[k];
    assert phys[rank[x]] == x;
    if rank[x] < k {
      StartStep(lens, phys, rank[x], k);
    } else if k < rank[x] {
      StartStep(lens, phys, k, rank[x]);
    }
  }

  lemma {:induction false} PhysAvoids(lens: seq<nat>, offs: seq<nat>, phys: seq<nat>, rank: seq<nat>, p: nat)
    requires Tiles(lens, offs, phys, rank) && p < |lens| && forall i :: 0 <= i < |lens| ==> lens[i] > 0
    ensures forall k :: 0 <= k < |lens| && k != rank[p] ==> phys[k] < |lens| && phys[k] != p
  {
    forall k | 0 <= k < |lens| && k != rank[p] ensures phys[k] < |lens| && phys[k] != p {
      RankOfPhys(lens, offs, phys, rank, k);
    }
  }

  lemma {:induction false} RankBounds(lens: seq<nat>, offs: seq<nat>, phys: seq<nat>, rank: seq<nat>, p: nat)
    requires Tiles(lens, offs, phys, rank) && p < |lens|
    ensures |rank| == |phys| == |lens| && rank[p] < |lens|
  {
  }

  lemma {:induction false} RanksRemoved(n: nat, phys: seq<nat>, rank: seq<nat>, p: nat)
    requires Ranks(n, phys, rank) && p < n
    ensures Ranks(n - 1, PhysRemoved(phys, rank[p], p), RankRemoved(rank, p))
  {
    var q := rank[p];
    var phys', rank' := PhysRemoved(phys, q, p), RankRemoved(rank, p);
    hide PhysRemoved, RankRemoved;
    assert phys[q] == p;
    forall i | 0 <= i < n - 1 ensures rank'[i] < n - 1 && phys'[rank'[i]] == i {
      var x := if i < p then i else i + 1;
      assert phys[rank[x]] == x && rank[x] != q;
    }
  }

  lemma {:induction false} StartRemoved(lens: seq<nat>, phys: seq<nat>, q: nat, p: nat, k: nat)
    requires q < |phys| == |lens| && k < |phys| && phys[q] == p < |lens|
    requires forall j :: 0 <= j < |phys| && j != q ==> phys[j] < |lens| && phys[j] != p
    ensures Start(DeleteAt(lens, p), PhysRemoved(phys, q, p), k) ==
            if k <= q then Start(lens, phys, k) else Start(lens, phys, k + 1) - lens[p]
  {
    hide Start;
    StartZero(lens, phys);
    StartZero(DeleteAt(lens, p), PhysRemoved(phys, q, p));
    if k > 0 {
      StartRemoved(lens, phys, q, p, k - 1);
      var x := if k - 1 < q then k - 1 else k;
      StartNext(DeleteAt(lens, p), PhysRemoved(phys, q, p), k - 1);
      StartNext(lens, phys, x);
      if k == q + 1 { StartNext(lens, phys, q); }
      assert DeleteAt(lens, p)[Down(phys[x], p)] == lens[phys[x]];
    }
  }

  lemma {:induction false} StartZero(lens: seq<nat>, phys: seq<nat>)
    ensures Start(lens, phys, 0) == HEADER
  {
  }

  /** Where a record moves: behind the removed one by its length, before it not at all. */
  lemma {:induction false} MovedStart(lens: seq<nat>, phys: seq<nat>, q: nat, p: nat, k: nat)
    requires q < |phys| && phys[q] == p < |lens| && lens[p] > 0 && k <= |phys| && k != q
    ensures Moved(Start(lens, phys, k), Start(lens, phys, q), lens[p]) ==
            if k < q then Start(lens, phys, k) else Start(lens, phys, k) - lens[p]
  {
    hide Start;
    if k < q {
      StartStep(lens, phys, k, q);
    } else {
      StartStep(lens, phys, q, k);
    }
  }

  lemma {:induction false} LaidRemoved(lens: seq<nat>, offs: seq<nat>, phys: seq<nat>, rank: seq<nat>, p: nat, offs': seq<nat>)
    requires Tiles(lens, offs, phys, rank) && p < |lens| && forall i :: 0 <= i < |lens| ==> lens[i] > 0
    requires OffsRemoved(offs, p, lens[p], offs')
    ensures Laid(DeleteAt(lens, p), offs', PhysRemoved(phys, rank[p], p))
  {
    hide Start;
    var n, q := |lens|, rank[p];
    PhysAvoids(lens, offs, phys, rank, p);
    assert phys[q] == p;
    var lens', phys' := DeleteAt(lens, p), PhysRemoved(phys, q, p);
    hide DeleteAt, PhysRemoved;
    forall k | 0 <= k < n - 1 ensures phys'[k] < n - 1 && offs'[phys'[k]] == Start(lens', phys', k) {
      var x := if k < q then k else k + 1;
      StartRemoved(lens, phys, q, p, k);
      MovedStart(lens, phys, q, p, x);
      assert offs[phys[x]] == Start(lens, phys, x) && offs[p] == Start(lens, phys, q);
      var i := Down(phys[x], p);
      assert phys'[k] == i && (if i < p then i else i + 1) == phys[x];
      if k == q { StartNext(lens, phys, q); }
    }
    StartRemoved(lens, phys, q, p, n - 1);
    MovedStart(lens, phys, q, p, n);
    if q == n - 1 { StartNext(lens, phys, q); }
  }

  /** Removing a record closes the gap that it leaves. */
  lemma {:induction false} TilesRemoved(lens: seq<nat>, offs: seq<nat>, phys: seq<nat>, rank: seq<nat>, p: nat, offs': seq<nat>)
    requires Tiles(lens, offs, phys, rank) && p < |lens| && forall i :: 0 <= i < |lens| ==> lens[i] > 0
    requires OffsRemoved(offs, p, lens[p], offs')
    ensures Tiles(DeleteAt(lens, p), offs', PhysRemoved(phys, rank[p], p), RankRemoved(rank, p))
  {
    RanksRemoved(|lens|, phys, rank, p);
    LaidRemoved(lens, offs, phys, rank, p, offs');
  }

  // ---------- the records of a second page appended ----------

  ghost function Shifted(s: seq<nat>, d: nat): (t: seq<nat>)
    ensures |t| == |s| && forall k :: 0 <= k < |t| ==> t[k] == s[k] + d
  {
    seq<nat>(|s|, k requires 0 <= k < |s| => s[k] + d)
  }

  /** The right page's offsets, moved to where its data area is copied to. */
  ghost predicate OffsJoined(a: seq<nat>, b: seq<nat>, offs': seq<nat>) {
    && a != [] && b != [] && |offs'| == |a| + |b| - 1
    && (forall i :: 0 <= i < |a| - 1 ==> offs'[i] == a[i])
    && (forall i :: 0 <= i < |b| ==> offs'[|a| - 1 + i] == a[|a| - 1] + b[i] - HEADER)
  }

  lemma {:induction false} StartLeft(la: seq<nat>, pa: seq<nat>, lb: seq<nat>, pb: seq<nat>, k: nat)
    requires k <= |pa| && forall j :: 0 <= j < |pa| ==> pa[j] < |la|
    ensures Start(la + lb, pa + Shifted(pb, |la|), k) == Start(la, pa, k)
  {
    hide Start;
    StartZero(la, pa);
    StartZero(la + lb, pa + Shifted(pb, |la|));
    if k > 0 {
      StartLeft(la, pa, lb, pb, k - 1);
      StartNext(la, pa, k - 1);
      StartNext(la + lb, pa + Shifted(pb, |la|), k - 1);
    }
  }

  lemma {:induction false} StartRight(la: seq<nat>, pa: seq<nat>, lb: seq<nat>, pb: seq<nat>, k: nat)
    requires k <= |pb| && (forall j :: 0 <= j < |pa| ==> pa[j] < |la|) && (forall j :: 0 <= j < |pb| ==> pb[j] < |lb|)
    ensures Start(la + lb, pa + Shifted(pb, |la|), |pa| + k) == Start(la, pa, |pa|) + Start(lb, pb, k) - HEADER
  {
    hide Start;
    StartZero(lb, pb);
    if k == 0 {
      StartLeft(la, pa, lb, pb, |pa|);
    } else {
      StartRight(la, pa, lb, pb, k - 1);
      StartNext(lb, pb, k - 1);
      StartNext(la + lb, pa + Shifted(pb, |la|), |pa| + k - 1);
    }
  }

  lemma {:induction false} RanksJoined(n: nat, pa: seq<nat>, ra: seq<nat>, m: nat, pb: seq<nat>, rb: seq<nat>)
    requires Ranks(n, pa, ra) && Ranks(m, pb, rb)
    ensures Ranks(n + m, pa + Shifted(pb, n), ra + Shifted(rb, n))
  {
    var phys, rank := pa + Shifted(pb, n), ra + Shifted(rb, n);
    forall i | 0 <= i < n + m ensures rank[i] < n + m && phys[rank[i]] == i {
      if i < n {
        assert rank[i] == ra[i];
      } else {
        assert rank[i] == rb[i - n] + n && phys[rank[i]] == pb[rb[i - n]] + n;
      }
    }
  }

  lemma {:induction false} LaidJoined(la: seq<nat>, oa: seq<nat>, pa: seq<nat>, lb: seq<nat>, ob: seq<nat>, pb: seq<nat>,
                                      offs': seq<nat>)
    requires Laid(la, oa, pa) && Laid(lb, ob, pb) && OffsJoined(oa, ob, offs')
    ensures Laid(la + lb, offs', pa + Shifted(pb, |la|))
  {
    hide Start;
    var n, m := |la|, |lb|;
    var phys := pa + Shifted(pb, n);
    forall k | 0 <= k < n + m ensures phys[k] < n + m && offs'[phys[k]] == Start(la + lb, phys, k) {
      if k < n {
        StartLeft(la, pa, lb, pb, k);
        assert phys[k] == pa[k];
      } else {
        StartRight(la, pa, lb, pb, k - n);
        assert phys[k] == pb[k - n] + n;
      }
    }
    StartRight(la, pa, lb, pb, m);
  }

  lemma {:induction false} TilesJoined(la: seq<nat>, oa: seq<nat>, pa: seq<nat>, ra: seq<nat>,
                                       lb: seq<nat>, ob: seq<nat>, pb: seq<nat>, rb: seq<nat>, offs': seq<nat>)
    requires Tiles(la, oa, pa, ra) && Tiles(lb, ob, pb, rb) && OffsJoined(oa, ob, offs')
    ensures Tiles(la + lb, offs', pa + Shifted(pb, |la|), ra + Shifted(rb, |la|))
  {
    RanksJoined(|la|, pa, ra, |lb|, pb, rb);
    LaidJoined(la, oa, pa, lb, ob, pb, offs');
  }
}
