/**
 A node as it is on disk: records packed behind the header, a table of offsets at the end,
 and the fields recs_count and free_space.  Each operation works on the bytes and is shown
 to act on the sequence of records.
 */
module SlottedPage {
  import opened Layout
  import opened Tiling
  import opened PageMemory

  type Raw = seq<Byte>

  // offset of record_len in struct vdfs4_generic_key
  const LEN_FIELD: nat := 6

  /** A record as it is stored: its own length is in its record_len field. */
  predicate RawOk(r: Raw) {
    MIN_KEY_LEN <= |r| <= MAX_REC_LEN && Le16(r, LEN_FIELD) == |r|
  }

  ghost function Lens(recs: seq<Raw>): (s: seq<nat>)
    ensures |s| == |recs| && forall i :: 0 <= i < |s| ==> s[i] == |recs[i]|
  {
    seq<nat>(|recs|, i requires 0 <= i < |recs| => |recs[i]|)
  }

  ghost function Offs(m: Memory, count: nat): (s: seq<nat>)
    requires SlotIn(|m|, count)
    ensures |s| == count + 1 && forall i :: 0 <= i < |s| ==> s[i] == Off(m, i)
  {
    seq<nat>(count + 1, i requires 0 <= i < count + 1 => Off(m, i))
  }

  /** Bytes of records and slots, as free_space counts them. */
  ghost function Occupied(recs: seq<Raw>): nat {
    if recs == [] then 0 else Occupied(recs[..|recs| - 1]) + |recs[|recs| - 1]| + SLOT
  }

  ghost predicate BytesAt(m: Memory, recs: seq<Raw>) {
    && SlotIn(|m|, |recs|)
    && forall i :: 0 <= i < |recs| ==> Off(m, i) + |recs[i]| <= |m| && m[Off(m, i)..Off(m, i) + |recs[i]|] == recs[i]
  }

  /**
   The node holds exactly the given records: they tile the data area from the header to the
   free offset, and the free area reaches from there to the last slot in use.
   */
  ghost predicate Holds(m: Memory, free: nat, recs: seq<Raw>, phys: seq<nat>, rank: seq<nat>) {
    && SlotIn(|m|, |recs|)
    && (forall i :: 0 <= i < |recs| ==> RawOk(recs[i]))
    && Tiles(Lens(recs), Offs(m, |recs|), phys, rank)
    && BytesAt(m, recs)
    && Off(m, |recs|) + free == SlotAddr(|m|, |recs|)
    && free + FIXED + Occupied(recs) == |m|
  }

  lemma {:induction false} RecordInside(m: Memory, free: nat, recs: seq<Raw>, phys: seq<nat>, rank: seq<nat>, i: nat)
    requires Holds(m, free, recs, phys, rank) && i < |recs|
    ensures HEADER <= Off(m, i) && Off(m, i) + |recs[i]| <= Off(m, |recs|) <= SlotAddr(|m|, |recs|)
    ensures SlotIn(|m|, i)
  {
    Inside(Lens(recs), Offs(m, |recs|), phys, rank, i);
  }

  // ---------- placing a record ----------

  lemma {:induction false} OccupiedConcat(a: seq<Raw>, b: seq<Raw>)
    ensures Occupied(a + b) == Occupied(a) + Occupied(b)
    decreases |b|
  {
    if b == [] {
      assert a + b == a;
    } else {
      var c := b[..|b| - 1];
      assert (a + b)[..|a + b| - 1] == a + c;
      OccupiedConcat(a, c);
    }
  }

  lemma {:induction false} TotalIns(recs: seq<Raw>, p: nat, r: Raw)
    requires p <= |recs|
    ensures Occupied(InsertAt(recs, p, r)) == Occupied(recs) + |r| + SLOT
  {
    assert [r][..0] == [];
    OccupiedConcat(recs[..p] + [r], recs[p..]);
    OccupiedConcat(recs[..p], [r]);
    OccupiedConcat(recs[..p], recs[p..]);
    assert recs == recs[..p] + recs[p..];
  }

  lemma {:induction false} TotalDel(recs: seq<Raw>, p: nat)
    requires p < |recs|
    ensures Occupied(DeleteAt(recs, p)) == Occupied(recs) - |recs[p]| - SLOT
  {
    assert recs == InsertAt(DeleteAt(recs, p), p, recs[p]);
    TotalIns(DeleteAt(recs, p), p, recs[p]);
  }

  /** The memory after a record is placed at the free offset and its slot put in at p. */
  ghost predicate PlacedIn(m: Memory, recs: seq<Raw>, p: nat, r: Raw, w: Memory) {
    && SlotIn(|m|, |recs|) && |w| == |m| && p <= |recs| && SlotIn(|m|, |recs| + 1)
    && var fo := Off(m, |recs|);
    && fo + |r| <= SlotAddr(|m|, |recs| + 1)
    && (forall a :: 0 <= a < fo ==> w[a] == m[a])
    && w[fo..fo + |r|] == r
    && Offs(w, |recs| + 1) == OffsPlaced(Offs(m, |recs|), p, |r|)
  }

  lemma {:induction false} LensIns(recs: seq<Raw>, p: nat, r: Raw)
    requires p <= |recs|
    ensures Lens(InsertAt(recs, p, r)) == InsertAt(Lens(recs), p, |r|)
  {
  }

  lemma {:induction false} BytesPlaced(m: Memory, free: nat, recs: seq<Raw>, phys: seq<nat>, rank: seq<nat>,
                                       p: nat, r: Raw, w: Memory)
    requires Holds(m, free, recs, phys, rank) && PlacedIn(m, recs, p, r, w)
    ensures BytesAt(w, InsertAt(recs, p, r))
  {
    hide Holds, Off, OffsPlaced;
    var n := |recs|;
    var recs' := InsertAt(recs, p, r);
    forall i | 0 <= i < n + 1
      ensures Off(w, i) + |recs'[i]| <= |w| && w[Off(w, i)..Off(w, i) + |recs'[i]|] == recs'[i]
    {
      assert Off(w, i) == Offs(w, n + 1)[i];
      if i == p {
        OffsPlacedAt(Offs(m, n), p, |r|, n);
      } else {
        var j := if i < p then i else i - 1;
        OffsPlacedAt(Offs(m, n), p, |r|, j);
        assert recs'[i] == recs[j] && Off(w, i) == Off(m, j);
        RecordInside(m, free, recs, phys, rank, j);
        RecordBytes(m, free, recs, phys, rank, j);
        assert m[Off(m, j)..Off(m, j) + |recs[j]|] == w[Off(m, j)..Off(m, j) + |recs[j]|];
      }
    }
  }

  lemma {:induction false} HoldsPlaced(m: Memory, free: nat, recs: seq<Raw>, phys: seq<nat>, rank: seq<nat>,
                                       p: nat, r: Raw, w: Memory)
    requires |phys| == |rank| == |recs| && p <= |recs| && free >= |r| + SLOT
    requires Holds(m, free, recs, phys, rank) && PlacedIn(m, recs, p, r, w) && RawOk(r)
    ensures Holds(w, free - |r| - SLOT, InsertAt(recs, p, r), PhysPlaced(phys, p), InsertAt<nat>(rank, p, |recs|))
  {
    hide Tiles, Off, Le16, Le32, Occupied, OffsPlaced, RawOk, BytesAt, PhysPlaced;
    var n := |recs|;
    BytesPlaced(m, free, recs, phys, rank, p, r, w);
    TilesPlaced(Lens(recs), Offs(m, n), phys, rank, p, |r|);
    LensIns(recs, p, r);
    TotalIns(recs, p, r);
    OffsPlacedAt(Offs(m, n), p, |r|, n);
    assert Off(w, n + 1) == Offs(w, n + 1)[n + 1];
  }

  // ---------- removing a record ----------

  /** The memory after the bytes behind record p are moved down over it and its slot is taken out. */
  ghost predicate RemovedFrom(m: Memory, recs: seq<Raw>, p: nat, w: Memory) {
    && SlotIn(|m|, |recs|) && |w| == |m| && p < |recs|
    && var at, len := Off(m, p), |recs[p]|;
    && at + len <= Off(m, |recs|) <= |m|
    && (forall a :: 0 <= a < at ==> w[a] == m[a])
    && (forall a :: at + len <= a < Off(m, |recs|) ==> w[a - len] == m[a])
    && OffsRemoved(Offs(m, |recs|), p, len, Offs(w, |recs| - 1))
  }

  lemma {:induction false} LensDel(recs: seq<Raw>, p: nat)
    requires p < |recs|
    ensures Lens(DeleteAt(recs, p)) == DeleteAt(Lens(recs), p)
  {
  }

  /** Where the other records are, seen from the removed one. */
  lemma {:induction false} Sides(m: Memory, free: nat, recs: seq<Raw>, phys: seq<nat>, rank: seq<nat>, p: nat, j: nat)
    requires Holds(m, free, recs, phys, rank) && p < |recs| && j < |recs| && j != p
    ensures if Off(m, j) > Off(m, p) then Off(m, p) + |recs[p]| <= Off(m, j)
            else Off(m, j) + |recs[j]| <= Off(m, p)
  {
    Apart(Lens(recs), Offs(m, |recs|), phys, rank, p, j);
  }

  lemma {:induction false} BytesRemoved(m: Memory, free: nat, recs: seq<Raw>, phys: seq<nat>, rank: seq<nat>,
                                        p: nat, w: Memory, i: nat)
    requires Holds(m, free, recs, phys, rank) && RemovedFrom(m, recs, p, w) && i + 1 < |recs|
    ensures Off(w, i) + |DeleteAt(recs, p)[i]| <= |w| && w[Off(w, i)..Off(w, i) + |DeleteAt(recs, p)[i]|] == DeleteAt(recs, p)[i]
  {
    hide Holds, Off;
    var n := |recs|;
    var j := if i < p then i else i + 1;
    assert DeleteAt(recs, p)[i] == recs[j];
    RecordInside(m, free, recs, phys, rank, j);
    RecordBytes(m, free, recs, phys, rank, j);
    Sides(m, free, recs, phys, rank, p, j);
    RemovedOff(m, recs, p, w, i);
    MovedBytes(m, w, Off(m, j), Off(w, i), |recs[j]|, Off(m, p), |recs[p]|, Off(m, n));
  }

  lemma {:induction false} RemovedOff(m: Memory, recs: seq<Raw>, p: nat, w: Memory, i: nat)
    requires RemovedFrom(m, recs, p, w) && i + 1 < |recs|
    ensures SlotIn(|m|, p) && SlotIn(|m|, i) && SlotIn(|m|, i + 1)
    ensures Off(w, i) == Moved(Off(m, if i < p then i else i + 1), Off(m, p), |recs[p]|)
  {
    hide Off;
    var n := |recs|;
    var j := if i < p then i else i + 1;
    assert Offs(w, n - 1)[i] == Off(w, i) && Offs(m, n)[j] == Off(m, j) && Offs(m, n)[p] == Off(m, p);
  }

  /** A record keeps its bytes, whether it moves down or not. */
  lemma {:induction false} MovedBytes(m: Memory, w: Memory, from: nat, to: nat, len: nat, at: nat, gap: nat, end: nat)
    requires |w| == |m| && from + len <= end <= |m| && at + gap <= end && to == Moved(from, at, gap)
    requires if from > at then at + gap <= from else from + len <= at
    requires forall a :: 0 <= a < at ==> w[a] == m[a]
    requires forall a :: at + gap <= a < end ==> w[a - gap] == m[a]
    ensures to + len <= |w| && w[to..to + len] == m[from..from + len]
  {
    var x, y := m[from..from + len], w[to..to + len];
    forall k | 0 <= k < len ensures y[k] == x[k] {
      if from > at { assert w[(from + k) - gap] == m[from + k]; }
    }
  }

  lemma {:induction false} AllBytesRemoved(m: Memory, free: nat, recs: seq<Raw>, phys: seq<nat>, rank: seq<nat>,
                                           p: nat, w: Memory)
    requires Holds(m, free, recs, phys, rank) && RemovedFrom(m, recs, p, w)
    ensures BytesAt(w, DeleteAt(recs, p))
  {
    hide Holds, RemovedFrom, Off, DeleteAt;
    assert |w| == |m| && SlotIn(|m|, |recs|) && p < |recs| by { RemovedBounds(m, free, recs, phys, rank, p, w); }
    forall i | 0 <= i < |recs| - 1
      ensures Off(w, i) + |DeleteAt(recs, p)[i]| <= |w| && w[Off(w, i)..Off(w, i) + |DeleteAt(recs, p)[i]|] == DeleteAt(recs, p)[i] {
      BytesRemoved(m, free, recs, phys, rank, p, w, i);
    }
  }

  lemma {:induction false} RemovedBounds(m: Memory, free: nat, recs: seq<Raw>, phys: seq<nat>, rank: seq<nat>,
                                         p: nat, w: Memory)
    requires Holds(m, free, recs, phys, rank) && RemovedFrom(m, recs, p, w)
    ensures |w| == |m| && SlotIn(|m|, |recs|) && p < |recs|
    ensures Off(w, |recs| - 1) == Off(m, |recs|) - |recs[p]|
  {
    hide Tiles, Off, Le16, Le32, Occupied;
    var n := |recs|;
    RecordInside(m, free, recs, phys, rank, p);
    assert Offs(w, n - 1)[n - 1] == Off(w, n - 1) && Offs(m, n)[n] == Off(m, n) && Offs(m, n)[p] == Off(m, p);
    assert |recs[p]| > 0;
  }

  lemma {:induction false} HoldsRemoved(m: Memory, free: nat, recs: seq<Raw>, phys: seq<nat>, rank: seq<nat>,
                                        p: nat, w: Memory)
    requires Holds(m, free, recs, phys, rank) && RemovedFrom(m, recs, p, w)
    ensures p < |rank| && rank[p] < |phys|
    ensures Holds(w, free + |recs[p]| + SLOT, DeleteAt(recs, p), PhysRemoved(phys, rank[p], p), RankRemoved(rank, p))
  {
    hide Tiles, Off, Le16, Le32, Occupied, PhysRemoved, RankRemoved, BytesAt;
    var n := |recs|;
    RankBounds(Lens(recs), Offs(m, n), phys, rank, p);
    assert forall i :: 0 <= i < n ==> RawOk(recs[i]) && Lens(recs)[i] > 0;
    AllBytesRemoved(m, free, recs, phys, rank, p, w);
    TilesRemoved(Lens(recs), Offs(m, n), phys, rank, p, Offs(w, n - 1));
    LensDel(recs, p);
    TotalDel(recs, p);
    RemovedBounds(m, free, recs, phys, rank, p, w);
  }

  // ---------- appending the records of another node ----------

  /** The memory after the right node's data area is copied behind the left one's, slots included. */
  ghost predicate JoinedIn(m: Memory, recs: seq<Raw>, rm: Memory, rrecs: seq<Raw>, w: Memory) {
    && SlotIn(|m|, |recs|) && SlotIn(|rm|, |rrecs|) && |w| == |m| && SlotIn(|m|, |recs| + |rrecs|)
    && var fo, ro := Off(m, |recs|), Off(rm, |rrecs|);
    && HEADER <= ro <= |rm| && fo + ro - HEADER <= SlotAddr(|m|, |recs| + |rrecs|)
    && (forall a :: 0 <= a < fo ==> w[a] == m[a])
    && w[fo..fo + ro - HEADER] == rm[HEADER..ro]
    && OffsJoined(Offs(m, |recs|), Offs(rm, |rrecs|), Offs(w, |recs| + |rrecs|))
  }

  lemma {:induction false} LensConcat(a: seq<Raw>, b: seq<Raw>)
    ensures Lens(a + b) == Lens(a) + Lens(b)
  {
  }

  lemma {:induction false} BytesJoined(m: Memory, free: nat, recs: seq<Raw>, phys: seq<nat>, rank: seq<nat>,
                                       rm: Memory, rfree: nat, rrecs: seq<Raw>, rphys: seq<nat>, rrank: seq<nat>,
                                       w: Memory, i: nat)
    requires Holds(m, free, recs, phys, rank) && Holds(rm, rfree, rrecs, rphys, rrank)
    requires JoinedIn(m, recs, rm, rrecs, w) && i < |recs| + |rrecs|
    ensures var s := recs + rrecs; Off(w, i) + |s[i]| <= |w| && w[Off(w, i)..Off(w, i) + |s[i]|] == s[i]
  {
    hide Holds, Off, JoinedIn;
    JoinedOff(m, recs, rm, rrecs, w, i);
    if i < |recs| {
      RecordInside(m, free, recs, phys, rank, i);
      RecordBytes(m, free, recs, phys, rank, i);
      LeftBytes(m, recs, rm, rrecs, w, Off(m, i), |recs[i]|);
    } else {
      var j := i - |recs|;
      RecordInside(rm, rfree, rrecs, rphys, rrank, j);
      RecordBytes(rm, rfree, rrecs, rphys, rrank, j);
      RightBytes(m, recs, rm, rrecs, w, Off(rm, j), |rrecs[j]|);
    }
  }

  lemma {:induction false} JoinedOff(m: Memory, recs: seq<Raw>, rm: Memory, rrecs: seq<Raw>, w: Memory, i: nat)
    requires JoinedIn(m, recs, rm, rrecs, w) && i < |recs| + |rrecs|
    ensures |w| == |m| && SlotIn(|m|, |recs|) && SlotIn(|rm|, |rrecs|) && SlotIn(|m|, i)
    ensures i < |recs| ==> Off(w, i) == Off(m, i)
    ensures i >= |recs| ==> SlotIn(|rm|, i - |recs|) && Off(w, i) == Off(m, |recs|) + Off(rm, i - |recs|) - HEADER
  {
    hide Off;
    var n, k := |recs|, |rrecs|;
    assert Offs(w, n + k)[i] == Off(w, i) && Offs(m, n)[n] == Off(m, n);
    if i < n {
      assert Offs(m, n)[i] == Off(m, i);
    } else {
      assert Offs(rm, k)[i - n] == Off(rm, i - n);
    }
  }

  lemma {:induction false} LeftBytes(m: Memory, recs: seq<Raw>, rm: Memory, rrecs: seq<Raw>, w: Memory, o: nat, len: nat)
    requires JoinedIn(m, recs, rm, rrecs, w) && o + len <= Off(m, |recs|) <= |m|
    ensures o + len <= |w| && w[o..o + len] == m[o..o + len]
  {
    hide Off, Offs, OffsJoined;
  }

  lemma {:induction false} RightBytes(m: Memory, recs: seq<Raw>, rm: Memory, rrecs: seq<Raw>, w: Memory, o: nat, len: nat)
    requires JoinedIn(m, recs, rm, rrecs, w) && HEADER <= o && o + len <= Off(rm, |rrecs|) <= |rm|
    ensures var at := Off(m, |recs|) + o - HEADER; 0 <= at && at + len <= |w| && w[at..at + len] == rm[o..o + len]
  {
    hide Off, Offs, OffsJoined;
    SliceOfCopy(w, Off(m, |recs|), rm, Off(rm, |rrecs|), o, len);
  }

  /** A part of a copied area is the same part of the original. */
  lemma {:induction false} SliceOfCopy(w: Memory, fo: nat, rm: Memory, ro: nat, o: nat, len: nat)
    requires HEADER <= o && o + len <= ro <= |rm| && fo + ro - HEADER <= |w|
    requires w[fo..fo + ro - HEADER] == rm[HEADER..ro]
    ensures w[fo + o - HEADER..fo + o - HEADER + len] == rm[o..o + len]
  {
    SubSlice(w, fo, fo + ro - HEADER, o - HEADER, o - HEADER + len);
    SubSlice(rm, HEADER, ro, o - HEADER, o - HEADER + len);
  }

  lemma {:induction false} SubSlice(m: Memory, a: nat, b: nat, c: nat, d: nat)
    requires a <= b <= |m| && c <= d <= b - a
    ensures m[a..b][c..d] == m[a + c..a + d]
  {
    var x, y, z := m[a..b], m[a..b][c..d], m[a + c..a + d];
    forall i | 0 <= i < d - c ensures y[i] == z[i] {
      assert y[i] == x[c + i] == m[a + c + i];
    }
  }

  lemma {:induction false} AllBytesJoined(m: Memory, free: nat, recs: seq<Raw>, phys: seq<nat>, rank: seq<nat>,
                                          rm: Memory, rfree: nat, rrecs: seq<Raw>, rphys: seq<nat>, rrank: seq<nat>,
                                          w: Memory)
    requires Holds(m, free, recs, phys, rank) && Holds(rm, rfree, rrecs, rphys, rrank)
    requires JoinedIn(m, recs, rm, rrecs, w)
    ensures BytesAt(w, recs + rrecs)
  {
    hide Holds, Off, Offs, OffsJoined;
    var s := recs + rrecs;
    forall i | 0 <= i < |s| ensures Off(w, i) + |s[i]| <= |w| && w[Off(w, i)..Off(w, i) + |s[i]|] == s[i] {
      BytesJoined(m, free, recs, phys, rank, rm, rfree, rrecs, rphys, rrank, w, i);
    }
  }

  lemma {:induction false} HoldsJoined(m: Memory, free: nat, recs: seq<Raw>, phys: seq<nat>, rank: seq<nat>,
                                       rm: Memory, rfree: nat, rrecs: seq<Raw>, rphys: seq<nat>, rrank: seq<nat>, w: Memory)
    requires Holds(m, free, recs, phys, rank) && Holds(rm, rfree, rrecs, rphys, rrank)
    requires JoinedIn(m, recs, rm, rrecs, w)
    ensures free - Occupied(rrecs) >= 0
    ensures Holds(w, free - Occupied(rrecs), recs + rrecs,
                  phys + Shifted(rphys, |recs|), rank + Shifted(rrank, |recs|))
  {
    hide Tiles, Off, Le16, Le32, RawOk, Shifted, BytesAt, Occupied;
    var n, k := |recs|, |rrecs|;
    AllBytesJoined(m, free, recs, phys, rank, rm, rfree, rrecs, rphys, rrank, w);
    TilesJoined(Lens(recs), Offs(m, n), phys, rank, Lens(rrecs), Offs(rm, k), rphys, rrank, Offs(w, n + k));
    LensConcat(recs, rrecs);
    OccupiedConcat(recs, rrecs);
    assert Offs(w, n + k)[n + k] == Off(w, n + k) && Offs(m, n)[n] == Off(m, n) && Offs(rm, k)[k] == Off(rm, k);
  }

  // ---------- writing into a record ----------

  /** A record with some of its bytes replaced. */
  function Patched(r: Raw, at: nat, src: Raw): (q: Raw)
    requires at + |src| <= |r|
    ensures |q| == |r|
  {
    r[..at] + src + r[at + |src|..]
  }

  /** The memory after bytes of record i, from its at-th on, are overwritten. */
  ghost predicate FilledIn(m: Memory, recs: seq<Raw>, i: nat, at: nat, src: Raw, w: Memory) {
    && SlotIn(|m|, |recs|) && i < |recs| && SlotIn(|m|, i) && MIN_KEY_LEN <= at && at + |src| <= |recs[i]|
    && Off(m, i) + at + |src| <= |m|
    && w == m[..Off(m, i) + at] + src + m[Off(m, i) + at + |src|..]
  }

  lemma {:induction false} RecordFilled(m: Memory, free: nat, recs: seq<Raw>, phys: seq<nat>, rank: seq<nat>,
                                        i: nat, at: nat, src: Raw, w: Memory, j: nat)
    requires Holds(m, free, recs, phys, rank) && FilledIn(m, recs, i, at, src, w) && j < |recs|
    ensures SlotIn(|m|, j) && Off(m, j) + |recs[j]| <= |m|
    ensures w[Off(m, j)..Off(m, j) + |recs[j]|] == if j == i then Patched(recs[i], at, src) else recs[j]
  {
    hide Holds, Off;
    RecordInside(m, free, recs, phys, rank, j);
    RecordInside(m, free, recs, phys, rank, i);
    RecordBytes(m, free, recs, phys, rank, j);
    var o, len := Off(m, j), |recs[j]|;
    if j != i {
      Sides(m, free, recs, phys, rank, i, j);
      BytesElsewhere(m, w, Off(m, i) + at, src, o, len);
    } else {
      BytesPatched(m, w, o, len, at, src);
    }
  }

  /** Bytes apart from the overwritten ones stay. */
  lemma {:induction false} BytesElsewhere(m: Memory, w: Memory, a: nat, src: Raw, o: nat, len: nat)
    requires a + |src| <= |m| && w == m[..a] + src + m[a + |src|..] && o + len <= |m|
    requires o + len <= a || a + |src| <= o
    ensures w[o..o + len] == m[o..o + len]
  {
    var x, y := w[o..o + len], m[o..o + len];
    forall k | 0 <= k < len ensures x[k] == y[k] {
      assert w[o + k] == m[o + k];
    }
  }

  /** The overwritten record is the old one with the bytes replaced. */
  lemma {:induction false} BytesPatched(m: Memory, w: Memory, o: nat, len: nat, at: nat, src: Raw)
    requires o + len <= |m| && at + |src| <= len && w == m[..o + at] + src + m[o + at + |src|..]
    ensures w[o..o + len] == Patched(m[o..o + len], at, src)
  {
    var r, x := m[o..o + len], w[o..o + len];
    var y := Patched(r, at, src);
    forall k | 0 <= k < len ensures x[k] == y[k] {
      assert x[k] == w[o + k] && r[k] == m[o + k];
      assert y[k] == if at <= k < at + |src| then src[k - at] else r[k];
    }
  }

  lemma {:induction false} BytesFilled(m: Memory, free: nat, recs: seq<Raw>, phys: seq<nat>, rank: seq<nat>,
                                       i: nat, at: nat, src: Raw, w: Memory)
    requires Holds(m, free, recs, phys, rank) && FilledIn(m, recs, i, at, src, w)
    ensures |w| == |m| && Offs(w, |recs|) == Offs(m, |recs|) && Off(w, |recs|) == Off(m, |recs|)
    ensures BytesAt(w, recs[i := Patched(recs[i], at, src)])
  {
    hide Holds, Off, Patched;
    RecordInside(m, free, recs, phys, rank, i);
    SlotsKept(m, w, |recs|, Off(m, i) + |recs[i]|);
    hide FilledIn;
    var s := recs[i := Patched(recs[i], at, src)];
    forall j | 0 <= j < |s| ensures Off(w, j) + |s[j]| <= |w| && w[Off(w, j)..Off(w, j) + |s[j]|] == s[j] {
      RecordFilled(m, free, recs, phys, rank, i, at, src, w, j);
      assert Offs(w, |recs|)[j] == Off(w, j) && Offs(m, |recs|)[j] == Off(m, j);
    }
  }

  lemma {:induction false} HoldsFilled(m: Memory, free: nat, recs: seq<Raw>, phys: seq<nat>, rank: seq<nat>,
                                       i: nat, at: nat, src: Raw, w: Memory)
    requires Holds(m, free, recs, phys, rank) && FilledIn(m, recs, i, at, src, w)
    ensures Holds(w, free, recs[i := Patched(recs[i], at, src)], phys, rank)
  {
    hide Tiles, Off, Offs, Occupied, BytesAt, Patched, Le16;
    BytesFilled(m, free, recs, phys, rank, i, at, src, w);
    var s := recs[i := Patched(recs[i], at, src)];
    assert Lens(s) == Lens(recs);
    SameLensTotal(recs, s, |recs|);
    assert recs[..|recs|] == recs && s[..|recs|] == s;
    LengthKept(recs[i], at, src);
    hide FilledIn;
  }

  /** A write behind the fixed part of the key leaves the length field alone. */
  lemma {:induction false} LengthKept(r: Raw, at: nat, src: Raw)
    requires RawOk(r) && MIN_KEY_LEN <= at && at + |src| <= |r|
    ensures RawOk(Patched(r, at, src))
  {
  }

  lemma {:induction false} SameLensTotal(a: seq<Raw>, b: seq<Raw>, k: nat)
    requires k <= |a| == |b| && forall j :: 0 <= j < |a| ==> |a[j]| == |b[j]|
    ensures Occupied(a[..k]) == Occupied(b[..k])
  {
    if k > 0 {
      SameLensTotal(a, b, k - 1);
      assert a[..k][..k - 1] == a[..k - 1] && b[..k][..k - 1] == b[..k - 1];
    }
  }

  // ---------- facts for the operations ----------

  lemma {:induction false} EmptyHolds(m: Memory)
    requires NodeSizeOk(|m|) && SlotIn(|m|, 0) && Off(m, 0) == HEADER
    ensures Holds(m, |m| - FIXED, [], [], [])
  {
  }

  /** The free area lies between the records and the slots. */
  lemma {:induction false} FreeFacts(m: Memory, free: nat, recs: seq<Raw>, phys: seq<nat>, rank: seq<nat>)
    requires Holds(m, free, recs, phys, rank)
    ensures SlotIn(|m|, |recs|) && HEADER <= Off(m, |recs|) && Off(m, |recs|) + free == SlotAddr(|m|, |recs|)
    ensures free + FIXED + Occupied(recs) == |m| && |rank| == |phys| == |recs|
  {
    StartAtLeast(Lens(recs), phys, |recs|);
    assert Offs(m, |recs|)[|recs|] == Off(m, |recs|);
  }

  lemma {:induction false} SlotInMono(size: nat, i: nat, j: nat)
    requires SlotIn(size, i) && j <= i
    ensures SlotIn(size, j) && SlotAddr(size, i) <= SlotAddr(size, j)
  {
  }

  /** The slots after the table is opened at p and the two new offsets are written. */
  lemma {:induction false} SlotsPlaced(m: Memory, w: Memory, w1: Memory, w2: Memory, w3: Memory, n: nat, p: nat, len: nat)
    requires SlotIn(|m|, n + 1) && p <= n && |w| == |w1| == |m|
    requires forall x :: 0 <= x <= n ==> SlotIn(|m|, x) && Off(w, x) == Off(m, x)
    requires forall x :: 0 <= x < p ==> Off(w1, x) == Off(w, x)
    requires forall x :: p < x <= n ==> Off(w1, x) == Off(w, x - 1)
    requires SlotSet(w1, p, Off(m, n), w2) && SlotSet(w2, n + 1, Off(m, n) + len, w3)
    ensures Offs(w3, n + 1) == OffsPlaced(Offs(m, n), p, len)
  {
    hide Off, OffsPlaced, Offs;
    var s, t := Offs(w3, n + 1), OffsPlaced(Offs(m, n), p, len);
    forall x | 0 <= x <= n + 1 ensures s[x] == t[x] {
      SlotInMono(|m|, n + 1, x);
      if x != n + 1 { OtherSlots(w2, n + 1, Off(m, n) + len, w3, x); }
      if x < p {
        OtherSlots(w1, p, Off(m, n), w2, x);
        OffsPlacedAt(Offs(m, n), p, len, x);
      } else if x == p || x == n + 1 {
        OffsPlacedAt(Offs(m, n), p, len, n);
      } else {
        OtherSlots(w1, p, Off(m, n), w2, x);
        OffsPlacedAt(Offs(m, n), p, len, x - 1);
      }
    }
  }

  /** The data area below the slots is not touched by writing them. */
  lemma {:induction false} DataKept(w1: Memory, w2: Memory, w3: Memory, n: nat, p: nat, u: nat, v: nat, a: nat)
    requires SlotSet(w1, p, u, w2) && SlotSet(w2, n, v, w3) && p <= n && a < SlotAddr(|w1|, n)
    ensures w3[a] == w1[a]
  {
    assert !InSlot(|w1|, p, a) && !InSlot(|w1|, n, a);
  }

  lemma {:induction false} RoomForSlot(size: nat, n: nat, fo: nat, free: nat, len: nat)
    requires SlotIn(size, n) && HEADER <= fo && fo + free == SlotAddr(size, n) && free >= len + SLOT
    ensures SlotIn(size, n + 1) && fo + len <= SlotAddr(size, n + 1) < SlotAddr(size, n) < size
  {
  }

  /** Slots are not changed by writes below the table. */
  lemma {:induction false} SlotsKept(m: Memory, w: Memory, n: nat, end: nat)
    requires |w| == |m| && SlotIn(|m|, n) && end <= SlotAddr(|m|, n)
    requires forall a :: end <= a < |m| ==> w[a] == m[a]
    ensures Offs(w, n) == Offs(m, n) && Off(w, n) == Off(m, n)
    ensures forall x :: 0 <= x <= n ==> SlotIn(|m|, x) && Off(w, x) == Off(m, x)
  {
    forall x | 0 <= x <= n ensures SlotIn(|m|, x) && Off(w, x) == Off(m, x) {
      SlotInMono(|m|, n, x);
      SameBytesSameSlot(m, w, x);
    }
  }

  lemma {:induction false} PlacedFacts(m: Memory, recs: seq<Raw>, p: nat, r: Raw, w: Memory, w': Memory)
    requires SlotIn(|m|, |recs|) && SlotIn(|m|, |recs| + 1) && |w| == |m| == |w'| && p <= |recs|
    requires Off(m, |recs|) + |r| <= SlotAddr(|m|, |recs| + 1)
    requires forall a :: 0 <= a < |m| && !(Off(m, |recs|) <= a < Off(m, |recs|) + |r|) ==> w[a] == m[a]
    requires r == w[Off(m, |recs|)..Off(m, |recs|) + |r|]
    requires forall a :: 0 <= a < SlotAddr(|m|, |recs| + 1) ==> w'[a] == w[a]
    requires Offs(w', |recs| + 1) == OffsPlaced(Offs(m, |recs|), p, |r|)
    ensures PlacedIn(m, recs, p, r, w')
  {
    hide Off, Offs, OffsPlaced;
    var fo := Off(m, |recs|);
    assert w'[fo..fo + |r|] == w[fo..fo + |r|];
  }

  /** Setting one slot keeps the others and the data below the table. */
  lemma {:induction false} OneSlot(m: Memory, i: nat, v: nat, w: Memory, n: nat)
    requires SlotSet(m, i, v, w) && i <= n && SlotIn(|m|, n)
    ensures forall x :: 0 <= x <= n && x != i ==> SlotIn(|m|, x) && Off(w, x) == Off(m, x)
    ensures forall a :: 0 <= a < SlotAddr(|m|, n) ==> w[a] == m[a]
  {
    forall x | 0 <= x <= n && x != i ensures SlotIn(|m|, x) && Off(w, x) == Off(m, x) {
      SlotInMono(|m|, n, x);
      OtherSlots(m, i, v, w, x);
    }
    forall a | 0 <= a < SlotAddr(|m|, n) ensures w[a] == m[a] {
      assert !InSlot(|m|, i, a);
    }
  }

  lemma {:induction false} SlotsRemoved(m: Memory, w: Memory, w': Memory, p: nat, n: nat, len: nat)
    requires |w| == |w'| == |m| && SlotIn(|m|, n) && p < n && Off(m, p) < Off(m, n)
    requires forall x :: 0 <= x <= n ==> SlotIn(|m|, x)
    requires forall x :: 0 <= x < n ==> Off(w, x) == Moved(Off(m, x), Off(m, p), len)
    requires forall x :: 0 <= x < p && x < n - 1 ==> Off(w', x) == Off(w, x)
    requires forall x :: p <= x < n - 1 ==> Off(w', x) == Off(w, x + 1)
    requires Off(w', n - 1) == Off(m, n) - len
    ensures OffsRemoved(Offs(m, n), p, len, Offs(w', n - 1))
  {
    hide Off;
    var s, t := Offs(m, n), Offs(w', n - 1);
    hide Offs;
    assert s[p] == Off(m, p);
    forall i | 0 <= i < n ensures t[i] == Moved(s[if i < p then i else i + 1], s[p], len) {
      assert s[if i < p then i else i + 1] == Off(m, if i < p then i else i + 1);
      assert t[i] == Off(w', i);
    }
  }

  /** What delete_from_node reads of the record that goes. */
  lemma {:induction false} RecordFacts(m: Memory, free: nat, recs: seq<Raw>, phys: seq<nat>, rank: seq<nat>, p: nat)
    requires Holds(m, free, recs, phys, rank) && p < |recs|
    ensures SlotIn(|m|, p) && SlotIn(|m|, |recs|) && RawOk(recs[p])
    ensures HEADER <= Off(m, p) && Off(m, p) + |recs[p]| <= Off(m, |recs|) <= SlotAddr(|m|, |recs|)
    ensures Le16(m, Off(m, p) + LEN_FIELD) == |recs[p]|
    ensures forall x :: 0 <= x < |recs| && Off(m, x) > Off(m, p) ==> Off(m, x) > |recs[p]|
  {
    hide Tiles, Off, Occupied;
    RecordInside(m, free, recs, phys, rank, p);
    var r := m[Off(m, p)..Off(m, p) + |recs[p]|];
    assert r == recs[p] && r[LEN_FIELD] == m[Off(m, p) + LEN_FIELD] && r[LEN_FIELD + 1] == m[Off(m, p) + LEN_FIELD + 1];
    forall x | 0 <= x < |recs| && Off(m, x) > Off(m, p) ensures Off(m, x) > |recs[p]| {
      Sides(m, free, recs, phys, rank, p, x);
    }
  }

  lemma {:induction false} LenField(m: Memory, at: nat, len: nat)
    requires at + LEN_FIELD + 2 <= |m| && len == (m[at + LEN_FIELD] as int) + 256 * (m[at + LEN_FIELD + 1] as int)
    ensures Le16(m, at + LEN_FIELD) == len
  {
  }

  lemma {:induction false} RecordBytes(m: Memory, free: nat, recs: seq<Raw>, phys: seq<nat>, rank: seq<nat>, i: nat)
    requires Holds(m, free, recs, phys, rank) && i < |recs|
    ensures SlotIn(|m|, i) && Off(m, i) + |recs[i]| <= |m| && m[Off(m, i)..Off(m, i) + |recs[i]|] == recs[i]
  {
    hide Tiles, Off, Occupied;
    RecordInside(m, free, recs, phys, rank, i);
  }

  lemma {:induction false} RemovedFacts(m: Memory, recs: seq<Raw>, p: nat, w: Memory, w': Memory)
    requires |w| == |w'| == |m| && SlotIn(|m|, |recs|) && p < |recs| && SlotIn(|m|, p)
    requires Off(m, p) + |recs[p]| <= Off(m, |recs|) <= SlotAddr(|m|, |recs|)
    requires forall a :: 0 <= a < Off(m, p) || Off(m, |recs|) <= a < |m| ==> w[a] == m[a]
    requires forall a :: Off(m, p) + |recs[p]| <= a < Off(m, |recs|) ==> w[a - |recs[p]|] == m[a]
    requires forall a :: 0 <= a < SlotAddr(|m|, |recs|) ==> w'[a] == w[a]
    requires SlotIn(|m|, |recs| - 1) && Offs(w, |recs|) == Offs(m, |recs|)
    requires OffsRemoved(Offs(w, |recs|), p, |recs[p]|, Offs(w', |recs| - 1))
    ensures RemovedFrom(m, recs, p, w')
  {
    hide Off, Offs, OffsRemoved;
  }

  /** The merge test of rebalance leaves room for the data and for the slots. */
  lemma {:induction false} RoomForAll(size: nat, n: nat, free: nat, fo: nat, k: nat, rfree: nat, ro: nat)
    requires SlotIn(size, n) && SlotIn(size, k) && HEADER <= fo && HEADER <= ro
    requires fo + free == SlotAddr(size, n) && ro + rfree == SlotAddr(size, k) && free + rfree >= size
    ensures SlotIn(size, n + k) && fo + ro - HEADER <= SlotAddr(size, n + k) <= SlotAddr(size, n) < size
    ensures free >= ro - HEADER + k * SLOT
  {
  }

  lemma {:induction false} OffsetsInside(m: Memory, free: nat, recs: seq<Raw>, phys: seq<nat>, rank: seq<nat>)
    requires Holds(m, free, recs, phys, rank)
    ensures forall x :: 0 <= x <= |recs| ==> SlotIn(|m|, x) && HEADER <= Off(m, x) <= Off(m, |recs|) < |m|
  {
    FreeFacts(m, free, recs, phys, rank);
    hide Off, Tiles, Occupied;
    forall x | 0 <= x <= |recs| ensures SlotIn(|m|, x) && HEADER <= Off(m, x) <= Off(m, |recs|) < |m| {
      SlotInMono(|m|, |recs|, x);
      if x < |recs| { RecordInside(m, free, recs, phys, rank, x); }
    }
  }

  lemma {:induction false} SlotsJoined(m: Memory, rm: Memory, w: Memory, n: nat, k: nat)
    requires |w| == |m| == |rm| && SlotIn(|m|, n) && SlotIn(|m|, k) && SlotIn(|m|, n + k)
    requires forall x :: 0 <= x < n ==> SlotIn(|m|, x) && Off(w, x) == Off(m, x)
    requires forall x :: 0 <= x <= k ==> Off(w, n + x) == Off(m, n) + Off(rm, x) - HEADER
    ensures OffsJoined(Offs(m, n), Offs(rm, k), Offs(w, n + k))
  {
    hide Off;
    var a, b, c := Offs(m, n), Offs(rm, k), Offs(w, n + k);
    hide Offs;
    assert a[n] == Off(m, n);
    forall i | 0 <= i <= k ensures c[n + i] == a[n] + b[i] - HEADER {
      assert c[n + i] == Off(w, n + i) && b[i] == Off(rm, i);
    }
  }

  lemma {:induction false} JoinedFacts(m: Memory, recs: seq<Raw>, rm: Memory, rrecs: seq<Raw>, w: Memory, w': Memory)
    requires |w| == |w'| == |m| == |rm| && SlotIn(|m|, |recs|) && SlotIn(|m|, |rrecs|) && SlotIn(|m|, |recs| + |rrecs|)
    requires HEADER <= Off(rm, |rrecs|) <= |rm|
    requires Off(m, |recs|) + Off(rm, |rrecs|) - HEADER <= SlotAddr(|m|, |recs| + |rrecs|)
    requires w == m[..Off(m, |recs|)] + rm[HEADER..Off(rm, |rrecs|)] + m[Off(m, |recs|) + Off(rm, |rrecs|) - HEADER..]
    requires forall a :: 0 <= a < SlotAddr(|m|, |recs| + |rrecs|) ==> w'[a] == w[a]
    requires Offs(w, |recs|) == Offs(m, |recs|)
    requires OffsJoined(Offs(w, |recs|), Offs(rm, |rrecs|), Offs(w', |recs| + |rrecs|))
    ensures JoinedIn(m, recs, rm, rrecs, w')
  {
    hide Off, Offs, OffsJoined;
    var fo, ro := Off(m, |recs|), Off(rm, |rrecs|);
    assert w[fo..fo + ro - HEADER] == rm[HEADER..ro];
    assert w'[fo..fo + ro - HEADER] == w[fo..fo + ro - HEADER];
  }

  /** What the data area and the slots take together is what free_space does not count. */
  lemma {:induction false} TotalFromFree(m: Memory, free: nat, recs: seq<Raw>, phys: seq<nat>, rank: seq<nat>)
    requires Holds(m, free, recs, phys, rank)
    ensures SlotIn(|m|, |recs|) && Occupied(recs) == Off(m, |recs|) - HEADER + |recs| * SLOT
  {
  }

  // ---------- the walk of the sanity check ----------

  lemma {:induction false} EmptyOffset(m: Memory, free: nat, recs: seq<Raw>, phys: seq<nat>, rank: seq<nat>)
    requires Holds(m, free, recs, phys, rank) && recs == []
    ensures SlotIn(|m|, 0) && Off(m, 0) == HEADER
  {
    assert Offs(m, 0)[0] == Off(m, 0);
  }

  /** The least offset is that of the first record behind the header. */
  lemma {:induction false} WalkStart(m: Memory, free: nat, recs: seq<Raw>, phys: seq<nat>, rank: seq<nat>, least: nat)
    requires Holds(m, free, recs, phys, rank) && recs != [] && least >= HEADER
    requires forall x :: 0 <= x < |recs| ==> SlotIn(|m|, x) && least <= Off(m, x)
    ensures least == Start(Lens(recs), phys, 0) == HEADER
  {
    hide Off;
    assert Offs(m, |recs|)[phys[0]] == Off(m, phys[0]);
  }

  lemma {:induction false} InPhysicalOrder(m: Memory, free: nat, recs: seq<Raw>, phys: seq<nat>, rank: seq<nat>, k: nat)
    requires Holds(m, free, recs, phys, rank) && k < |recs|
    ensures |phys| == |recs| && phys[k] < |recs| && SlotIn(|m|, phys[k])
    ensures Off(m, phys[k]) == Start(Lens(recs), phys, k)
    ensures Start(Lens(recs), phys, k + 1) == Start(Lens(recs), phys, k) + |recs[phys[k]]|
  {
    hide Off, Occupied, BytesAt, Start;
    assert Offs(m, |recs|)[phys[k]] == Off(m, phys[k]);
    StartNext(Lens(recs), phys, k);
  }

  /** Adding the length of a record leads to the next one, or to the free area. */
  lemma {:induction false} WalkStep(m: Memory, free: nat, recs: seq<Raw>, phys: seq<nat>, rank: seq<nat>, k: nat)
    requires Holds(m, free, recs, phys, rank) && k < |recs|
    ensures |phys| == |recs| && Start(Lens(recs), phys, k) + LEN_FIELD + 2 <= |m|
    ensures var o := Start(Lens(recs), phys, k);
            o + (m[o + LEN_FIELD] as int) + 256 * (m[o + LEN_FIELD + 1] as int) == Start(Lens(recs), phys, k + 1)
    ensures 0 < Start(Lens(recs), phys, k + 1) < |m|
  {
    hide Holds, Off, Start, Lens;
    InPhysicalOrder(m, free, recs, phys, rank, k);
    RecordFacts(m, free, recs, phys, rank, phys[k]);
    FreeFacts(m, free, recs, phys, rank);
  }

  lemma {:induction false} WalkEnd(m: Memory, free: nat, recs: seq<Raw>, phys: seq<nat>, rank: seq<nat>)
    requires Holds(m, free, recs, phys, rank)
    ensures |phys| == |recs| && SlotIn(|m|, |recs|) && Off(m, |recs|) == Start(Lens(recs), phys, |recs|)
  {
    assert Offs(m, |recs|)[|recs|] == Off(m, |recs|);
  }

  /** The free space the tree computes from its records is the one the page keeps. */
  lemma {:induction false} SameFreeSpace(n: nat, m: Memory, free: nat, raws: seq<Raw>, phys: seq<nat>, rank: seq<nat>, recs: seq<Rec>)
    requires Holds(m, free, raws, phys, rank) && |m| == n
    requires |raws| == |recs| && forall i :: 0 <= i < |recs| ==> |raws[i]| == recs[i].rlen
    ensures free as int == FreeSpace(n, recs)
  {
    hide Tiles, BytesAt;
    SameTotal(raws, recs, |raws|);
    assert raws[..|raws|] == raws;
  }

  lemma {:induction false} SameTotal(raws: seq<Raw>, recs: seq<Rec>, k: nat)
    requires k <= |raws| == |recs| && forall i :: 0 <= i < |recs| ==> |raws[i]| == recs[i].rlen
    ensures Occupied(raws[..k]) == BytesTo(recs, k)
  {
    if k > 0 {
      SameTotal(raws, recs, k - 1);
      assert raws[..k][..k - 1] == raws[..k - 1];
    }
  }

  /** Records of at least len bytes: how many a node can hold. */
  lemma {:induction false} CountBound(m: Memory, free: nat, recs: seq<Raw>, phys: seq<nat>, rank: seq<nat>, len: nat)
    requires Holds(m, free, recs, phys, rank) && forall i :: 0 <= i < |recs| ==> |recs[i]| >= len
    ensures |recs| * (len + SLOT) + FIXED <= |m|
  {
    hide Tiles, BytesAt;
    TotalBound(recs, len, |recs|);
    assert recs[..|recs|] == recs;
  }

  lemma {:induction false} TotalBound(recs: seq<Raw>, len: nat, k: nat)
    requires k <= |recs| && forall i :: 0 <= i < |recs| ==> |recs[i]| >= len
    ensures Occupied(recs[..k]) >= k * (len + SLOT)
  {
    if k > 0 {
      TotalBound(recs, len, k - 1);
      assert recs[..k][..k - 1] == recs[..k - 1];
      assert k * (len + SLOT) == (k - 1) * (len + SLOT) + (len + SLOT);
    }
  }
}
