/**
 Searching a chain of nodes, and the descent from the root.
 */
module SearchTree {
  import opened Layout
  import opened Levels
  import opened LevelOps
  import opened Store
  import opened TreeState
  import opened IndexFacts
  import opened Bnode

  /** Where the search of a chain may stop: the floor is not the last record, or the next page starts above. */
  lemma {:induction false} CoverByFloor(n: nat, lv: Level, i: nat, pos: nat, key: int)
    requires LevelOk(n, lv) && i < |lv| && First(lv[i]) <= key && FloorAt(lv[i].recs, pos, key)
    requires pos + 1 < |lv[i].recs| || i + 1 == |lv| || key < First(lv[i + 1])
    ensures Covers(lv, i, key)
  {
    assert PageOk(n, lv[i]);
    forall j | i < j < |lv| ensures key < First(lv[j]) {
      FirstsAscend(n, lv, i, j);
      if i + 1 < j { FirstsAscend(n, lv, i + 1, j); }
    }
  }

  /** The ids of the pages behind one page of a level, up to another, the last one first. */
  ghost function Passed(lv: Level, from: nat, last: nat): seq<nat>
    requires from <= last < |lv|
    decreases last
  {
    if from == last then [] else [lv[last].id] + Passed(lv, from, last - 1)
  }

  lemma {:induction false} PassedAt(lv: Level, from: nat, last: nat, k: nat)
    requires from <= last < |lv|
    ensures |Passed(lv, from, last)| == last - from && (k < last - from ==> Passed(lv, from, last)[k] == lv[last - k].id)
    decreases last
  {
    if from < last { PassedAt(lv, from, last - 1, if k > 0 then k - 1 else 0); }
  }

  /**
   btree_traverse_level: search a chain from a given node, moving right past dangling nodes.
   moved lists the nodes that were reached by moving right, the last one first.
   */
  method TraverseLevel(nodes: Nodes, key: int, start: nat, ghost n: nat, ghost lv: Level, ghost from: nat)
    returns (ok: bool, id: nat, pos: nat, moved: seq<nat>, ghost i: nat)
    requires LevelOk(n, lv) && Stored(nodes, lv) && from < |lv| && lv[from].id == start
    ensures ok <==> First(lv[from]) <= key
    ensures ok ==> from <= i < |lv| && lv[i].id == id
    ensures ok ==> Covers(lv, i, key) && FloorAt(lv[i].recs, pos, key)
    ensures ok ==> moved == Passed(lv, from, i)
    ensures ok && Covers(lv, from, key) ==> i == from && moved == []
  {
    id, pos, moved, i := start, 0, [], from;
    assert PageStored(nodes, lv, i) && PageOk(n, lv[i]);
    var found := BinarySearch(nodes[id].recs, key);
    if found.Absent? {
      return false, id, pos, moved, i;
    }
    pos := found.pos;
    while pos == |nodes[id].recs| - 1 && nodes[id].next != NO_NODE
      invariant from <= i < |lv| && lv[i].id == id
      invariant PageStored(nodes, lv, i)
      invariant First(lv[i]) <= key && FloorAt(lv[i].recs, pos, key)
      invariant moved == Passed(lv, from, i)
      invariant Covers(lv, from, key) ==> i == from
      decreases |lv| - i
    {
      var next := nodes[id].next;
      assert PageStored(nodes, lv, i + 1) && PageOk(n, lv[i + 1]);
      var beyond := BinarySearch(nodes[next].recs, key);
      if beyond.Absent? {
        break;
      }
      id, pos, i := next, beyond.pos, i + 1;
      moved := [id] + moved;
    }
    assert i + 1 < |lv| ==> PageOk(n, lv[i + 1]) && lv[i + 1].id != NO_NODE;
    CoverByFloor(n, lv, i, pos, key);
    return true, id, pos, moved, i;
  }

  /** One entry of the traverse stack: the node visited on a level, and the position taken there. */
  datatype Visited = Visited(id: nat, pos: nat, level: nat)

  /** The entry for level l names the page of that level that covers key, and the floor in it. */
  ghost predicate OnPath(levels: LevelList, l: nat, i: nat, v: Visited, key: int) {
    && l < |levels| && Nonempty(levels[l])
    && v.level == l + 1
    && Covers(levels[l], i, key)
    && v.id == levels[l][i].id
    && FloorAt(levels[l][i].recs, v.pos, key)
  }

  ghost predicate PathFrom(levels: LevelList, b: nat, path: seq<nat>, stack: seq<Visited>, key: int) {
    && |path| == |stack|
    && forall k :: 0 <= k < |path| ==> OnPath(levels, b + k, path[k], stack[k], key)
  }

  lemma {:induction false} StackEntry(levels: LevelList, b: nat, path: seq<nat>, stack: seq<Visited>, key: int, k: nat)
    requires PathFrom(levels, b, path, stack, key) && k < |path|
    ensures k < |stack| && b + k < |levels| && Nonempty(levels[b + k]) && stack[k].level == b + k + 1
    ensures Covers(levels[b + k], path[k], key) && stack[k].id == levels[b + k][path[k]].id
    ensures FloorAt(levels[b + k][path[k]].recs, stack[k].pos, key)
  {
    assert OnPath(levels, b + k, path[k], stack[k], key);
  }

  /** The child under the floor record, and why it starts at or below the key. */
  lemma {:induction false} Descend(n: nat, upper: Level, lower: Level, i: nat, pos: nat, key: int) returns (j: nat)
    requires LevelOk(n, upper) && LevelOk(n, lower) && Recs(upper) <= Heads(lower)
    requires Covers(upper, i, key) && FloorAt(upper[i].recs, pos, key)
    ensures j < |lower| && lower[j].id == upper[i].recs[pos].val && First(lower[j]) <= key
    ensures Head(lower[j]) == upper[i].recs[pos]
    ensures Recs(upper) == Heads(lower) ==> Covers(lower, j, key)
  {
    var r := upper[i].recs[pos];
    assert r in upper[i].recs;
    assert r in Recs(upper);
    j := ChildOf(upper, lower, r);
    HeadKey(n, lower, j);
    if Recs(upper) == Heads(lower) {
      CoverDown(n, upper, lower, i, pos, j, key);
    }
  }

  lemma {:induction false} PushPath(levels: LevelList, b: nat, path: seq<nat>, stack: seq<Visited>, key: int,
                                    i: nat, v: Visited)
    requires b > 0 && PathFrom(levels, b, path, stack, key) && OnPath(levels, b - 1, i, v, key)
    ensures PathFrom(levels, b - 1, [i] + path, [v] + stack, key)
  {
    forall k | 0 <= k < |[i] + path| ensures OnPath(levels, b - 1 + k, ([i] + path)[k], ([v] + stack)[k], key) {
      if k > 0 { assert OnPath(levels, b + (k - 1), path[k - 1], stack[k - 1], key); }
    }
  }

  lemma {:induction false} AllNonempty(n: nat, nodes: Nodes, levels: LevelList)
    requires LevelsOk(n, nodes, levels)
    ensures forall l :: 0 <= l < |levels| ==> levels[l] != [] && Nonempty(levels[l])
  {
    forall l | 0 <= l < |levels| ensures levels[l] != [] && Nonempty(levels[l]) {
      assert LevelOk(n, levels[l]);
      assert forall i :: 0 <= i < |levels[l]| ==> PageOk(n, levels[l][i]);
    }
  }

  lemma {:induction false} PathNone(levels: LevelList, b: nat, key: int)
    ensures PathFrom(levels, b, [], [], key)
  {
  }

  // ---------- the nodes passed on the way ----------

  /** Where the search of level l starts: at the root, or at the child of the record taken above. */
  ghost predicate EntersAt(levels: LevelList, l: nat, start: nat, above: seq<nat>, stack: seq<Visited>) {
    && l < |levels| && start < |levels[l]|
    && (above == [] ==> start == 0)
    && (above != [] ==>
          && l + 1 < |levels| && stack != [] && above[0] < |levels[l + 1]|
          && stack[0].pos < |levels[l + 1][above[0]].recs|
          && Head(levels[l][start]) == levels[l + 1][above[0]].recs[stack[0].pos])
  }

  lemma {:induction false} EntersBelow(levels: LevelList, l: nat, start: nat, above: seq<nat>, stack: seq<Visited>)
    requires l + 1 < |levels| && start < |levels[l]| && above != [] && stack != [] && above[0] < |levels[l + 1]|
    requires stack[0].pos < |levels[l + 1][above[0]].recs|
    requires Head(levels[l][start]) == levels[l + 1][above[0]].recs[stack[0].pos]
    ensures EntersAt(levels, l, start, above, stack)
  {
  }

  ghost predicate StartsAt(levels: LevelList, l: nat, start: nat, i: nat, above: seq<nat>, stack: seq<Visited>) {
    EntersAt(levels, l, start, above, stack) && l < |levels| && start <= i < |levels[l]|
  }

  ghost predicate StartsFrom(levels: LevelList, b: nat, starts: seq<nat>, path: seq<nat>, stack: seq<Visited>) {
    && |starts| == |path| == |stack|
    && forall k :: 0 <= k < |path| ==> StartsAt(levels, b + k, starts[k], path[k], path[k + 1..], stack[k + 1..])
  }

  /** All nodes passed by moving right, from level b up to the top level. */
  ghost function Trail(levels: LevelList, b: nat, starts: seq<nat>, path: seq<nat>, stack: seq<Visited>): seq<nat>
    requires StartsFrom(levels, b, starts, path, stack)
    decreases |path|
  {
    if path == [] then []
    else
      StartsTail(levels, b, starts, path, stack);
      Passed(levels[b], starts[0], path[0]) + Trail(levels, b + 1, starts[1..], path[1..], stack[1..])
  }

  lemma {:induction false} StartsTail(levels: LevelList, b: nat, starts: seq<nat>, path: seq<nat>, stack: seq<Visited>)
    requires StartsFrom(levels, b, starts, path, stack) && path != []
    ensures StartsFrom(levels, b + 1, starts[1..], path[1..], stack[1..])
    ensures b < |levels| && starts[0] <= path[0] < |levels[b]|
  {
    assert StartsAt(levels, b + 0, starts[0], path[0], path[0 + 1..], stack[0 + 1..]);
    hide StartsAt;
    forall k | 0 <= k < |path| - 1
      ensures StartsAt(levels, b + 1 + k, starts[1..][k], path[1..][k], path[1..][k + 1..], stack[1..][k + 1..])
    {
      assert StartsAt(levels, b + (k + 1), starts[k + 1], path[k + 1], path[(k + 1) + 1..], stack[(k + 1) + 1..]);
      assert path[1..][k + 1..] == path[k + 2..] && stack[1..][k + 1..] == stack[k + 2..];
    }
  }

  lemma {:induction false} PushStart(levels: LevelList, b: nat, starts: seq<nat>, path: seq<nat>, stack: seq<Visited>,
                                     start: nat, i: nat, v: Visited)
    requires b > 0 && StartsFrom(levels, b, starts, path, stack) && StartsAt(levels, b - 1, start, i, path, stack)
    ensures StartsFrom(levels, b - 1, [start] + starts, [i] + path, [v] + stack)
    ensures Trail(levels, b - 1, [start] + starts, [i] + path, [v] + stack)
            == Passed(levels[b - 1], start, i) + Trail(levels, b, starts, path, stack)
  {
    hide StartsAt, Passed, Trail;
    var s, p, t := [start] + starts, [i] + path, [v] + stack;
    assert s[1..] == starts && p[1..] == path && t[1..] == stack;
    forall k | 0 <= k < |p| ensures StartsAt(levels, b - 1 + k, s[k], p[k], p[k + 1..], t[k + 1..]) {
      if k > 0 {
        assert StartsAt(levels, b + (k - 1), starts[k - 1], path[k - 1], path[(k - 1) + 1..], stack[(k - 1) + 1..]);
        assert p[k + 1..] == path[k..] && t[k + 1..] == stack[k..];
      }
    }
    TrailHead(levels, b - 1, s, p, t);
  }

  lemma {:induction false} TrailHead(levels: LevelList, b: nat, starts: seq<nat>, path: seq<nat>, stack: seq<Visited>)
    requires StartsFrom(levels, b, starts, path, stack) && path != []
    ensures b < |levels| && starts[0] <= path[0] < |levels[b]|
    ensures StartsFrom(levels, b + 1, starts[1..], path[1..], stack[1..])
    ensures Trail(levels, b, starts, path, stack)
            == Passed(levels[b], starts[0], path[0]) + Trail(levels, b + 1, starts[1..], path[1..], stack[1..])
  {
    StartsTail(levels, b, starts, path, stack);
  }

  lemma {:induction false} NoStarts(levels: LevelList, b: nat)
    ensures StartsFrom(levels, b, [], [], []) && Trail(levels, b, [], [], []) == []
  {
  }

  /** No node that was passed is indexed by the level above: every one of them is dangling. */
  lemma {:induction false} PassedDangle(n: nat, upper: Level, lower: Level, start: nat, x: nat, i: nat, pi: nat, pos: nat, key: int)
    requires LevelOk(n, upper) && LevelOk(n, lower) && Recs(upper) <= Heads(lower)
    requires start < x <= i < |lower| && Covers(lower, i, key)
    requires Covers(upper, pi, key) && FloorAt(upper[pi].recs, pos, key) && Head(lower[start]) == upper[pi].recs[pos]
    ensures Head(lower[x]) !in Recs(upper)
  {
    HeadKey(n, lower, start);
    HeadKey(n, lower, x);
    FirstsAscend(n, lower, start, x);
    FirstsOrder(n, lower, x, i);
    FloorIsGlobal(n, upper, pi, pos, key);
  }

  /** The same, said of all levels of a descent. */
  lemma {:induction false} TrailDangles(n: nat, nodes: Nodes, levels: LevelList, b: nat, starts: seq<nat>, path: seq<nat>,
                                        stack: seq<Visited>, key: int, k: nat, x: nat)
    requires LevelsOk(n, nodes, levels) && PartlyIndexed(levels, b) && PathFrom(levels, b, path, stack, key)
    requires StartsFrom(levels, b, starts, path, stack) && k + 1 < |path| && starts[k] < x <= path[k]
    ensures b + k + 1 < |levels| && x < |levels[b + k]| && Head(levels[b + k][x]) !in Recs(levels[b + k + 1])
  {
    StackEntry(levels, b, path, stack, key, k);
    StackEntry(levels, b, path, stack, key, k + 1);
    assert StartsAt(levels, b + k, starts[k], path[k], path[k + 1..], stack[k + 1..]);
    assert path[k + 1..][0] == path[k + 1] && stack[k + 1..][0] == stack[k + 1];
    assert LevelOk(n, levels[b + k]) && LevelOk(n, levels[b + k + 1]);
    assert Recs(levels[b + k + 1]) <= Heads(levels[b + k]);
    hide PathFrom, StartsFrom, LevelsOk, Recs, Heads, LevelOk;
    PassedDangle(n, levels[b + k + 1], levels[b + k], starts[k], x, path[k], path[k + 1], stack[k + 1].pos, key);
  }

  /** The descent as far as level b: the stack, where each level was entered, and the nodes passed. */
  ghost predicate Descended(levels: LevelList, b: nat, path: seq<nat>, stack: seq<Visited>, starts: seq<nat>,
                            dangling: seq<nat>, key: int) {
    && PathFrom(levels, b, path, stack, key)
    && StartsFrom(levels, b, starts, path, stack) && dangling == Trail(levels, b, starts, path, stack)
  }

  lemma {:induction false} DescendedNone(levels: LevelList, b: nat, key: int)
    ensures Descended(levels, b, [], [], [], [], key)
  {
    PathNone(levels, b, key);
    NoStarts(levels, b);
  }

  lemma {:induction false} DescendedMore(levels: LevelList, b: nat, path: seq<nat>, stack: seq<Visited>, starts: seq<nat>,
                                         dangling: seq<nat>, key: int, from: nat, i: nat, v: Visited, moved: seq<nat>)
    requires b > 0 && Descended(levels, b, path, stack, starts, dangling, key) && OnPath(levels, b - 1, i, v, key)
    requires EntersAt(levels, b - 1, from, path, stack) && from <= i < |levels[b - 1]|
    requires moved == Passed(levels[b - 1], from, i)
    ensures Descended(levels, b - 1, [i] + path, [v] + stack, [from] + starts, moved + dangling, key)
  {
    assert StartsAt(levels, b - 1, from, i, path, stack);
    hide Trail, Passed, PathFrom, StartsFrom, OnPath, EntersAt;
    PushStart(levels, b, starts, path, stack, from, i, v);
    PushPath(levels, b, path, stack, key, i, v);
  }

  /**
   vdfs4_btree_traverse: from the root down to level b (counted from the leaves, at 0).
   dangling lists the nodes found by moving right, the last found first; the stack has the deepest
   entry first.
   */
  method Traverse(nodes: Nodes, root: nat, height: nat, key: int, b: nat, ghost n: nat, ghost levels: LevelList)
    returns (ok: bool, id: nat, pos: nat, stack: seq<Visited>, dangling: seq<nat>, ghost path: seq<nat>, ghost starts: seq<nat>)
    requires height == |levels| && b < height && LevelsOk(n, nodes, levels)
    requires root == levels[height - 1][0].id && PartlyIndexed(levels, b)
    ensures ok <==> First(levels[height - 1][0]) <= key
    ensures ok ==> |path| == height - b && Descended(levels, b, path, stack, starts, dangling, key)
    ensures ok ==> PathFrom(levels, b, path, stack, key) && stack[0] == Visited(id, pos, b + 1)
    ensures ok && Indexed(levels, b) && |levels[height - 1]| == 1 ==> dangling == []
  {
    hide PathFrom, Descended, Entry, LevelsOk, PartlyIndexed, Indexed, Covers, LevelOk, PageOk, Stored;
    DescendedNone(levels, height, key);
    AllNonempty(n, nodes, levels);
    EntryTop(levels, b, root, key);
    id, pos, stack, dangling, path, starts := root, 0, [], [], [], [];
    var level: nat := height;
    var cur := root;
    ghost var from: nat := 0;
    while level > b
      invariant b <= level <= height && |stack| == |path| == height - level
      invariant Descended(levels, level, path, stack, starts, dangling, key)
      invariant level < height ==> stack[0] == Visited(id, pos, level + 1) && First(levels[height - 1][0]) <= key
      invariant level > b ==> Entry(levels, b, level - 1, from, cur, path, stack, key)
      invariant Indexed(levels, b) && |levels[height - 1]| == 1 ==> dangling == []
    {
      ok, id, pos, stack, dangling, cur, path, starts, from :=
        OneLevel(nodes, key, level, cur, level - 1 > b, stack, dangling, n, levels, b, path, starts, from);
      if !ok {
        return;
      }
      level := level - 1;
    }
    DescendedPath(levels, b, path, stack, starts, dangling, key);
    ok := true;
  }

  /** The loop of vdfs4_btree_traverse on one level: search it, push the stack entry, and take the child below. */
  method OneLevel(nodes: Nodes, key: int, level: nat, start: nat, further: bool, stack: seq<Visited>, dangling: seq<nat>,
                  ghost n: nat, ghost levels: LevelList, ghost b: nat, ghost path: seq<nat>, ghost starts: seq<nat>, ghost from: nat)
    returns (ok: bool, id: nat, pos: nat, stack': seq<Visited>, dangling': seq<nat>, child: nat,
             ghost path': seq<nat>, ghost starts': seq<nat>, ghost from': nat)
    requires 0 < level <= |levels| && LevelsOk(n, nodes, levels) && PartlyIndexed(levels, b) && (further ==> b < level - 1)
    requires Descended(levels, level, path, stack, starts, dangling, key)
    requires Entry(levels, b, level - 1, from, start, path, stack, key)
    requires forall l :: 0 <= l < |levels| ==> levels[l] != [] && Nonempty(levels[l])
    ensures !ok ==> level == |levels| && key < First(levels[|levels| - 1][0])
    ensures ok && level == |levels| ==> First(levels[|levels| - 1][0]) <= key
    ensures ok ==> |stack'| == |stack| + 1 && stack'[0] == Visited(id, pos, level) && |path'| == |path| + 1
    ensures ok ==> Descended(levels, level - 1, path', stack', starts', dangling', key)
    ensures ok && further ==> Entry(levels, b, level - 2, from', child, path', stack', key)
    ensures ok && Indexed(levels, b) && |levels[|levels| - 1]| == 1 ==> dangling' == dangling
  {
    hide PathFrom, Recs, Heads, PageOk, Before, FloorAt, ChainOk, Covers, Descended, Head, Entry, Passed;
    stack', dangling', child, path', starts', from' := stack, dangling, start, path, starts, from;
    ghost var lv := levels[level - 1];
    assert LevelOk(n, lv) && Stored(nodes, lv);
    EntryFacts(n, levels, b, level - 1, from, start, path, stack, key);
    var moved: seq<nat>;
    ghost var i: nat;
    ok, id, pos, moved, i := TraverseLevel(nodes, key, start, n, lv, from);
    if !ok {
      return;
    }
    DescendedMore(levels, level, path, stack, starts, dangling, key, from, i, Visited(id, pos, level), moved);
    dangling' := moved + dangling;
    stack' := [Visited(id, pos, level)] + stack;
    path', starts' := [i] + path, [from] + starts;
    if further {
      assert PageStored(nodes, lv, i);
      child := nodes[id].recs[pos].val;
      assert LevelOk(n, levels[level - 2]);
      from' := EntryBelow(n, levels, b, level - 2, i, pos, child, path', stack', key);
    }
  }

  /** The page at which level l is entered, and what is known of it before it is searched. */
  ghost predicate Entry(levels: LevelList, b: nat, l: nat, from: nat, id: nat, path: seq<nat>, stack: seq<Visited>, key: int) {
    && EntersAt(levels, l, from, path, stack)
    && l < |levels| && Nonempty(levels[l]) && from < |levels[l]| && levels[l][from].id == id
    && (l + 1 == |levels| ==> from == 0)
    && (l + 1 < |levels| ==> First(levels[l][from]) <= key && (Indexed(levels, b) ==> Covers(levels[l], from, key)))
  }

  lemma {:induction false} EntryTop(levels: LevelList, b: nat, root: nat, key: int)
    requires levels != [] && levels[|levels| - 1] != [] && Nonempty(levels[|levels| - 1]) && root == levels[|levels| - 1][0].id
    ensures Entry(levels, b, |levels| - 1, 0, root, [], [], key)
  {
  }

  lemma {:induction false} EntryFacts(n: nat, levels: LevelList, b: nat, l: nat, from: nat, id: nat,
                                      path: seq<nat>, stack: seq<Visited>, key: int)
    requires Entry(levels, b, l, from, id, path, stack, key)
    ensures EntersAt(levels, l, from, path, stack) && Nonempty(levels[l]) && from < |levels[l]| && levels[l][from].id == id
    ensures l + 1 == |levels| ==> from == 0
    ensures l + 1 < |levels| ==> First(levels[l][from]) <= key
    ensures Indexed(levels, b) && |levels[|levels| - 1]| == 1 && First(levels[l][from]) <= key ==> Covers(levels[l], from, key)
  {
  }

  lemma {:induction false} EntryBelow(n: nat, levels: LevelList, b: nat, l: nat, i: nat, pos: nat, id: nat,
                                      path: seq<nat>, stack: seq<Visited>, key: int) returns (from: nat)
    requires b <= l && l + 1 < |levels| && LevelOk(n, levels[l]) && LevelOk(n, levels[l + 1]) && PartlyIndexed(levels, b)
    requires Nonempty(levels[l]) && Nonempty(levels[l + 1])
    requires Covers(levels[l + 1], i, key) && FloorAt(levels[l + 1][i].recs, pos, key) && levels[l + 1][i].recs[pos].val == id
    requires path != [] && stack != [] && path[0] == i && stack[0].pos == pos
    ensures Entry(levels, b, l, from, id, path, stack, key)
  {
    assert Recs(levels[l + 1]) <= Heads(levels[l]);
    assert Indexed(levels, b) ==> Recs(levels[l + 1]) == Heads(levels[l]);
    from := Descend(n, levels[l + 1], levels[l], i, pos, key);
    EntersBelow(levels, l, from, path, stack);
  }

  lemma {:induction false} DescendedPath(levels: LevelList, b: nat, path: seq<nat>, stack: seq<Visited>, starts: seq<nat>,
                                         dangling: seq<nat>, key: int)
    requires Descended(levels, b, path, stack, starts, dangling, key)
    ensures PathFrom(levels, b, path, stack, key)
  {
  }
}
