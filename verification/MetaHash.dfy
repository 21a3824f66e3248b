/**
 The table of checksums of the tree nodes in an image: how it grows while the metadata is placed
 (place_on_volume_subsystem), where the checksums are written (flush_subsystem_tree), and where
 the kernel reads them.
 */
module MetaHashModule {
  import opened PageMemory
  import opened Division

  // sizeof(struct vdfs4_meta_hashtable)
  const TABLE_HEADER: nat := 56
  // CRC32_SIZE
  const CRC_SIZE: nat := 4

  /** What is recorded for a tree: hashtable_offsets, and the first meta_iblock of its table. */
  datatype Tree = Tree(offset: nat, first: nat, nodes: nat)

  function RoundUp(x: nat, d: nat): (r: nat)
    requires d > 0
    ensures x <= r < x + d
  {
    x + (d - 1 - (x + d - 1) % d)
  }

  /** Where flush_subsystem_tree writes the checksum of node i: at byte meta_iblock behind the header. */
  function WrittenAt(perNode: nat, t: Tree, i: nat): nat {
    TABLE_HEADER + t.first + i * perNode
  }

  /** Where __get_checksum_for_bnode reads it. */
  function ReadAt(t: Tree, i: nat): nat {
    t.offset + CRC_SIZE * i
  }

  class MetaArea {
    // super_page_size / block_size: the blocks of a node
    const perNode: nat
    // block_count of the metadata extent, and buffer_size of the table
    var blocks: nat
    var size: nat

    constructor (perNode: nat)
      ensures this.perNode == perNode && blocks == 0 && size == TABLE_HEADER
    {
      this.perNode := perNode;
      blocks, size := 0, TABLE_HEADER;
    }

    /** The space bitmap: one byte of the table for a block. */
    method PlaceSpaceBitmap(count: nat)
      modifies this
      ensures blocks == old(blocks) + count && size == old(size) + count
    {
      size := size + count;
      blocks := blocks + count;
    }

    /** The inode bitmap: the same, and the table is rounded up. */
    method PlaceInodeBitmap(count: nat)
      modifies this
      ensures blocks == old(blocks) + count && size == RoundUp(old(size) + count, CRC_SIZE)
    {
      size := RoundUp(size + count, CRC_SIZE);
      blocks := blocks + count;
    }

    /** A tree: a checksum for each node, and blocks from an aligned one on. */
    method PlaceTree(nodes: nat) returns (t: Tree)
      requires perNode > 0
      modifies this
      ensures t == Tree(old(size), RoundUp(old(blocks), perNode), nodes)
      ensures blocks == t.first + nodes * perNode && size == t.offset + CRC_SIZE * nodes
    {
      var pad := RoundUp(blocks, perNode) - blocks;
      t := Tree(size, blocks + pad, nodes);
      size := size + nodes * CRC_SIZE;
      blocks := blocks + pad + nodes * perNode;
    }
  }

  /** The trees follow each other in the table and stay inside it. */
  ghost predicate InTable(trees: seq<Tree>, size: nat) {
    && (forall t :: 0 <= t < |trees| ==>
          TABLE_HEADER <= trees[t].offset && trees[t].offset + CRC_SIZE * trees[t].nodes <= size)
    && (forall s, t :: 0 <= s < t < |trees| ==> trees[s].offset + CRC_SIZE * trees[s].nodes <= trees[t].offset)
  }

  lemma {:induction false} InTableNext(trees: seq<Tree>, size: nat, t: Tree)
    requires InTable(trees, size) && TABLE_HEADER <= size == t.offset
    ensures InTable(trees + [t], t.offset + CRC_SIZE * t.nodes)
  {
  }

  /** Between two placements the next tree starts at the same distance in the table and in the metadata. */
  ghost predicate InStep(perNode: nat, blocks: nat, size: nat)
    requires perNode > 0
  {
    && (perNode == CRC_SIZE ==> TABLE_HEADER + RoundUp(blocks, CRC_SIZE) == size)
    && (SmallNode(perNode) ==> TABLE_HEADER + RoundUp(blocks, perNode) <= size)
    && (LargeNode(perNode) ==> TABLE_HEADER + RoundUp(blocks, perNode) >= size)
  }

  /** Nodes of at most four blocks; the number is a power of two, as the sizes of super page and block are. */
  predicate SmallNode(perNode: nat) {
    perNode == 1 || perNode == 2 || perNode == CRC_SIZE
  }

  /** Nodes of 32 and of 64 KB. */
  predicate LargeNode(perNode: nat) {
    perNode == 8 || perNode == 16
  }

  lemma {:induction false} BitmapsInStep(perNode: nat, space: nat, inodes: nat)
    requires perNode > 0
    ensures InStep(perNode, 0, TABLE_HEADER)
    ensures InStep(perNode, space + inodes, RoundUp(TABLE_HEADER + space + inodes, CRC_SIZE))
  {
    NothingRounded(perNode);
    RoundFour(space + inodes);
    if SmallNode(perNode) { RoundSmall(space + inodes, perNode); }
    if LargeNode(perNode) { RoundLarge(space + inodes, perNode); }
    hide RoundUp;
  }

  lemma {:induction false} NothingRounded(d: nat)
    requires d > 0
    ensures RoundUp(0, d) == 0
  {
    DivMod(d, 0, d - 1);
  }

  lemma {:induction false} RoundFour(b: nat)
    ensures RoundUp(TABLE_HEADER + b, CRC_SIZE) == TABLE_HEADER + RoundUp(b, CRC_SIZE)
  {
    assert (TABLE_HEADER + (b + 3)) % 4 == (b + 3) % 4;
  }

  lemma {:induction false} RoundSmall(b: nat, d: nat)
    requires SmallNode(d)
    ensures RoundUp(b, d) <= RoundUp(b, CRC_SIZE)
  {
    if d == 1 {
      assert RoundUp(b, 1) == b;
    } else if d == 2 {
      EvenUp(b);
    }
  }

  lemma {:induction false} RoundLarge(b: nat, d: nat)
    requires LargeNode(d)
    ensures RoundUp(b, CRC_SIZE) <= RoundUp(b, d)
  {
    var q := (b + d - 1) / d;
    DivNat(b + d - 1, d);
    assert RoundUp(b, d) == q * d;
    FourUp(b, if d == 8 then 2 * q else 4 * q);
  }

  /** The rounded number is the least multiple of four that is not below. */
  lemma {:induction false} FourUp(b: nat, k: nat)
    requires b <= 4 * k
    ensures RoundUp(b, CRC_SIZE) <= 4 * k
  {
    var q := (b + 3) / 4;
    assert RoundUp(b, CRC_SIZE) == 4 * q;
    assert q <= k;
  }

  lemma {:induction false} EvenUp(b: nat)
    ensures RoundUp(b, 2) <= RoundUp(b, 4)
  {
    var k := b / 2;
    if b % 2 == 0 {
      DivMod(2, k, 1);
      assert RoundUp(b, 2) == b;
    } else {
      DivMod(2, k + 1, 0);
      assert RoundUp(b, 2) == b + 1;
      assert (b + 3) % 4 % 2 == 0;
    }
  }

  /** A number of blocks that fills whole nodes needs no rounding. */
  lemma {:induction false} WholeNodes(blocks: nat, nodes: nat, d: nat)
    requires d > 0
    ensures RoundUp(RoundUp(blocks, d) + nodes * d, d) == RoundUp(blocks, d) + nodes * d
  {
    var q := (blocks + d - 1) / d;
    DivNat(blocks + d - 1, d);
    assert RoundUp(blocks, d) == q * d;
    assert q * d + nodes * d == (q + nodes) * d;
    DivMod(d, q + nodes, d - 1);
  }

  lemma {:induction false} TreeInStep(perNode: nat, blocks: nat, size: nat, t: Tree)
    requires perNode > 0 && InStep(perNode, blocks, size) && t == Tree(size, RoundUp(blocks, perNode), t.nodes)
    ensures InStep(perNode, t.first + t.nodes * perNode, t.offset + CRC_SIZE * t.nodes)
    ensures After(perNode, t, t.first + t.nodes * perNode, t.offset + CRC_SIZE * t.nodes)
    ensures perNode == CRC_SIZE ==> LandsIn(perNode, t)
    ensures SmallNode(perNode) ==> Inside(perNode, t, t.offset + CRC_SIZE * t.nodes)
    ensures LargeNode(perNode) ==> TABLE_HEADER + t.first >= t.offset
  {
    WholeNodes(blocks, t.nodes, perNode);
    hide RoundUp;
    if perNode == CRC_SIZE { LandsFour(t); }
    if SmallNode(perNode) { InsideSmall(perNode, t); }
    if LargeNode(perNode) { LargeMore(perNode, t.nodes); }
    hide LandsIn, Inside;
  }

  lemma {:induction false} LargeMore(perNode: nat, nodes: nat)
    requires LargeNode(perNode)
    ensures nodes * perNode >= CRC_SIZE * nodes
  {
  }

  lemma {:induction false} LandsFour(t: Tree)
    requires TABLE_HEADER + t.first == t.offset
    ensures LandsIn(CRC_SIZE, t)
  {
  }

  lemma {:induction false} InsideSmall(perNode: nat, t: Tree)
    requires SmallNode(perNode) && TABLE_HEADER + t.first <= t.offset
    ensures Inside(perNode, t, t.offset + CRC_SIZE * t.nodes) && t.nodes * perNode <= t.nodes * CRC_SIZE
  {
  }

  /** Every checksum of the tree is written to the slot where it is looked for. */
  ghost predicate LandsIn(perNode: nat, t: Tree) {
    forall i: nat :: i < t.nodes ==> WrittenAt(perNode, t, i) == ReadAt(t, i)
  }

  /** The writes for a tree stay in a table of the given size. */
  ghost predicate Inside(perNode: nat, t: Tree, size: nat) {
    forall i: nat :: i < t.nodes ==> WrittenAt(perNode, t, i) + CRC_SIZE <= size
  }

  ghost predicate AllLand(perNode: nat, trees: seq<Tree>) {
    forall t :: 0 <= t < |trees| ==> LandsIn(perNode, trees[t])
  }

  ghost predicate AllInside(perNode: nat, trees: seq<Tree>, size: nat) {
    forall t :: 0 <= t < |trees| ==> Inside(perNode, trees[t], size)
  }

  lemma {:induction false} InsideMore(perNode: nat, trees: seq<Tree>, t: Tree, size: nat, more: nat)
    requires AllInside(perNode, trees, size) && Inside(perNode, t, more) && size <= more
    ensures AllInside(perNode, trees + [t], more)
  {
  }

  /** The metadata and the table end behind the tree. */
  ghost predicate After(perNode: nat, t: Tree, blocks: nat, size: nat)
    requires perNode > 0
  {
    && blocks == t.first + t.nodes * perNode && size == t.offset + CRC_SIZE * t.nodes
    && RoundUp(blocks, perNode) == blocks
  }

  /** The second tree follows the first in the table and in the metadata. */
  ghost predicate Behind(perNode: nat, t: Tree, u: Tree) {
    u.offset == t.offset + CRC_SIZE * t.nodes && u.first == t.first + t.nodes * perNode
  }

  /** Two trees one behind the other can both have their first checksum in place only with four blocks to a node. */
  lemma {:induction false} OnlyFour(perNode: nat, t: Tree, u: Tree)
    requires Behind(perNode, t, u) && t.nodes > 0 && u.nodes > 0 && LandsIn(perNode, t) && LandsIn(perNode, u)
    ensures perNode == CRC_SIZE
  {
    assert WrittenAt(perNode, t, 0) == ReadAt(t, 0) && WrittenAt(perNode, u, 0) == ReadAt(u, 0);
    assert t.nodes * perNode == t.nodes * CRC_SIZE;
  }

  /** With more than four blocks to a node the last checksum of a tree behind another one is not in the table. */
  lemma {:induction false} LargeOutside(perNode: nat, t: Tree, u: Tree)
    requires LargeNode(perNode) && Behind(perNode, t, u) && t.nodes > 0 && u.nodes > 0 && TABLE_HEADER + t.first >= t.offset
    ensures !Inside(perNode, u, u.offset + CRC_SIZE * u.nodes)
  {
    assert WrittenAt(perNode, u, u.nodes - 1) + CRC_SIZE > u.offset + CRC_SIZE * u.nodes;
  }

  /**
   The placement of mkfs: bitmaps on a writable image only, then catalog, extents and xattr tree.
   When the trees have nodes, the checksums land where the kernel looks for them exactly when a node
   has four blocks, and their writes stay in the table exactly when it has at most four.
   */
  method PlaceAll(perNode: nat, readOnly: bool, spaceBlocks: nat, inodeBlocks: nat, nodes: seq<nat>)
    returns (trees: seq<Tree>, size: nat)
    requires perNode > 0 && |nodes| == 3
    ensures |trees| == 3 && forall t :: 0 <= t < 3 ==> trees[t].nodes == nodes[t]
    ensures InTable(trees, size)
    ensures perNode == CRC_SIZE ==> AllLand(perNode, trees)
    ensures nodes[0] > 0 && nodes[1] > 0 ==> (AllLand(perNode, trees) <==> perNode == CRC_SIZE)
    ensures SmallNode(perNode) ==> AllInside(perNode, trees, size)
    ensures LargeNode(perNode) && nodes[1] > 0 && nodes[2] > 0 ==> !AllInside(perNode, trees, size)
    ensures BehindBitmaps(perNode, trees[0], if readOnly then 0 else spaceBlocks + inodeBlocks)
    ensures OnNodes(perNode, trees)
  {
    hide Laid, RoundUp, InTable, AllLand, AllInside, OnNodes, EndBy, BehindBitmaps;
    NoTrees(perNode);
    var m := new MetaArea(perNode);
    LaidStart(perNode, spaceBlocks, inodeBlocks);
    if !readOnly {
      m.PlaceSpaceBitmap(spaceBlocks);
      m.PlaceInodeBitmap(inodeBlocks);
    }
    ghost var start, head := m.blocks, m.size;
    FirstPlace(perNode, if readOnly then 0 else spaceBlocks + inodeBlocks, nodes[0]);
    trees := [];
    for k := 0 to 3
      invariant |trees| == k && m.perNode == perNode && Laid(perNode, trees, m.blocks, m.size)
      invariant forall t :: 0 <= t < k ==> trees[t].nodes == nodes[t]
      invariant if k == 0 then m.blocks == start && m.size == head
                else trees[0] == Tree(head, RoundUp(start, perNode), nodes[0])
      invariant OnNodes(perNode, trees) && EndBy(perNode, trees, m.blocks)
    {
      ghost var blocks, was := m.blocks, m.size;
      var tree := m.PlaceTree(nodes[k]);
      LaidNext(perNode, trees, blocks, was, tree);
      NodesNext(perNode, trees, blocks, tree);
      trees := trees + [tree];
    }
    size := m.size;
    LaidExact(perNode, trees, m.blocks, size);
  }

  /** The first tree is behind the bitmaps, at the first place for a node, and so are its slots in the table. */
  ghost predicate BehindBitmaps(perNode: nat, t: Tree, bitmaps: nat) {
    && bitmaps <= t.first < bitmaps + perNode
    && TABLE_HEADER + bitmaps <= t.offset < TABLE_HEADER + bitmaps + CRC_SIZE && t.offset % CRC_SIZE == 0
  }

  /** Every tree is aligned to a node, and its blocks are in front of those of the next one. */
  ghost predicate OnNodes(perNode: nat, trees: seq<Tree>)
    requires perNode > 0
  {
    && (forall t :: 0 <= t < |trees| ==> trees[t].first % perNode == 0)
    && (forall s, t :: 0 <= s < t < |trees| ==> trees[s].first + trees[s].nodes * perNode <= trees[t].first)
  }

  /** The blocks of all trees are in front of a block. */
  ghost predicate EndBy(perNode: nat, trees: seq<Tree>, blocks: nat) {
    forall t :: 0 <= t < |trees| ==> trees[t].first + trees[t].nodes * perNode <= blocks
  }

  lemma {:induction false} NoTrees(perNode: nat)
    requires perNode > 0
    ensures OnNodes(perNode, []) && forall blocks: nat :: EndBy(perNode, [], blocks)
  {
  }

  lemma {:induction false} RoundedUp(x: nat, d: nat)
    requires d > 0
    ensures RoundUp(x, d) % d == 0
  {
    var q := (x + d - 1) / d;
    DivNat(x + d - 1, d);
    assert RoundUp(x, d) == q * d;
    DivMod(d, q, 0);
  }

  lemma {:induction false} NodesNext(perNode: nat, trees: seq<Tree>, blocks: nat, t: Tree)
    requires perNode > 0 && OnNodes(perNode, trees) && EndBy(perNode, trees, blocks) && t.first == RoundUp(blocks, perNode)
    ensures OnNodes(perNode, trees + [t]) && EndBy(perNode, trees + [t], t.first + t.nodes * perNode)
  {
    RoundedUp(blocks, perNode);
    Product(perNode, 0, t.nodes);
    hide RoundUp;
  }

  lemma {:induction false} FirstPlace(perNode: nat, bitmaps: nat, nodes: nat)
    requires perNode > 0
    ensures BehindBitmaps(perNode, Tree(RoundUp(TABLE_HEADER + bitmaps, CRC_SIZE), RoundUp(bitmaps, perNode), nodes), bitmaps)
    ensures RoundUp(TABLE_HEADER, CRC_SIZE) == TABLE_HEADER
  {
    RoundedUp(TABLE_HEADER + bitmaps, CRC_SIZE);
  }

  /** The trees placed so far, and where the next one goes. */
  ghost predicate Laid(perNode: nat, trees: seq<Tree>, blocks: nat, size: nat) {
    && perNode > 0 && size >= TABLE_HEADER && InStep(perNode, blocks, size) && InTable(trees, size)
    && (forall t :: 0 < t < |trees| ==> Behind(perNode, trees[t - 1], trees[t]))
    && (trees != [] ==> After(perNode, trees[|trees| - 1], blocks, size))
    && (perNode == CRC_SIZE ==> AllLand(perNode, trees))
    && (SmallNode(perNode) ==> AllInside(perNode, trees, size))
    && (LargeNode(perNode) ==> AllAhead(trees))
  }

  /** No tree is behind its place in the table. */
  ghost predicate AllAhead(trees: seq<Tree>) {
    forall t :: 0 <= t < |trees| ==> TABLE_HEADER + trees[t].first >= trees[t].offset
  }

  lemma {:induction false} LaidStart(perNode: nat, space: nat, inodes: nat)
    requires perNode > 0
    ensures Laid(perNode, [], 0, TABLE_HEADER)
    ensures Laid(perNode, [], space + inodes, RoundUp(TABLE_HEADER + space + inodes, CRC_SIZE))
  {
    BitmapsInStep(perNode, space, inodes);
    hide InStep;
  }

  lemma {:induction false} LaidNext(perNode: nat, trees: seq<Tree>, blocks: nat, size: nat, t: Tree)
    requires Laid(perNode, trees, blocks, size) && t == Tree(size, RoundUp(blocks, perNode), t.nodes)
    ensures Laid(perNode, trees + [t], t.first + t.nodes * perNode, t.offset + CRC_SIZE * t.nodes)
  {
    hide InStep, LandsIn, Inside, AllInside, RoundUp, InTable;
    TreeInStep(perNode, blocks, size, t);
    InTableNext(trees, size, t);
    if SmallNode(perNode) { InsideMore(perNode, trees, t, size, t.offset + CRC_SIZE * t.nodes); }
  }

  lemma {:induction false} LaidExact(perNode: nat, trees: seq<Tree>, blocks: nat, size: nat)
    requires Laid(perNode, trees, blocks, size) && |trees| == 3
    ensures InTable(trees, size) && (perNode == CRC_SIZE ==> AllLand(perNode, trees))
    ensures trees[0].nodes > 0 && trees[1].nodes > 0 && AllLand(perNode, trees) ==> perNode == CRC_SIZE
    ensures SmallNode(perNode) ==> AllInside(perNode, trees, size)
    ensures LargeNode(perNode) && trees[1].nodes > 0 && trees[2].nodes > 0 ==> !AllInside(perNode, trees, size)
  {
    assert Behind(perNode, trees[1 - 1], trees[1]) && Behind(perNode, trees[2 - 1], trees[2]);
    hide InStep, LandsIn, Inside, AllInside, RoundUp, InTable;
    if trees[0].nodes > 0 && trees[1].nodes > 0 && AllLand(perNode, trees) {
      OnlyFour(perNode, trees[0], trees[1]);
    }
    if LargeNode(perNode) && trees[1].nodes > 0 && trees[2].nodes > 0 {
      LargeOutside(perNode, trees[1], trees[2]);
      NotAllInside(perNode, trees, size, 2);
    }
  }

  lemma {:induction false} NotAllInside(perNode: nat, trees: seq<Tree>, size: nat, t: nat)
    requires t < |trees| && !Inside(perNode, trees[t], size)
    ensures !AllInside(perNode, trees, size)
  {
  }

  // ---------- writing and reading the checksums ----------

  /** A tree's checksums are in the table where the kernel reads them. */
  ghost predicate Readable(m: Memory, t: Tree, crcs: seq<nat>) {
    && |crcs| == t.nodes && ReadAt(t, t.nodes) <= |m|
    && forall i: nat :: i < t.nodes ==> Le32(m, ReadAt(t, i)) == crcs[i]
  }

  ghost function ByteWith(m: Memory, b: nat, v: nat, a: nat): Byte
    requires a < |m|
  {
    if b <= a < b + CRC_SIZE then ByteOf(v, a - b) else m[a]
  }

  /** The table with a word written at b. */
  ghost function WithWord(m: Memory, b: nat, v: nat): (w: Memory)
    ensures |w| == |m|
  {
    seq<Byte>(|m|, a requires 0 <= a < |m| => ByteWith(m, b, v, a))
  }

  /** The table after the first k checksums of a tree are written, wherever they land. */
  ghost function Flushed(m: Memory, perNode: nat, t: Tree, crcs: seq<nat>, k: nat): (w: Memory)
    requires k <= |crcs|
    ensures |w| == |m|
  {
    if k == 0 then m else WithWord(Flushed(m, perNode, t, crcs, k - 1), WrittenAt(perNode, t, k - 1), crcs[k - 1])
  }

  /** The table after the first k trees are flushed. */
  ghost function FlushedAll(m: Memory, perNode: nat, trees: seq<Tree>, crcs: seq<seq<nat>>, k: nat): (w: Memory)
    requires k <= |trees| == |crcs|
    ensures |w| == |m|
  {
    if k == 0 then m
    else Flushed(FlushedAll(m, perNode, trees, crcs, k - 1), perNode, trees[k - 1], crcs[k - 1], |crcs[k - 1]|)
  }

  ghost predicate CrcsOf(trees: seq<Tree>, crcs: seq<seq<nat>>) {
    && |crcs| == |trees|
    && forall t :: 0 <= t < |trees| ==> CrcsOk(trees[t], crcs[t])
  }

  ghost predicate CrcsOk(t: Tree, crcs: seq<nat>) {
    |crcs| == t.nodes && forall i :: 0 <= i < |crcs| ==> crcs[i] < TWO_32
  }

  /** flush_subsystem_tree, the part that fills the table. */
  method FlushTree(table: array<Byte>, perNode: nat, t: Tree, crcs: seq<nat>)
    requires |crcs| == t.nodes && Inside(perNode, t, table.Length)
    modifies table
    ensures table[..] == Flushed(old(table[..]), perNode, t, crcs, t.nodes)
  {
    hide WrittenAt, ByteOf;
    for i := 0 to t.nodes
      invariant table[..] == Flushed(old(table[..]), perNode, t, crcs, i)
    {
      var a, v := WrittenAt(perNode, t, i), crcs[i];
      ghost var was := table[..];
      table[a], table[a + 1], table[a + 2], table[a + 3] := ByteOf(v, 0), ByteOf(v, 1), ByteOf(v, 2), ByteOf(v, 3);
      assert table[..] == WithWord(was, a, v);
    }
  }

  /** All trees, one after the other. */
  method FlushAll(table: array<Byte>, perNode: nat, trees: seq<Tree>, crcs: seq<seq<nat>>)
    requires CrcsOf(trees, crcs) && AllInside(perNode, trees, table.Length)
    modifies table
    ensures table[..] == FlushedAll(old(table[..]), perNode, trees, crcs, |trees|)
  {
    hide Flushed, Inside;
    for k := 0 to |trees|
      invariant table[..] == FlushedAll(old(table[..]), perNode, trees, crcs, k)
    {
      assert CrcsOk(trees[k], crcs[k]);
      FlushTree(table, perNode, trees[k], crcs[k]);
    }
  }

  /** A word that was written is read. */
  lemma {:induction false} WordRead(m: Memory, b: nat, v: nat)
    requires b + CRC_SIZE <= |m| && v < TWO_32
    ensures Le32(WithWord(m, b, v), b) == v
  {
    FourBytes(v);
  }

  lemma {:induction false} OtherBytes(m: Memory, b: nat, v: nat)
    ensures forall a :: 0 <= a < |m| && !(b <= a < b + CRC_SIZE) ==> WithWord(m, b, v)[a] == m[a]
  {
  }

  lemma {:induction false} OtherWord(m: Memory, w: Memory, b: nat)
    requires |w| == |m| && b + CRC_SIZE <= |m| && forall a :: b <= a < b + CRC_SIZE ==> w[a] == m[a]
    ensures Le32(w, b) == Le32(m, b)
  {
    assert w[b] == m[b] && w[b + 1] == m[b + 1] && w[b + 2] == m[b + 2] && w[b + 3] == m[b + 3];
  }

  lemma {:induction false} SlotOf(perNode: nat, t: Tree, crcs: seq<nat>, i: nat)
    requires LandsIn(perNode, t) && CrcsOk(t, crcs) && i < t.nodes
    ensures WrittenAt(perNode, t, i) == ReadAt(t, i) && |crcs| == t.nodes && crcs[i] < TWO_32
  {
  }

  lemma {:induction false} OneLands(m: Memory, w: Memory, t: Tree, crcs: seq<nat>, k: nat)
    requires k < t.nodes == |crcs| && crcs[k] < TWO_32 && ReadAt(t, t.nodes) <= |m|
    requires w == WithWord(m, ReadAt(t, k), crcs[k])
    requires forall i: nat :: i < k ==> Le32(m, ReadAt(t, i)) == crcs[i]
    ensures forall i: nat :: i < k + 1 ==> Le32(w, ReadAt(t, i)) == crcs[i]
    ensures forall a :: 0 <= a < |m| && !(t.offset <= a < ReadAt(t, t.nodes)) ==> w[a] == m[a]
  {
    hide Le32;
    var b := ReadAt(t, k);
    WordRead(m, b, crcs[k]);
    OtherBytes(m, b, crcs[k]);
    hide WithWord;
    forall i: nat | i < k ensures Le32(w, ReadAt(t, i)) == crcs[i] {
      OtherWord(m, w, ReadAt(t, i));
    }
  }

  /** Where the checksums land, they are read, and bytes outside the slots stay. */
  lemma {:induction false} FlushedReadable(m: Memory, perNode: nat, t: Tree, crcs: seq<nat>, k: nat)
    requires CrcsOk(t, crcs) && LandsIn(perNode, t) && ReadAt(t, t.nodes) <= |m| && k <= t.nodes
    ensures forall i: nat :: i < k ==> Le32(Flushed(m, perNode, t, crcs, k), ReadAt(t, i)) == crcs[i]
    ensures forall a :: 0 <= a < |m| && !(t.offset <= a < ReadAt(t, t.nodes)) ==> Flushed(m, perNode, t, crcs, k)[a] == m[a]
  {
    hide Le32, WithWord, ReadAt, LandsIn;
    if k > 0 {
      var v, w := Flushed(m, perNode, t, crcs, k - 1), Flushed(m, perNode, t, crcs, k);
      FlushedReadable(m, perNode, t, crcs, k - 1);
      SlotOf(perNode, t, crcs, k - 1);
      OneLands(v, w, t, crcs, k - 1);
    }
  }

  lemma {:induction false} StillReadable(m: Memory, w: Memory, t: Tree, crcs: seq<nat>)
    requires Readable(m, t, crcs) && |w| == |m|
    requires forall a :: t.offset <= a < ReadAt(t, t.nodes) ==> w[a] == m[a]
    ensures Readable(w, t, crcs)
  {
    forall i: nat | i < t.nodes ensures Le32(w, ReadAt(t, i)) == crcs[i] {
      OtherWord(m, w, ReadAt(t, i));
    }
  }

  lemma {:induction false} TreeReadable(m: Memory, perNode: nat, t: Tree, crcs: seq<nat>)
    requires CrcsOk(t, crcs) && LandsIn(perNode, t) && ReadAt(t, t.nodes) <= |m|
    ensures |crcs| == t.nodes && Readable(Flushed(m, perNode, t, crcs, |crcs|), t, crcs)
    ensures forall a :: 0 <= a < |m| && !(t.offset <= a < ReadAt(t, t.nodes)) ==>
              Flushed(m, perNode, t, crcs, |crcs|)[a] == m[a]
  {
    FlushedReadable(m, perNode, t, crcs, t.nodes);
  }

  lemma {:induction false} AllReadable(m: Memory, perNode: nat, trees: seq<Tree>, crcs: seq<seq<nat>>, k: nat)
    requires CrcsOf(trees, crcs) && AllLand(perNode, trees) && InTable(trees, |m|) && k <= |trees|
    ensures forall t :: 0 <= t < k ==> Readable(FlushedAll(m, perNode, trees, crcs, k), trees[t], crcs[t])
  {
    if k > 0 {
      AllReadable(m, perNode, trees, crcs, k - 1);
      hide Flushed, Le32, LandsIn, CrcsOk;
      var v, w := FlushedAll(m, perNode, trees, crcs, k - 1), FlushedAll(m, perNode, trees, crcs, k);
      assert CrcsOk(trees[k - 1], crcs[k - 1]) && LandsIn(perNode, trees[k - 1]);
      TreeReadable(v, perNode, trees[k - 1], crcs[k - 1]);
      hide Readable;
      forall t | 0 <= t < k - 1 ensures Readable(w, trees[t], crcs[t]) {
        StillReadable(v, w, trees[t], crcs[t]);
      }
    }
  }

  // ---------- checksums that are misplaced ----------

  /** All checksums are zero but those of one byte that are not written at a. */
  ghost predicate Quiet(perNode: nat, t: Tree, crcs: seq<nat>, a: nat) {
    forall i: nat :: i < |crcs| ==> crcs[i] == 0 || (crcs[i] < 256 && WrittenAt(perNode, t, i) != a)
  }

  lemma {:induction false} HighBytes(v: nat, k: nat)
    requires v < 256
    ensures ByteOf(v, k) == if k == 0 then v else 0
  {
    if k > 1 { HighBytes(0, k - 1); }
  }

  lemma {:induction false} QuietFlush(m: Memory, perNode: nat, t: Tree, crcs: seq<nat>, a: nat, k: nat)
    requires Quiet(perNode, t, crcs, a) && a < |m| && k <= |crcs|
    ensures Flushed(m, perNode, t, crcs, k)[a] in {0, m[a]}
  {
    if k > 0 {
      QuietFlush(m, perNode, t, crcs, a, k - 1);
      var b := WrittenAt(perNode, t, k - 1);
      if b <= a < b + CRC_SIZE { HighBytes(crcs[k - 1], a - b); }
    }
  }

  lemma {:induction false} QuietFlushAll(m: Memory, perNode: nat, trees: seq<Tree>, crcs: seq<seq<nat>>, a: nat, k: nat)
    requires k <= |trees| == |crcs| && a < |m| && forall t :: 0 <= t < |trees| ==> Quiet(perNode, trees[t], crcs[t], a)
    ensures FlushedAll(m, perNode, trees, crcs, k)[a] in {0, m[a]}
  {
    if k > 0 {
      hide Quiet, Flushed;
      QuietFlushAll(m, perNode, trees, crcs, a, k - 1);
      QuietFlush(FlushedAll(m, perNode, trees, crcs, k - 1), perNode, trees[k - 1], crcs[k - 1], a, |crcs[k - 1]|);
    }
  }

  /** Checksums that show whether that of node i of tree t is found: a small one there, zeros elsewhere. */
  ghost function Probe(trees: seq<Tree>, t: nat, i: nat, v: nat): (crcs: seq<seq<nat>>)
    ensures |crcs| == |trees| && forall s :: 0 <= s < |trees| ==>
              |crcs[s]| == trees[s].nodes && forall j :: 0 <= j < |crcs[s]| ==> crcs[s][j] == if s == t && j == i then v else 0
  {
    seq(|trees|, s requires 0 <= s < |trees| => seq<nat>(trees[s].nodes, j => if s == t && j == i then v else 0))
  }

  /** A checksum that is not written to its slot is not found there, for some checksums. */
  lemma {:induction false} Misplaced(m: Memory, perNode: nat, trees: seq<Tree>, t: nat, i: nat) returns (crcs: seq<seq<nat>>)
    requires t < |trees| && i < trees[t].nodes && ReadAt(trees[t], trees[t].nodes) <= |m|
    requires WrittenAt(perNode, trees[t], i) != ReadAt(trees[t], i)
    ensures CrcsOf(trees, crcs) && !Readable(FlushedAll(m, perNode, trees, crcs, |trees|), trees[t], crcs[t])
  {
    var a := ReadAt(trees[t], i);
    var v := if m[a] == 1 then 2 else 1;
    crcs := Probe(trees, t, i, v);
    ProbeQuiet(perNode, trees, t, i, v);
    hide Probe, WrittenAt, FlushedAll, Quiet, CrcsOf;
    QuietFlushAll(m, perNode, trees, crcs, a, |trees|);
    NotFound(FlushedAll(m, perNode, trees, crcs, |trees|), trees[t], crcs[t], i, v);
  }

  lemma {:induction false} ProbeQuiet(perNode: nat, trees: seq<Tree>, t: nat, i: nat, v: nat)
    requires t < |trees| && i < trees[t].nodes && v < 256 && WrittenAt(perNode, trees[t], i) != ReadAt(trees[t], i)
    ensures CrcsOf(trees, Probe(trees, t, i, v)) && Probe(trees, t, i, v)[t][i] == v
    ensures forall s :: 0 <= s < |trees| ==> Quiet(perNode, trees[s], Probe(trees, t, i, v)[s], ReadAt(trees[t], i))
  {
    hide Probe, WrittenAt, ReadAt;
  }

  lemma {:induction false} NotFound(m: Memory, t: Tree, crcs: seq<nat>, i: nat, v: nat)
    requires i < t.nodes == |crcs| && ReadAt(t, t.nodes) <= |m| && crcs[i] == v < 256 && m[ReadAt(t, i)] != v
    ensures !Readable(m, t, crcs)
  {
    LowByte(m, ReadAt(t, i));
  }

  lemma {:induction false} LowByte(m: Memory, a: nat)
    requires a + CRC_SIZE <= |m|
    ensures Le32(m, a) % 256 == m[a]
  {
  }

  ghost predicate FoundAlways(m: Memory, perNode: nat, trees: seq<Tree>) {
    forall crcs, t :: CrcsOf(trees, crcs) && 0 <= t < |trees| ==>
      Readable(FlushedAll(m, perNode, trees, crcs, |trees|), trees[t], crcs[t])
  }

  /** Whatever the checksums are, all of them are found exactly when each is written to its slot. */
  lemma {:induction false} FoundExactly(m: Memory, perNode: nat, trees: seq<Tree>)
    requires InTable(trees, |m|)
    ensures FoundAlways(m, perNode, trees) <==> AllLand(perNode, trees)
  {
    hide FlushedAll, Readable, WrittenAt;
    if AllLand(perNode, trees) {
      forall crcs, t | CrcsOf(trees, crcs) && 0 <= t < |trees|
        ensures Readable(FlushedAll(m, perNode, trees, crcs, |trees|), trees[t], crcs[t])
      {
        AllReadable(m, perNode, trees, crcs, |trees|);
      }
    } else {
      var t :| 0 <= t < |trees| && !LandsIn(perNode, trees[t]);
      var i: nat :| i < trees[t].nodes && WrittenAt(perNode, trees[t], i) != ReadAt(trees[t], i);
      var crcs := Misplaced(m, perNode, trees, t, i);
    }
  }

  /**
   mkfs from the placement to the filled table.  With four blocks to a node the kernel finds every
   checksum; with fewer it does not for every image whose catalog and extents tree have nodes.
   */
  method PlaceAndFlush(perNode: nat, readOnly: bool, spaceBlocks: nat, inodeBlocks: nat, crcs: seq<seq<nat>>)
    returns (table: array<Byte>, trees: seq<Tree>)
    requires SmallNode(perNode) && |crcs| == 3
    requires forall t, i :: 0 <= t < 3 && 0 <= i < |crcs[t]| ==> crcs[t][i] < TWO_32
    ensures |trees| == 3 && CrcsOf(trees, crcs) && InTable(trees, table.Length)
    ensures perNode == CRC_SIZE ==> forall t :: 0 <= t < 3 ==> Readable(table[..], trees[t], crcs[t])
    ensures table[..] == FlushedAll(seq(table.Length, _ => 0), perNode, trees, crcs, 3)
    ensures BehindBitmaps(perNode, trees[0], if readOnly then 0 else spaceBlocks + inodeBlocks) && OnNodes(perNode, trees)
    ensures |crcs[0]| > 0 && |crcs[1]| > 0 ==>
              (FoundAlways(seq(table.Length, _ => 0), perNode, trees) <==> perNode == CRC_SIZE)
  {
    hide FlushedAll, Readable, Inside, InTable, AllLand, FoundAlways, OnNodes, BehindBitmaps;
    var size;
    trees, size := PlaceAll(perNode, readOnly, spaceBlocks, inodeBlocks, [|crcs[0]|, |crcs[1]|, |crcs[2]|]);
    table := new Byte[size](_ => 0);
    ghost var zeros: Memory := seq(size, _ => 0);
    assert table[..] == zeros;
    FlushAll(table, perNode, trees, crcs);
    FoundExactly(zeros, perNode, trees);
    if perNode == CRC_SIZE { AllReadable(zeros, perNode, trees, crcs, 3); }
  }

  /**
   Nodes of 8 KB, an image without bitmaps and a catalog of two nodes: the second checksum is
   written over the upper half of the first one, which is found only if the two halves agree.
   */
  lemma {:induction false} TwoBlocks(m: Memory, c: nat, d: nat)
    requires |m| == TABLE_HEADER + 2 * CRC_SIZE && c < TWO_32 && d < TWO_32
    ensures var t := Tree(TABLE_HEADER, 0, 2);
            Le32(Flushed(m, 2, t, [c, d], 2), ReadAt(t, 0)) == c <==> c / 0x1_0000 == d % 0x1_0000
  {
    var t := Tree(TABLE_HEADER, 0, 2);
    var v, w := Flushed(m, 2, t, [c, d], 1), Flushed(m, 2, t, [c, d], 2);
    assert v == WithWord(m, 56, c) by { assert Flushed(m, 2, t, [c, d], 0) == m; }
    assert w == WithWord(v, 58, d);
    hide Flushed;
    assert w[56] == ByteOf(c, 0) && w[57] == ByteOf(c, 1) && w[58] == ByteOf(d, 0) && w[59] == ByteOf(d, 1);
    hide WithWord;
    Overlap(c, d);
  }

  lemma {:induction false} Overlap(c: nat, d: nat)
    requires c < TWO_32 && d < TWO_32
    ensures (ByteOf(c, 0) as int) + 256 * (ByteOf(c, 1) as int) == c % 0x1_0000
    ensures (ByteOf(d, 0) as int) + 256 * (ByteOf(d, 1) as int) == d % 0x1_0000
    ensures c == c % 0x1_0000 + 0x1_0000 * (c / 0x1_0000)
  {
    assert ByteOf(c, 1) == ByteOf(c / 256, 0) && ByteOf(d, 1) == ByteOf(d / 256, 0);
  }
}
