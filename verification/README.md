# VDFS4: trees, pages, space and compressed files, in Dafny

VDFS4 is a file system for flash storage with a kernel part (`linux/fs/vdfs4`) and tools that
build images (`vdfs-tools`). This project models the parts whose correctness rests on several
functions working together, and proves what they promise.

**The tree.** All metadata is in B-trees of slotted pages. Every level is a doubly linked chain of
nodes; a split puts the new node into the chain first and into the index above afterwards, and a
node that is not indexed yet is called dangling. The model has two layers. `Btree` works on a store
of nodes (`id -> records, prev, next`) with a root and a height, method by method as the kernel
does: search that moves right over dangling nodes, split, the list of index records still to be
placed, a new root, update of index keys, merge, removal of an emptied node, loss of a root. Its
abstract state is a map from keys to records, and `Valid` says that no node is dangling, that chains
are ordered and linked both ways, and that every index record carries the first key of its child. A
removal tells its story besides (`RemoveStory`): which nodes it dropped, merged or gave up as a root
on the way up. `BnodePage` works on the bytes of one node: header, records, and the table of offsets
that grows down from the CRC at the end. Lengths and offsets are those of the on-disk structures
(32-byte header, 4-byte slots, records up to 600 bytes, nodes of 8 to 64 KB). `PagedNode` joins the
layers: for every way to read a key and a value from bytes, insertion, deletion, merge and split of
a page do to the records that the tree sees what the tree's own operations do.

**The catalog** is the tree with its comparison function: keys are ranked by a number with the same
order, so that `Catalog` runs on the verified tree.

**Other state.** The free ids and the reference-counted cache of nodes; the list of free blocks with
the bitmap that skips a magic and a CRC in every block; the list of claimed extents of a file; the
table of node checksums in an image; the CRC itself.

**Compressed files.** Workers append compressed and plain chunks to two temporary files in any order;
a sequential pass then lays out the final file, which the decoder and the kernel read. The codec is a
pair of functions that undo each other. `CompressedImage` adds what stands behind the chunks, so that
a file can be read from its bytes alone.

State that the source updates in place is a class here, with one method for each function or for each
critical section; runs are sequences of calls, and what every method keeps is its `Valid()`.

## Model

| member | source | states |
|---|---|---|
| Bnode.BinarySearch | linux/fs/vdfs4/btree.c:826-884 | the position found is the floor of the key in the node, the last record not above it, or none exists |
| Bnode.SplitBnode | linux/fs/vdfs4/btree.c:1158-1276 | left then right are the old records with the new one at its position, cut behind the first record with which the count passes half a node; both halves have at least two records, fit into a node and have room for another record, although the new record is counted with another length than the one that is placed |
| Bnode.SplitRound | linux/fs/vdfs4/btree.c:1192-1235 | in every round of the loop the record fits into the half that is being filled, so the BUG_ON behind it cannot strike |
| Bnode.CutStep | linux/fs/vdfs4/btree.c:1210-1230 | the half is changed at the first record with which the count passes the middle, and never back |
| Bnode.SplitSizes | linux/fs/vdfs4/btree.c:1192-1250 | where the loop switches to the right node, neither half can overflow |
| SearchTree.TraverseLevel | linux/fs/vdfs4/btree.c:1002-1092 | moving right along a chain ends at the one page that covers the key, at the floor in it; the nodes put on the to-do list are exactly those after the first up to that page, the last one first, none when the first covered the key |
| SearchTree.Traverse | linux/fs/vdfs4/btree.c:1094-1143 | with any number of dangling nodes the stack names on every level the covering page and the floor; the nodes reported as dangling are, level by level, exactly those that the search moved over behind the node it entered the level at, and it enters a level at the node that the floor above names |
| SearchTree.TrailDangles | linux/fs/vdfs4/btree.c:1055-1079 | no node that is reported is indexed by the level above, so each is dangling |
| LevelOps.FloorIsGlobal | linux/fs/vdfs4/btree.c:1094-1143 | the floor in the covering page is the floor of the whole level |
| GrowthOps.GrowthEffect | linux/fs/vdfs4/btree.c:1278-1366 | an insertion adds exactly its record to a level and keeps the chain ordered; a split adds one page, and no first key changes |
| GrowthOps.RoomAfterSplit | linux/fs/vdfs4/btree.c:1158-1276 | after a split whatever page covers the key has two records and room for one more of any length |
| InsertState.StepInPage | linux/fs/vdfs4/btree.c:1472-1525 | an index record that fits settles the insertion: every level indexes the one below again |
| InsertState.StepBySplit | linux/fs/vdfs4/btree.c:1472-1525 | an index record that splits a node moves the one unindexed page one level up |
| InsertState.StepNewRoot | linux/fs/vdfs4/btree.c:1368-1470 | a root over the two halves of the old one settles the insertion, with the same depth everywhere |
| BtreeModule.Btree.AllocNewBnode | linux/fs/vdfs4/bnode.c:432-475 | the least id not in use, never that of the head node |
| BtreeModule.Btree.PlaceKeyInBnode | linux/fs/vdfs4/btree.c:1278-1366 | refuses a key that is there and changes nothing; otherwise the level grows by exactly the record, and a split leaves exactly its index record to be placed, cut where the count of the lengths, the new record with the given one, passes half a node |
| BtreeModule.Btree.BuildNewRoot | linux/fs/vdfs4/btree.c:1368-1470 | a chain of one node, or a root that has changed, needs nothing; otherwise a new top level with one node that indexes the first nodes of the old one: all of them, or as many as passed the test for a full node, and both of two |
| InsertState.CollectRoot | linux/fs/vdfs4/btree.c:1407-1452 | the index records of the chain in its order, until one finds the node full |
| BtreeModule.Btree.PlaceIndexRecord | linux/fs/vdfs4/btree.c:1472-1525 | one item of the to-do list: the insertion is settled, or one split is pending one level higher; the cut of that split counts the index record with the length of the new node's first record |
| BtreeModule.Btree.PlaceDataAtLevel | linux/fs/vdfs4/btree.c:1529-1580 | the to-do list drains; the level has the new record, the levels below are untouched, and all levels above are indexed; a split of the level counts the record with its own length |
| BtreeModule.Btree.FormIndexRecord | linux/fs/vdfs4/btree.c:699-717 | the first key of the node, with the node's id as value |
| BtreeModule.Btree.DeleteFromNode | linux/fs/vdfs4/btree.c:728-823 | one record leaves one node, the store stays consistent |
| BtreeModule.Btree.FindAtLevel | linux/fs/vdfs4/btree.c:1661-1668 | covering page and floor on a level, or the key is below the whole level |
| BtreeModule.Btree.UpdateKey | linux/fs/vdfs4/btree.c:1735-1802 | replaces the outdated index record by the one of the node's present first key, on this level and above; terminates although it may split and grow the tree, since growth happens at most once |
| RemoveState.StaleAbove | linux/fs/vdfs4/btree.c:1778-1784 | deleting the first record of a node makes exactly one index record of the level above outdated |
| RemoveState.MergeFits | linux/fs/vdfs4/btree.c:2050-2056 | when the two free spaces sum up to a node, data and slots of both fit into one |
| RemoveState.HasLeft | linux/fs/vdfs4/btree.c:2008-2012 | the record before a node's own in the parent is that of its left neighbour |
| RemoveState.HasRight | linux/fs/vdfs4/btree.c:2014-2017 | the record behind a node's own in the parent is that of its right neighbour |
| RemoveState.NotHeading | linux/fs/vdfs4/btree.c:2008-2017 | an index record behind the first of its node heads no node, so its removal updates no key above |
| RemoveState.MergeStep | linux/fs/vdfs4/btree.c:1815-1946 | a merge keeps the records of its level and leaves one surplus index record, that of the right node, which is not the least of its level |
| RemoveState.DropStep | linux/fs/vdfs4/btree.c:2128-2168 | an emptied node that leaves the chain leaves exactly its index record as surplus |
| RemoveState.CollapseStep | linux/fs/vdfs4/btree.c:2205-2228 | a root with one record is not needed: its child is the only node of its level |
| BtreeModule.Btree.Merge | linux/fs/vdfs4/btree.c:1815-1946 | the level is the old one with the two nodes joined, all its records kept; the index follows and the right node is no longer in the store |
| RemoveState.NextParent | linux/fs/vdfs4/btree.c:2018-2022 | behind the last record of a parent the next node of the level below belongs to the next parent |
| BtreeModule.Btree.Rebalance | linux/fs/vdfs4/btree.c:1973-2062 | goes into the left neighbour, or takes in the right one, exactly when that one has the same parent and both fit into a node; the records of the level stay and all levels are indexed; the ending that is told is what happened |
| BtreeModule.Btree.Shrink | linux/fs/vdfs4/btree.c:2191-2230 | a node with more than a third free is rebalanced, a root with a single record is dropped, and otherwise nothing changes; records and the index of the level below are kept; the ending that is told is what happened |
| BtreeModule.Btree.UnlinkBnode | linux/fs/vdfs4/btree.c:2128-2160 | the node is taken out of its chain and its neighbours are linked |
| BtreeModule.Btree.DeleteAndReindex | linux/fs/vdfs4/btree.c:2123-2188 | one record is deleted and the index above is right again; a record that is not the first of its node changes nothing else |
| BtreeModule.Btree.RemoveAt | linux/fs/vdfs4/btree.c:2071-2240 | removes exactly the key from its level or reports that it is absent and changes nothing; terminates through key updates, merges and growth; the story that is told leads from the old levels to the new ones |
| RemoveStory.StoryBelow | linux/fs/vdfs4/btree.c:2071-2240 | a removal at a level leaves all levels below as they are |
| RemoveStory.StoryLevel | linux/fs/vdfs4/btree.c:2122-2230 | what the level of the key becomes: without the emptied node, without the record, or with the node and its neighbour joined besides |
| RemoveStory.MergedIff | linux/fs/vdfs4/btree.c:2192-2199 | after a removal of a record that is not the first of its node, the node and a neighbour under the same parent are one if and only if the node has more than a third free and the two free spaces sum up to a node |
| RemoveStory.RootHasTwo | linux/fs/vdfs4/btree.c:2204-2228 | a removal from the root of a tree of several levels gives the root up exactly when it had two records; otherwise it keeps all but one |
| RemoveStory.TopAfter | linux/fs/vdfs4/btree.c:2126-2230 | over a whole removal, through any drops and merges: the level above the leaves that it reaches last is given up or, if it is the top one, its root has at least two records |
| RemoveStory.LeftPartner | linux/fs/vdfs4/btree.c:2009-2013 | a node that is not the first child of its parent is merged with its left neighbour or not at all |
| RemoveStory.RightPartner | linux/fs/vdfs4/btree.c:2014-2018 | a first child is merged with the next child of the same parent or not at all |
| RemoveStory.NoPartner | linux/fs/vdfs4/btree.c:2019-2023 | an only child is not merged |
| BtreeModule.Btree.constructor | vdfs-tools/lib/cattree.c:548-590 | a tree with one leaf that holds the minimal record |
| BtreeModule.Btree.Insert | linux/fs/vdfs4/btree.c:1715-1723 | adds exactly the record, or answers that the key exists and leaves every node, the root and the height as they were; no node is dangling afterwards |
| BtreeModule.Btree.Remove | linux/fs/vdfs4/btree.c:2248-2255 | deletes exactly the key, or answers that it is absent and leaves every node, the root and the height as they were; no node is dangling afterwards; the story of drops, merges and loss of the root is one that the source prescribes, step by step up the levels |
| BtreeModule.Btree.Find | linux/fs/vdfs4/btree.c:1605-1646 | on every well-ordered tree, with dangling nodes or without, the record with the greatest key not above the searched one; while the leftmost nodes are indexed there is none only for a key below all others |
| BtreeModule.Btree.SetValue | linux/fs/vdfs4/inode.c:4572-4593 | writing into the value of a record that was found changes the map at that key and nothing else |
| BtreeModule.Btree.Next | linux/fs/vdfs4/btree.c:298-324 | the record with the next greater key, or none exists |
| BtreeModule.Btree.FloorInContents | linux/fs/vdfs4/btree.c:1605-1646 | the answer of Find is the floor of the key in the map |
| BtreeModule.Btree.NextInContents | linux/fs/vdfs4/btree.c:451-470 | the answer of Next is the successor in the map |
| BtreeModule.Btree.Run | linux/fs/vdfs4/btree.c:1715-2255 | any run of insertions and removals does to the tree exactly what it does to a map |
| Tiling.TilesPlaced | linux/fs/vdfs4/btree.c:602-655 | a record behind the others and a slot at any place: the data area is tiled again |
| Tiling.TilesRemoved | linux/fs/vdfs4/btree.c:755-790 | moving the bytes behind a record down and lowering the offsets above it tiles the data area again |
| Tiling.TilesJoined | linux/fs/vdfs4/btree.c:1866-1883 | the shifted offsets of a second node continue the tiling of the first |
| SlottedPage.HoldsPlaced | linux/fs/vdfs4/btree.c:602-655 | the page holds the sequence with the record inserted, every other record with its bytes, and free space ends at the last slot |
| SlottedPage.HoldsRemoved | linux/fs/vdfs4/btree.c:728-800 | the page holds the sequence without the record, every other record with its bytes |
| SlottedPage.HoldsJoined | linux/fs/vdfs4/btree.c:1858-1894 | the page holds the records of both nodes, with exact free space |
| SlottedPage.RoomForAll | linux/fs/vdfs4/btree.c:2050-2056 | the test before a merge leaves room for the data and for every slot |
| SlottedPage.OffsetsInside | linux/fs/vdfs4/btree.c:169-195 | every offset of a page is one that the offset checks accept |
| SlottedPage.SameFreeSpace | linux/fs/vdfs4/btree.c:504-509 | the free space that the tree reckons with is the one the page keeps |
| BnodePageModule.BnodePage.GetOffset | linux/fs/vdfs4/btree.c:131-167 | reads the slot from the end of the node, in front of the CRC |
| BnodePageModule.BnodePage.SetOffset | linux/fs/vdfs4/btree.c:226-245 | writes one slot and nothing else, or refuses an offset of zero or behind the node and writes nothing |
| BnodePageModule.BnodePage.constructor | linux/fs/vdfs4/btree.c:517-539 | an empty page |
| BnodePageModule.BnodePage.OpenSlot | linux/fs/vdfs4/btree.c:632-636 | the slots from a position on move one place, data and earlier slots stay |
| BnodePageModule.BnodePage.Place | linux/fs/vdfs4/btree.c:602-655 | the records are the old ones with the new one inserted, its length field patched and its key bytes kept; free space shrinks by record and slot |
| BnodePageModule.BnodePage.LowerSlots | linux/fs/vdfs4/btree.c:772-782 | offsets behind the deleted record are lowered by its length |
| BnodePageModule.BnodePage.DropSlot | linux/fs/vdfs4/btree.c:784-790 | the slots behind the deleted one move up |
| BnodePageModule.BnodePage.Delete | linux/fs/vdfs4/btree.c:728-800 | the records are the old ones without that one; free space grows by record and slot |
| BnodePageModule.BnodePage.GetRecord | linux/fs/vdfs4/btree.c:202-216 | the bytes at the offset are the record of the abstract sequence |
| BnodePageModule.BnodePage.AppendAll | linux/fs/vdfs4/btree.c:1858-1894 | whenever the free spaces sum up to a node, the page becomes left records then right records, with exact free space |
| BnodePageModule.BnodePage.SanityCheck | linux/fs/vdfs4/btree.c:327-397 | on any bytes: accepts exactly an empty node with its first offset behind the header, and a node with at most 1000 records whose offsets are inside and whose records, from the least offset on, lie one behind the other up to the offset of the free space |
| NodeSanity.BuiltIsSane | linux/fs/vdfs4/btree.c:327-397 | a node laid out by the operations is accepted if and only if it has at most 1000 records |
| NodeSanity.LeastIs | linux/fs/vdfs4/btree.c:364-374 | the walk starts at the least offset |
| BnodePageModule.CheckBuilt | linux/fs/vdfs4/btree.c:327-397 | the check of a page that these operations built answers whether it has at most 1000 records |
| BnodePageModule.CheckLong | linux/fs/vdfs4/btree.c:358-362 | a node that cannot hold 1001 records of the least length is always accepted; with the 32 bytes of a catalog record these are nodes up to 32 KB |
| BnodePageModule.RefusedNode | linux/fs/vdfs4/btree.c:358-362 | a node of 64 KB, filled with 1001 records of 32 bytes by placing them, is refused |
| SlottedPage.HoldsFilled | linux/fs/vdfs4/btree.c:678-690 | writing the value of a record leaves the other records and the table of offsets |
| PagedNode.FreeAgrees | linux/fs/vdfs4/btree.c:504-509 | page and tree answer every test of free space alike |
| PagedNode.InsertRecord | linux/fs/vdfs4/btree.c:676-690 | key and value placed at a position of the page are the record inserted there in the tree's node |
| PagedNode.DeleteRecord | linux/fs/vdfs4/btree.c:728-800 | deleting from the page deletes the record from the tree's node |
| PagedNode.MergeNodes | linux/fs/vdfs4/btree.c:1858-1894 | whenever the tree merges two nodes, the pages can be merged, and hold the joined records |
| PagedNode.SplitNode | linux/fs/vdfs4/btree.c:1158-1276 | on the bytes of two nodes: no record finds too little room, and the halves are those of the tree's split |
| BnodeIds.FindNextZero | linux/fs/vdfs4/bnode.c:459-461 | the first clear bit from a place on |
| BnodeIds.CountClear | linux/fs/vdfs4/bnode.c:699-700 | bits less weight is the number of clear bits |
| BnodeIds.NoneClear | linux/fs/vdfs4/bnode.c:440-441 | the free count is zero exactly when the first free id is behind the end |
| BnodeIds.CheckReserve | linux/fs/vdfs4/bnode.c:587-620 | in wrapping 64-bit arithmetic exactly the ids from the available ones up to used + 4 * height are prepared, none when there are enough |
| BnodeIds.NewEnd | linux/fs/vdfs4/bnode.c:600-609 | the wrap-around of the two differences cancels out in the loop bound |
| BnodeCacheModule.BnodeCache.constructor | linux/fs/vdfs4/bnode.c:680-708 | first free id and free count of a given map |
| BnodeCacheModule.BnodeCache.Lookup | linux/fs/vdfs4/bnode.c:339-355 | the live node of the id, or there is none |
| BnodeCacheModule.BnodeCache.HashNode | linux/fs/vdfs4/bnode.c:326-332 | one more live node in its bucket |
| BnodeCacheModule.BnodeCache.Unhash | linux/fs/vdfs4/bnode.c:334-337 | exactly that node leaves its bucket |
| BnodeCacheModule.BnodeCache.Acquire | linux/fs/vdfs4/bnode.c:367-408 | one more handle; an id with a live node gets that node, another one a fresh node; never two live nodes for one id |
| BnodeCacheModule.BnodeCache.GetBnode | linux/fs/vdfs4/bnode.c:367-424 | a handle exactly for an id in use whose data can be read; on failure handles and live nodes are as before |
| BnodeCacheModule.BnodeCache.Put | linux/fs/vdfs4/bnode.c:532-551 | one handle less; the node is freed with its last handle, and the count was positive |
| BnodeCacheModule.BnodeCache.AllocNew | linux/fs/vdfs4/bnode.c:432-475 | takes the least clear id, which has no live node, or reports that all ids are in use; a failure leaves everything as it was |
| BnodeCacheModule.BnodeCache.Destroy | linux/fs/vdfs4/bnode.c:628-668 | with the only handle: frees the id and the node, first free id and count follow; with more handles or for the head node the documented errors |
| SignedBitmap.PhysInverse | vdfs-tools/lib/utils.c:187-234 | every bit of the map has its own data bit of the buffer |
| SignedBitmap.LogicalInverse | vdfs-tools/lib/utils.c:187-234 | every data bit of the buffer is a bit of the map |
| SignedBitmap.SameBlock | linux/fs/vdfs4/data.c:833-842 | the tool's block number and the kernel's are the same for every bit |
| SignedBitmap.KernelBit | linux/fs/vdfs4/vdfs4.h:1044-1068 | rounding the address to a machine word of four or of eight bytes and counting bits from there names the same byte and bit |
| SignedBitmap.WroteMap | vdfs-tools/lib/utils.c:187-290 | writing a range is union with it, or removal of it, on the map |
| SignedBitmap.WroteKeepsSignature | vdfs-tools/lib/utils.c:187-290 | no byte of a magic or a CRC changes |
| SignedBitmap.WriteRaw | vdfs-tools/lib/utils.c:122-144 | exactly the bits of the range change |
| SignedBitmap.WriteBlock | vdfs-tools/lib/utils.c:211-232 | one block of a range, or the bounds check fails exactly for a block behind the buffer |
| SignedBitmap.SignWrite | vdfs-tools/lib/utils.c:187-290 | over any number of blocks exactly the bits of the range inside the buffer change; the answer is success exactly when all of them are inside |
| SignedBitmap.SignTest | vdfs-tools/lib/utils.c:153-177 | the bit, or an error exactly for a bit behind the map |
| SignedBitmap.TestAndWrite | linux/fs/vdfs4/vdfs4.h:1058-1068 | one bit written and its old value, on machines of 32 and of 64 bits |
| SignedBitmap.KernelSet | linux/fs/vdfs4/data.c:833-879 | sets the range up to the first bit that is set already, and succeeds exactly when there is none |
| SignedBitmap.KernelClear | linux/fs/vdfs4/data.c:893-948 | clears the whole range and succeeds exactly when every bit was set |
| SignedBitmap.BufferLargeEnough | vdfs-tools/lib/space_manager.c:264-277 | the buffer of a volume is whole blocks and has every bit, so the unchecked result of setting bits is always success |
| FreeList.TakenOk | vdfs-tools/lib/space_manager.c:205-228 | the list stays sorted, disjoint and without empty items; without touching items if at least one block is taken |
| FreeList.TakenCovers | vdfs-tools/lib/space_manager.c:205-228 | exactly the taken blocks leave the list |
| FreeList.TakenTotal | vdfs-tools/lib/space_manager.c:205-228 | the total length shrinks by the number of blocks taken |
| FreeList.OneItem | vdfs-tools/lib/space_manager.c:211-212 | where items do not touch, a run of free blocks lies in one item |
| SpaceManagerModule.FreeMeansFits | vdfs-tools/lib/space_manager.c:204-228 | blocks that an item contains have clear bits; blocks with clear bits are in one item, if at least one is asked for and no items touch |
| SpaceManagerModule.SpaceManager.constructor | vdfs-tools/lib/space_manager.c:247-302 | all blocks free in list, bitmap and count |
| SpaceManagerModule.SpaceManager.PutSorted | vdfs-tools/lib/space_manager.c:33-59 | the item goes before the first one with a greater offset |
| SpaceManagerModule.SpaceManager.SplitItem | vdfs-tools/lib/space_manager.c:221-228 | removing the item and putting both parts back leaves them at its place |
| SpaceManagerModule.SpaceManager.FindItem | vdfs-tools/lib/space_manager.c:204-231 | the first item the request fits in |
| SpaceManagerModule.SpaceManager.TakeFrom | vdfs-tools/lib/space_manager.c:205-228 | an item is made shorter, dropped or split so that exactly the blocks leave it |
| SpaceManagerModule.SpaceManager.Allocate | vdfs-tools/lib/space_manager.c:173-237 | the blocks are taken from the first item that can serve the request, and it fails exactly when there is none; only free blocks are handed out, and list, bitmap and count follow; given blocks are granted exactly when all are free, any-place requests get the lowest run of free blocks, and fail exactly when there is none |
| SpaceManagerModule.AllocateAll | vdfs-tools/lib/space_manager.c:316-328 | over any sequence of requests no block is handed out twice |
| ChunkCodec.StoreRestores | vdfs-tools/lib/compress.c:241-281 | what is stored for a chunk decodes to the chunk; a compressed chunk is never longer than a chunk, also after alignment; the codec need bear only the zeros that the alignment adds, and none where there is no alignment |
| ChunkCodec.StoreChoice | vdfs-tools/lib/compress.c:251-281 | a chunk is kept plain exactly when compression saves no more than the given share of it or the aligned result is too long; which bytes are stored in either case |
| ChunkCodec.PaddingFits | vdfs-tools/lib/compress.c:1049-1058 | with the padding a compressed chunk spans at most chunk_size / 4096 blocks as the kernel counts them |
| ChunkCodec.PaddingNeeded | vdfs-tools/lib/compress.c:1049-1058 | padding is written exactly when the chunk would span more blocks without it |
| ChunkLayout.TiledAppend | vdfs-tools/lib/compress.c:385-394 | an append continues the tiling of its temporary file, be it that of the plain or of the compressed chunks |
| CompressedFileModule.TilesNext | vdfs-tools/lib/compress.c:362-400 | whatever chunk is appended, both temporary files stay tiled by the chunks of their kind in the order they came |
| ChunkLayout.StartIsUnique | vdfs-tools/lib/compress.c:694-709 | a start in the temporary file names one chunk |
| ChunkLayout.LaidOutNext | vdfs-tools/lib/compress.c:1014-1072 | a chunk written behind the others is in the file, apart from all of them |
| CompressedFileModule.ReadChunks | vdfs-tools/lib/compress.c:843-848 | the chunks make up the file, all but the last are full, and their number is the one reckoned from the size |
| CompressedFileModule.Packer.constructor | vdfs-tools/lib/compress.c:806-842 | nothing is appended, all chunks are still to be done |
| CompressedFileModule.Packer.Append | vdfs-tools/lib/compress.c:362-400 | the stored bytes are in the temporary file at the recorded start, whatever was appended before |
| CompressedFileModule.Packer.Finish | vdfs-tools/lib/compress.c:413-424 | the count of chunks left and the size of the file follow |
| CompressedFileModule.Packer.RunWorkers | vdfs-tools/lib/compress.c:283-435 | every interleaving of the workers ends with no chunk left and all of them appended |
| CompressedFileModule.Packer.WritePlain | vdfs-tools/lib/compress.c:1006-1033 | the plain chunks are in the file, apart from each other, each at a block boundary |
| CompressedFileModule.FindStarting | vdfs-tools/lib/compress.c:694-709 | the compressed extent with that start, or there is none |
| CompressedFileModule.Located | vdfs-tools/lib/compress.c:1045-1047 | the copy loop always finds the chunk that was appended next, so its assertion never fails |
| CompressedFileModule.Packer.LayOut | vdfs-tools/lib/compress.c:1006-1073 | every chunk is in the file exactly once, no two share a byte, each is where the kernel can read it, and the reckoned size is the size |
| CompressedFileModule.LayoutReadable | vdfs-tools/lib/decompress.c:283-332 | each extent of the final table decodes to its chunk |
| CompressedFileModule.ReadableLonger | vdfs-tools/lib/compress.c:1082-1118 | table, hashes and descriptor behind the chunks do not disturb them |
| CompressedFileModule.KernelReadsPlain | linux/fs/vdfs4/data.c:286-291 | page k of a plain chunk is at block start_block + k |
| CompressedFileModule.Decompress | vdfs-tools/lib/decompress.c:283-332 | for every table and every file: the chunks in order up to the first extent that is cut off or does not decode, and the answer tells which; a file whose extents decode to chunks is decoded to these chunks |
| CompressedFileModule.ReadablePieces | vdfs-tools/lib/decompress.c:283-332 | where the extents decode to chunks the pieces are these chunks |
| CompressedFileModule.NoStop | vdfs-tools/lib/decompress.c:283-332 | and the loop never stops early |
| CompressedFileModule.CompressFile | vdfs-tools/lib/compress.c:779-1073 | for every file and every interleaving: readable, disjoint ranges, plain chunks at block boundaries, compressed ones within their blocks; every chunk is compressed exactly if that saves enough, and its stored bytes are at its place |
| CompressedFileModule.RoundTrip | vdfs-tools/lib/decompress.c:283-332 | decompressing what was compressed under any interleaving gives the file |
| CompressedImage.ExtBack | vdfs-tools/include/vdfs4_layout.h:264-272 | an extent is read back from its sixteen bytes |
| CompressedImage.TableBack | vdfs-tools/lib/compress.c:1096-1102 | the table is read back from its bytes |
| CompressedImage.DescrFields | vdfs-tools/lib/compress.c:461-509 | every field is read back from the descriptor, the number of extents modulo 2^16 |
| CompressedImage.TailRead | vdfs-tools/lib/decompress.c:138-212 | without hashes the reader takes the last n mod 65536 extents for the table |
| CompressedImage.HashRead | vdfs-tools/lib/decompress.c:138-212 | with hashes and too many chunks it takes bytes of the hashes for the table, at a place that is computed |
| CompressedImage.TableFound | vdfs-tools/lib/decompress.c:138-212 | from the end of the file the reader finds the table that was written if and only if there are fewer than 65536 chunks, for every kind of hash and signature |
| CompressedImage.RefusedExactly | vdfs-tools/lib/decompress.c:138-212 | whatever the file: it is refused if and only if it is shorter than the descriptor, has no known magic, or has extents and is shorter than its footer |
| CompressedImage.Table05Found | vdfs-tools/lib/decompress.c:138-212 | in the older layout the table is found if and only if there are fewer than 65536 extents and the file is not shorter than the present descriptor |
| CompressedImage.Load | vdfs-tools/lib/decompress.c:138-332 | a file is refused if and only if its end is no descriptor of the present or the older layout with a table in the file; otherwise the extents of the table found there are decoded in order |
| CompressedImage.StoreAndLoad | vdfs-tools/lib/compress.c:779-1122 | for every file, interleaving, hash and signature: the bytes written decode to the file if it has fewer than 65536 chunks; without hashes only then, and otherwise to its last chunks; with a positive multiple of 65536 chunks to nothing, with hashes or without |
| CompressedImage.LongFile | vdfs-tools/lib/compress.c:497-499 | a file of 256 MiB in chunks of 4096 bytes is written and decodes to nothing |
| Crc32.ByteStepDivides | vdfs-tools/lib/crc32.c:306-306 | a byte by the table is a byte divided bit by bit |
| Crc32.WordStepDivides | vdfs-tools/lib/crc32.c:307-310 | the four tables together divide out four bytes |
| Crc32.CrcBody | vdfs-tools/lib/crc32.c:302-339 | for every buffer, alignment and seed the result is the CRC bit by bit |
| Crc32.CrcConcat | vdfs-tools/lib/crc32.c:302-339 | the CRC of two parts one after the other is the CRC of the whole |
| Crc32.TabLinear | vdfs-tools/lib/crc32.c:30-293 | the tables are linear, so their entries at powers of two fix them |
| Crc32.TabConstants | vdfs-tools/lib/crc32.c:30-293 | all four tables have the source's entries at powers of two |
| Crc32.TabFixed | vdfs-tools/lib/crc32.c:30-293 | every entry of the four tables is the sum of the source's entries at the bits of its index |
| CatalogKey.CompareIsRank | linux/fs/vdfs4/cattree.c:39-69 | the sign of the comparison is that of the ranks, and it is zero only for the same key |
| CatalogKey.CompareIsOrder | linux/fs/vdfs4/cattree.c:39-69 | the comparison is a strict total order on parent, name and object |
| CatalogKey.KeyAtRank | linux/fs/vdfs4/cattree.c:39-69 | the key can be read back from its rank |
| CatalogKey.SameName | linux/fs/vdfs4/cattree.c:200-218 | the records of one name in one directory are a range of the tree |
| CatalogModule.BothOrNeither | linux/fs/vdfs4/cattree.c:337-399 | in a catalog built by place and remove a record that is no hard link is there exactly when its partner is, and one of the two is the inverse link |
| CatalogModule.Catalog.constructor | vdfs-tools/lib/cattree.c:548-590 | the catalog with the root folder |
| CatalogModule.Catalog.Place | linux/fs/vdfs4/cattree.c:337-399 | files, folders, hard links and their bodies: placed, with the inverse link if it gets one, exactly when the keys are free and memory suffices; otherwise the catalog is as before, except that for a record without inverse link the one under the swapped key goes; a placed record has its type, is no orphan and can be looked up by its name, and its inverse link is of that type; lack of memory is reported exactly when the inverse link was no obstacle |
| CatalogModule.PlacedLive | linux/fs/vdfs4/cattree.c:337-399 | what is placed is there with its type and no orphan, and all other records are as before |
| CatalogModule.RecMade | linux/fs/vdfs4/cattree.c:277-335 | a record that is made carries its key, its type and its flag, with the length of its type |
| CatalogModule.FailureExact | linux/fs/vdfs4/cattree.c:355-367 | a failure leaves the catalog as it was if and only if the record gets an inverse link or the swapped key is free |
| CatalogModule.SecondBodyDeletesFirst | linux/fs/vdfs4/cattree.c:355-367 | placing the body of a hard link a second time is refused, and the first body is gone |
| CatalogModule.LinkOverFileUnpairs | linux/fs/vdfs4/cattree.c:355-367 | a hard link under the key of a file is refused, and the file has lost its inverse link |
| CatalogModule.Catalog.Remove | linux/fs/vdfs4/cattree.c:460-491 | a record that has the type asked for is removed, with its inverse link if it has one, and all others stay paired; a missing one changes nothing |
| CatalogModule.Catalog.SetOrphan | linux/fs/vdfs4/inode.c:4572-4593 | writing an inode back sets or clears the orphan flag of its record, and the catalog stays well formed |
| CatalogModule.Catalog.TreeFind | linux/fs/vdfs4/cattree.c:208-211 | floor search in terms of the catalog |
| CatalogModule.Catalog.TreeNext | linux/fs/vdfs4/cattree.c:237-244 | next record in terms of the catalog |
| CatalogModule.NamedRange | linux/fs/vdfs4/cattree.c:200-235 | the searched range holds exactly the records of the name, and the second search starts before it |
| CatalogModule.Catalog.Find | linux/fs/vdfs4/cattree.c:189-258 | a record of that parent and name that is no orphan, exactly when there is one |
| RuntimeExtentsModule.TotalIsSize | vdfs-tools/lib/extents.c:603-614 | the lengths of the extents add up to the number of blocks |
| RuntimeExtentsModule.RuntimeExtents.Add | vdfs-tools/lib/extents.c:460-518 | a block is reported as existing exactly when the first extent that decides holds it, and then it is there; a block that is not there is added and the list stays disjoint; without memory it fails exactly when the block joins no extent; in an ordered list without touching extents, which stays one, a block is reported exactly when it is there |
| RuntimeExtentsModule.ReportedExactly | vdfs-tools/lib/extents.c:466-498 | the order and the gaps of the list make the report exact |
| RuntimeExtentsModule.GappedKept | vdfs-tools/lib/extents.c:466-518 | adding a block keeps order and gaps, joining what would touch |
| RuntimeExtentsModule.AddedTwice | vdfs-tools/lib/extents.c:489-504 | in the list that a deletion from the middle leaves, a block that is there is added a second time |
| RuntimeExtentsModule.RuntimeExtents.Del | vdfs-tools/lib/extents.c:520-562 | exactly the block is taken out, at an end or from the middle, in a list of any order; from the middle the part behind it takes the place of the extent and the part in front goes behind that; it fails exactly for a block in the middle without memory for one more extent, and then nothing changes |
| RuntimeExtentsModule.OrderLost | vdfs-tools/lib/extents.c:537-556 | a list in order stays so if and only if the block is not in the middle of an extent |
| RuntimeExtentsModule.ClaimedTwice | vdfs-tools/lib/extents.c:460-562 | blocks 0, 1 and 2 added, 1 deleted and 0 added again through the operations: the last one is not reported, and the list has block 0 twice |
| RuntimeExtentsModule.RuntimeExtents.Truncate | vdfs-tools/lib/extents.c:566-590 | exactly the blocks from the new size on are dropped, and their number is returned |
| RuntimeExtentsModule.RuntimeExtents.Has | vdfs-tools/lib/extents.c:591-602 | membership in the set of blocks |
| RuntimeExtentsModule.RuntimeExtents.Count | vdfs-tools/lib/extents.c:604-614 | the number of blocks |
| MetaHashModule.TreeInStep | vdfs-tools/lib/space_manager.c:459-519 | with four blocks to a node, table and metadata grow in step, so that checksums land in their slots; with fewer the metadata falls behind, with more it runs ahead |
| MetaHashModule.OnlyFour | vdfs-tools/lib/flush_metadata.c:122-138 | two trees one behind the other can both have their first checksum in its slot only with four blocks to a node |
| MetaHashModule.PlaceAll | vdfs-tools/mkfs/mkfs.c:1356-1374 | for read-only and writable images: slots are inside the table and pairwise distinct; when catalog and extents tree have nodes, the checksums land in their slots if and only if a node has four blocks; when the later two trees have nodes, the writes stay in the table if and only if a node has at most four of the 1, 2, 4, 8 or 16 blocks it may have; the trees lie on multiples of their node size, one behind the other, and the first one behind the two bitmaps, which only writable images have |
| MetaHashModule.FlushTree | vdfs-tools/lib/flush_metadata.c:122-138 | exactly the four bytes at meta_iblock behind the header are written for each node, wherever that is in the table |
| MetaHashModule.FlushAll | vdfs-tools/mkfs/mkfs.c:1385-1393 | all trees one after the other, later writes over earlier ones |
| MetaHashModule.AllReadable | linux/fs/vdfs4/bnode.c:82-103 | where the writes land in their slots, every node's checksum is found at its index after all trees are flushed |
| MetaHashModule.FoundExactly | linux/fs/vdfs4/bnode.c:82-103 | for all checksums there can be, every one is found if and only if each is written to its slot |
| MetaHashModule.PlaceAndFlush | vdfs-tools/mkfs/mkfs.c:1356-1393 | from the placement to the filled table: with four blocks to a node the kernel finds every checksum, and with fewer it does not for all of them; the trees lie as PlaceAll says |
| MetaHashModule.TwoBlocks | vdfs-tools/lib/flush_metadata.c:138-142 | with nodes of 8 KB the second checksum of a tree overwrites half of the first, which is found only if the two halves agree |

Where the source can be read in two ways the model follows the code:

- `vdfs4_check_bnode_reserve` tests an unsigned number for `<= 0`, which holds for zero only; with
  enough nodes the difference wraps around and the loop is empty (`BnodeIds.CheckReserve`).
- `ADDR_ANY` is block 0, so a request for block 0 is one for any place (`Allocate`).
- `compress_chunk` limits a compressed chunk to 32 pages, not to the size of a chunk; that it is no
  longer than a chunk follows from the saving ratio (`ChunkCodec.StoreRestores`).
- The length that `split_bnode` counts for the new record need not be the one that is placed; both
  lengths are arguments of `Bnode.SplitBnode`.

## Findings

Properties that the code does not have on all inputs, each with an input and the exact condition.

| property | fails for | holds exactly when | members |
|---|---|---|---|
| a compressed file decodes to the file | 65536 chunks, as 256 MiB in chunks of 4096 bytes: `extents_num` has sixteen bits | fewer than 65536 chunks (without hashes; with hashes this is enough, and multiples of 65536 fail) | CompressedImage.StoreAndLoad, CompressedImage.LongFile |
| the kernel finds the checksum of every node in the table | nodes of 8 KB | a node has four blocks, when catalog and extents tree have nodes | MetaHashModule.PlaceAll, MetaHashModule.FoundExactly, MetaHashModule.TwoBlocks |
| a record that cannot be placed leaves the catalog as it was | the body of a hard link placed twice; a hard link under the key of a file | the record gets an inverse link, or the swapped key is free | CatalogModule.FailureExact, CatalogModule.SecondBodyDeletesFirst, CatalogModule.LinkOverFileUnpairs |
| adding a claimed block that is there is reported | a list whose order a deletion from the middle has changed | the first extent that ends at, starts behind or holds the block holds it; always in ordered lists without touching extents | RuntimeExtentsModule.RuntimeExtents.Add, RuntimeExtentsModule.OrderLost, RuntimeExtentsModule.ClaimedTwice |
| the sanity check accepts every node that the operations built | 1001 records of 32 bytes in a node of 64 KB | at most 1000 records | BnodePageModule.CheckBuilt, BnodePageModule.RefusedNode |

## Left out

- Btree keys: the tree keeps the rank of a key in the order of the tree's comparison function instead of the key's fields; for the catalog `CatalogKey` shows that the rank has that order, the comparison functions of the other trees and the case-insensitive one are not modelled.
- Btree: the store holds record sequences and links; `PagedNode` shows for each operation on a node that pages represent them, the links in the header of a page are not bytes here.
- BtreeModule.Btree.AllocNewBnode: takes the least unused id and never runs out, because exhaustion of ids is an error path of the allocator, which `BnodeCache.AllocNew` covers.
- BtreeModule.Btree.Insert: a tree without dangling nodes only; with dangling nodes a root that grows in mid-loop can step past the traverse stack in the source.
- BtreeModule.Btree.BuildNewRoot: in chains of more than two nodes, which only an interrupted insertion leaves, no index record may be longer than the first record of its node, because the source tests the room for the latter and places the former.
- BtreeModule.Btree.DeleteFromNode: for a node that keeps a record; a node that would be emptied goes through `UnlinkBnode`, which the source does after the deletion.
- BnodePageModule.BnodePage: count and free space are fields of the class, not bytes of the header; magic, type, ids and CRC of the header are not modelled. The bytes that follow a node in memory, which a last record may reach into, are an argument of `SanityCheck`.
- BnodeCacheModule.BnodeCache: allocation and destruction are single steps, because the tree's write lock excludes other users; access modes, pages and dirty marks are not modelled.
- SpaceManagerModule.SpaceManager: read-only images, which only advance an address, and the signing of the bitmap are not modelled; block numbers do not wrap.
- SpaceManagerModule.SpaceManager.Allocate: writable images only; the two exact answers in terms of free blocks are stated for requests of at least one block in a list without touching items, because a request of no blocks in the middle of an item leaves two touching ones.
- SpaceManagerModule.FreeMeansFits: the converse has the same two conditions, for the same reason.
- SignedBitmap.KernelSet: for ranges inside the buffer and of at least one bit, because the kernel checks neither.
- SignedBitmap.KernelClear: the same.
- CompressedFileModule.CompressFile: unprofiled and unencrypted files; failures of reads and writes, retries, deduplication, and waking and waiting of threads are not modelled.
- CompressedImage.StoreAndLoad: hashes and signature are bytes of the right number; of a file with hashes and more than 65536 chunks, not a multiple of that, it is said which bytes are taken for the table (`HashRead`), not what they decode to, which depends on the hashes.
- Crc32.CrcBody: the tables enter as the functions they tabulate; `TabFixed` fixes all their entries by 32 of the source, the other entries are not spelled out.
- CatalogModule.Catalog.Place: parent and object ids are positive, as all but the parent of the root folder are; record types other than file, folder and hard link are not modelled.
- RuntimeExtentsModule.RuntimeExtents.Add: after a block was added a second time the list has shared blocks, about which nothing is promised.
- MetaHashModule.PlaceAndFlush: nodes of at most four blocks, since with more the writes leave the table (`PlaceAll`).
- MetaHashModule.FlushTree: for writes inside the table, which `PlaceAll` shows for nodes of at most four blocks.
- Crash consistency, snapshots, the commit of metadata and the translation tables.
- Block I/O, page cache, writeback, command lines, directory walks and logging.
- Compression, encryption, hashing and signature algorithms.
- The checks of links and order in `linux/fs/vdfs4/btree.c:2257-2540`, which restate the tree's invariant.
- The user-space twin `vdfs-tools/lib/btree.c` is modelled through the kernel's version of the same algorithms.
