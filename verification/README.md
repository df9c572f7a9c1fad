# A verified model of MiyaCoin

This project models the parts of MiyaCoin with the most state and branching, and proves what they are
for. Verify with `dafny verify dfyconfig.toml`.

**Storage engine (MiyaDB).** The index is a 2-3-4 tree whose nodes are records in a file, with parent
addresses, splitting from the leaf upward and a root that grows. `BTreeSpec`, `BTreeInsert`,
`BTreeOrder` and `BTreeFind` say what the tree is as a mathematical object; `BTreeHeap` and `BTreeStep` say when a
store of records spells a tree and what each write does to it; `IndexTree` (`OBtree.dfy`) is the object
itself, with its loops and record writes. `BTreeRemove` and `BTreeShrink` treat removal at
a leaf, `BTreeMerge` and `BTreeOutcome` what becomes of a leaf that no neighbour can lend to. `KeySort`
holds the sort and shift loops. `PackedNode` shows that 103 packed bytes hold the record, setter by
setter, and `OverlayPtr` when five-byte pointer arithmetic is exact.

A *safe session* works on an overlay: a node is copied to a second file on its first write, and a table leads
from old addresses to new ones. `SafeTable` and `SafeStart` relate the overlay to a flat store;
`SafeSimulation` shows that sessions are runs of the plain tree; `SafeCommit` and `SafeIndexTree` (`SafeBtree.dfy`)
hold the session object, its provenance tags and the commit, which writes the tree seen into the normal file;
`StorageEngine` (`MMyISAM.dfy`) is the engine with its session slots. Each of its methods steps the engine of
`Sessions`, which is the listed entries of the normal index and, per slot, a session's base and log; `Sessions` proves over
all runs that open sessions stand on the present normal entries, keep their own additions whatever other
sessions do, and that a commit installs exactly base plus own updates, an abort nothing.

Files are handed out by an allocator whose control blocks live in three rings. `ControlBlocks` treats one
ring, `RingSets` all of them together, `Ranges` the bytes that blocks govern, and `Allocator` is the object.

**Transaction table.** A sixteen-way trie over the nibbles of an ID, whose leaves are rings of control blocks:
`TxCBTrie` is the abstract side, `TxCBTables` the linked one.

**Request protocol.** `Protocol` is a state machine of clients and one server over two bounded buffers
(`StreamBuffers`), with clients that push foreign answers back. Its steps interleave in any order. `Returns`
shows that from wherever they come to, every call can still return with its own answer.

**Transactions and scripts.** `Scripts` (printer, parser, stack machine), `Transactions` (the three forms of an
input, outputs, whole transactions) and `P2PKHs` (signing, hashing, printing, reading, judging). Key coding, hashing and
signing are parameters; where a theorem needs them to be correct it says so (`Sound`).

**Blocks and chain.** `Coinbases`, `BlockFiles` (block records in an append-only, page-mapped file),
`Mining` (targets, nonce search, header verification) and `HeaderChain` (header pool, chain extension).

The classes follow the objects of the source; a method's contract ties its result or new state to a pure
function, and the lemmas are about those functions. In the index the type of data pointers is left open,
because a session tags each pointer with the file it lives in.

Some results are boundaries of what the code does, stated as conditions that hold if and only if it works:
pointer addition (`PlusExact`) and block sizes (`FreeBlockSizeExact`), taking the head out of a ring (`HeadLeaves`,
`HeadIsUsed`), removing the last entry of a leaf (`RemoveAtLeaf`, `Outcome`, `WideMergePairs`), the five-byte search
(`PrefixIsLookup`), how many nodes a file can have (`NodesOnGrid`), scripts with pushes as long as an operation code
(`RoundTrip`), coinbase texts and heights (`MintTells`).

Smaller remarks on the way: a timed enqueue stores exactly where there was room at the call (`TimedEnqueueWorks`);
what was read is not marked as signed and does not print again (`ReadIsNotPrintedAgain`, `ReadIsNotPrintable`,
`ReadBlockIsNotPrintable`); a coinbase output that was printed before keeps the hash it was printed with (`IntoUsed`).

## Model

| member | source | states |
|---|---|---|
| BTreeInsert.AddTreeCorrect | miya_db/strage_manager/MMyISAM/components/index_manager/o_node.cpp:614-780 | For every well-formed 2-3-4 tree and every absent key, through any chain of splits and root growth: the new tree is well formed (1 to 3 sorted keys below the root, one child more than keys, all leaves equally deep) and its in-order list is the old one plus exactly that entry |
| BTreeRemove.InsertLookup | miya_db/strage_manager/MMyISAM/components/index_manager/btree.cpp:89-120 | An addition, seen as a map, changes the answer for its own key only |
| BTreeOrder.AdmitsSearch | miya_db/strage_manager/MMyISAM/components/index_manager/btree.cpp:89-120 | In a well-formed tree the descent ends at a leaf where the absent key may be added without breaking any separator above it |
| BTreeStep.FitStep | miya_db/strage_manager/MMyISAM/components/index_manager/o_node.cpp:749-777 | A node with room: the one record written spells the whole new tree, everything else untouched |
| BTreeStep.SplitStep | miya_db/strage_manager/MMyISAM/components/index_manager/o_node.cpp:618-705 | A full node: the two records written spell the two halves, and the middle entry is what is left to add one level up |
| BTreeStep.ClimbStep | miya_db/strage_manager/MMyISAM/components/index_manager/o_node.cpp:745-747 | After a split below the root the same addition stands one level up, with the same final tree |
| BTreeStep.CrownStep | miya_db/strage_manager/MMyISAM/components/index_manager/o_node.cpp:708-743 | After a split of the root the new root completes the addition |
| IndexTree.OBtree.constructor | miya_db/strage_manager/MMyISAM/components/index_manager/btree.cpp:24-64 | A new index file holds one empty leaf, at address 100 |
| IndexTree.OBtree.Add | miya_db/strage_manager/MMyISAM/components/index_manager/btree.cpp:89-120 | Adding an absent key keeps the node store a well-formed stored tree; its list gains exactly the entry, and the tree is the one the pure addition gives |
| IndexTree.OBtree.Descend | miya_db/strage_manager/MMyISAM/components/index_manager/btree.cpp:92-112 | The loop over children, reading key slots as the code does, reaches the leaf of the search path |
| IndexTree.OBtree.RecursiveAdd | miya_db/strage_manager/MMyISAM/components/index_manager/o_node.cpp:614-780 | The bottom-up addition at any node of the path, on the record store, against the pure insertion along that path; returns a new root exactly when the root was split |
| IndexTree.OBtree.SimpleAdd | miya_db/strage_manager/MMyISAM/components/index_manager/o_node.cpp:749-777 | One record changes: key, data pointer and right child at their places |
| IndexTree.OBtree.SplitONode | miya_db/strage_manager/MMyISAM/components/index_manager/o_node.cpp:618-705 | The records after a split, children handed over with new parent addresses |
| IndexTree.OBtree.GrowRoot | miya_db/strage_manager/MMyISAM/components/index_manager/o_node.cpp:708-743 | The records after a new root was put above two halves |
| BTreeFind.FoundExactly | miya_db/strage_manager/MMyISAM/components/index_manager/o_node.cpp:1197-1257 | In every well-formed tree the walk finds an entry exactly when the tree lists one that matches (in five bytes or in all twenty), and what it finds is such an entry |
| BTreeFind.WholeIsLookup | miya_db/strage_manager/MMyISAM/components/index_manager/o_node.cpp:1197-1225 | The search over whole keys is map lookup |
| BTreeFind.PrefixIsLookup | miya_db/strage_manager/MMyISAM/components/index_manager/o_node.cpp:1227-1257 | With keys stored that differ in their first five bytes, the five-byte search is map lookup if and only if the key is stored or shares those bytes with no stored one |
| BTreeFind.RawIsKey | miya_db/strage_manager/MMyISAM/components/index_manager/o_node.cpp:1197-1225 | Every string of twenty bytes is the key of exactly its number |
| BTreeFind.SeenAlike | miya_db/strage_manager/MMyISAM/components/index_manager/o_node.cpp:1227-1257 | The short comparison takes two keys for the same if and only if their first five bytes are the same |
| BTreeFind.PrefixFound | miya_db/strage_manager/MMyISAM/components/index_manager/o_node.cpp:1227-1257 | In every well-formed tree the short walk finds an entry exactly when a listed key has the same first five bytes, and finds such a one |
| IndexTree.OBtree.Find | miya_db/strage_manager/MMyISAM/components/index_manager/btree.cpp:161-164 | A pointer is returned exactly when some stored key has the same first five of its twenty bytes, and it is that key's |
| IndexTree.OBtree.SubtreeFind | miya_db/strage_manager/MMyISAM/components/index_manager/o_node.cpp:1227-1257 | The recursion over records follows the walk on the tree |
| IndexTree.OBtree.SubtreeONodeFind | miya_db/strage_manager/MMyISAM/components/index_manager/o_node.cpp:1197-1225 | The node returned is the one that holds the key itself |
| BTreeRemove.RemoveLookup | miya_db/strage_manager/MMyISAM/components/index_manager/o_node.cpp:784-829 | A removal, seen as a map, takes exactly the key away |
| BTreeRemove.LendLeftRemoves | miya_db/strage_manager/MMyISAM/components/index_manager/o_node.cpp:878-891 | Borrowing through the parent from the left neighbour removes exactly the key from the listed entries |
| BTreeRemove.LendRightRemoves | miya_db/strage_manager/MMyISAM/components/index_manager/o_node.cpp:892-906 | The same from the right neighbour |
| BTreeRemove.CollapseRemoves | miya_db/strage_manager/MMyISAM/components/index_manager/o_node.cpp:978-1031 | Two leaves and their one separator joined into one leaf: exactly the key is gone |
| BTreeRemove.ReplaceRemoves | miya_db/strage_manager/MMyISAM/components/index_manager/o_node.cpp:784-829 | A subtree that lost a key, put back in its place: the whole tree lost exactly that key |
| IndexTree.OBtree.RemoveAtLeaf | miya_db/strage_manager/MMyISAM/components/index_manager/o_node.cpp:784-829 | Removal at the leaf, exactly: if the leaf keeps a key, is the root, has a neighbour with two keys, hangs below a one-key root, or its drained parent joins a one-key left neighbour under a node that keeps a key or is the root (`Removable`), the index is well formed and lost exactly the entry; in every other case no tree spelled at the root is the old one without the key, or the source gets stuck on a null child, which it does exactly where a drained parent has a left neighbour with two keys or more (`GetsStuck`). An absent key changes nothing |
| IndexTree.OBtree.Underflow | miya_db/strage_manager/MMyISAM/components/index_manager/o_node.cpp:851-906 | Left lender first, then right: the records spell the tree with the entry gone; without a lender the leaf is merged away |
| IndexTree.OBtree.Merge | miya_db/strage_manager/MMyISAM/components/index_manager/o_node.cpp:937-1031 | The three ways of merging, each with the store and the root it leaves: below two keys or more, below a one-key root, below any other one-key node |
| IndexTree.OBtree.RecursiveMerge | miya_db/strage_manager/MMyISAM/components/index_manager/o_node.cpp:1054-1179 | The drained node under its parent: stuck if and only if the left neighbour has two keys or more; else the right neighbour lends, or the node is joined to the left one, failing that to the right one, and a parent without keys leaves its child as the root |
| IndexTree.OBtree.JoinToRight | miya_db/strage_manager/MMyISAM/components/index_manager/o_node.cpp:1153-1176 | The moved child keeps its old parent address: the write meant for it goes to the last child |
| BTreeOutcome.Outcome | miya_db/strage_manager/MMyISAM/components/index_manager/o_node.cpp:922-1179 | Without a lender, for every tree and every path: a tree without exactly the key is spelled at the root afterwards if and only if the case is removable |
| BTreeMerge.JoinedRemoves | miya_db/strage_manager/MMyISAM/components/index_manager/o_node.cpp:1128-1151 | Left neighbour, separator and the leaf that is left in one node: exactly the key is gone from the listed entries |
| BTreeMerge.JoinKeeps | miya_db/strage_manager/MMyISAM/components/index_manager/o_node.cpp:1128-1151 | Joining to the left under a node that keeps a key: the records spell the joined tree, well formed, with exactly the key gone |
| BTreeMerge.JoinCrowns | miya_db/strage_manager/MMyISAM/components/index_manager/o_node.cpp:1128-1148 | Joining to the left under a one-key root: the neighbour is the new root of a well-formed tree with exactly the key gone |
| BTreeMerge.JoinLoses | miya_db/strage_manager/MMyISAM/components/index_manager/o_node.cpp:1128-1148 | Joining to the left under any other one-key node makes the neighbour the root: what lay outside is lost, whatever tree is spelled there |
| BTreeMerge.JoinRightBreaks | miya_db/strage_manager/MMyISAM/components/index_manager/o_node.cpp:1153-1176 | Joining to the right: no tree is spelled, neither at the old root nor at the new one |
| BTreeMerge.BorrowBreaks | miya_db/strage_manager/MMyISAM/components/index_manager/o_node.cpp:1099-1122 | Borrowing from the right: a key without a data pointer, so no tree is spelled at the root |
| IndexTree.OBtree.MergeBelowWide | miya_db/strage_manager/MMyISAM/components/index_manager/o_node.cpp:937-975 | Under a parent of two keys or more the merge takes a key and a child out of the parent and leaves its data pointers; the neighbour gains key and pointer, but the right one keeps its pointer count |
| BTreeShrink.WideMergePairs | miya_db/strage_manager/MMyISAM/components/index_manager/o_node.cpp:937-975 | After such a merge the parent's keys still stand beside their own data pointers if and only if the leaf merged away was the last child |
| BTreeShrink.WideMergeBreaks | miya_db/strage_manager/MMyISAM/components/index_manager/o_node.cpp:937-975 | After such a merge the store spells no tree at the root address: a node has one data pointer more than keys |
| KeySort.SortKeys | miya_db/strage_manager/MMyISAM/components/index_manager/o_node.cpp:125-145 | The exchange sort gives an ascending permutation |
| KeySort.PlaceKey | miya_db/strage_manager/MMyISAM/components/index_manager/o_node.cpp:749-765 | Sorting a fresh key into a node puts it at its rank, and the rank is found |
| KeySort.View | miya_db/strage_manager/MMyISAM/components/index_manager/o_node.cpp:622-650 | The virtual item set of an over-full node: four keys in order, pointers shifted alike |
| PackedNode.PackUnpack | miya_db/strage_manager/MMyISAM/components/index_manager/btree.h:51-59 | The 103 bytes are the fields and nothing else |
| PackedNode.UnpackPack | miya_db/strage_manager/MMyISAM/components/index_manager/btree.h:51-59 | Every field is read back from its own bytes |
| PackedNode.Untouched | miya_db/strage_manager/MMyISAM/components/index_manager/o_node.cpp:89-326 | A write changes no field whose bytes it does not touch |
| PackedNode.FourthKey | miya_db/strage_manager/MMyISAM/components/index_manager/o_node.cpp:111-116 | The index guard lets slot 3 through: that key overwrites the child count and the children |
| PackedNode.FifthKid | miya_db/strage_manager/MMyISAM/components/index_manager/o_node.cpp:207-218 | The index guard lets slot 4 through: that child overwrites the data count and the first data pointer |
| PackedNode.FourthData | miya_db/strage_manager/MMyISAM/components/index_manager/o_node.cpp:273-283 | There is no guard: a fourth data pointer leaves the node alone and becomes the parent of the node behind it |
| PackedNode.OtherNode | miya_db/strage_manager/MMyISAM/components/index_manager/o_node.cpp:89-326 | Nodes that do not overlap do not see each other's writes |
| PackedNode.ONodeItemSet.SetKey | miya_db/strage_manager/MMyISAM/components/index_manager/o_node.cpp:111-116 | Below 3 exactly one key slot changes; at 3 the bytes from the child count on; above nothing; never anything outside of the node |
| PackedNode.ONodeItemSet.SetKid | miya_db/strage_manager/MMyISAM/components/index_manager/o_node.cpp:207-218 | Below 4 exactly one child slot changes; at 4 the bytes from the data count on; above nothing; never anything outside of the node |
| PackedNode.ONodeItemSet.SetData | miya_db/strage_manager/MMyISAM/components/index_manager/o_node.cpp:273-283 | Below 3 exactly one data slot changes; from 3 on the five bytes that lie that far behind the node |
| PackedNode.ONodeItemSet.SetParent | miya_db/strage_manager/MMyISAM/components/index_manager/o_node.cpp:305-318 | Exactly the parent changes; none is five zeros |
| PackedNode.ONodeItemSet.MoveInsertKey | miya_db/strage_manager/MMyISAM/components/index_manager/o_node.cpp:148-155 | The used slots from the index on move up by one, the count stays |
| PackedNode.ONodeItemSet.MoveDeleteKey | miya_db/strage_manager/MMyISAM/components/index_manager/o_node.cpp:158-173 | The used slots behind the index move down by one, the last keeps its bytes, the count drops; an empty node stays |
| PackedNode.ONodeItemSet.MoveInsertKid | miya_db/strage_manager/MMyISAM/components/index_manager/o_node.cpp:221-227 | The same for children |
| PackedNode.ONodeItemSet.MoveDeleteKid | miya_db/strage_manager/MMyISAM/components/index_manager/o_node.cpp:230-239 | The same for children |
| PackedNode.ONodeItemSet.MoveInsertData | miya_db/strage_manager/MMyISAM/components/index_manager/o_node.cpp:286-292 | The same for data pointers |
| PackedNode.ONodeItemSet.MoveDeleteData | miya_db/strage_manager/MMyISAM/components/index_manager/o_node.cpp:294-302 | The same for data pointers |
| PackedNode.ONodeItemSet.SortKey | miya_db/strage_manager/MMyISAM/components/index_manager/o_node.cpp:125-145 | The used keys are permuted into ascending numbers, every other byte stays |
| PackedNode.ONodeItemSet.Remove | miya_db/strage_manager/MMyISAM/components/index_manager/o_node.cpp:321-325 | The node told by the slots loses the key and the pointer at the index, and its last ones when the index is past the end |
| PackedNode.ONodeItemSet.PlaceKey | miya_db/strage_manager/MMyISAM/components/index_manager/o_node.cpp:751-769 | Written behind the others, sorted and looked for, a fresh key ends up at its rank |
| PackedNode.ONodeItemSet.SimpleAdd | miya_db/strage_manager/MMyISAM/components/index_manager/o_node.cpp:749-777 | The byte writes of an addition to a node with room turn a node that tells a record into one that tells the record widened by key, pointer and child: the very record that the index writes |
| PackedNode.ONodeItemSet.Fill | miya_db/strage_manager/MMyISAM/components/index_manager/o_node.cpp:658-741 | The byte writes of a split half or a new root make the node tell the record with just these keys, pointers and children |
| Bytes.CompareIsNumeric | miya_db/strage_manager/MMyISAM/components/index_manager/o_node.cpp:598-611 | memcmp on keys is the order of their big-endian numbers, so keys may be taken as numbers |
| Bytes.PrefixValue | miya_db/strage_manager/MMyISAM/components/index_manager/o_node.cpp:1227-1257 | The first five bytes of a key are its number divided by 256^15 |
| OverlayPtr.PlusExact | miya_db/strage_manager/MMyISAM/components/page_table/overlay_ptr.cpp:139-158 | Adding to an overlay pointer is exact if and only if the pointer is below 2^24 and the sum has five bytes |
| OverlayPtr.PlusAssociative | miya_db/strage_manager/MMyISAM/components/page_table/overlay_ptr.cpp:139-158 | From a base below 2^24, two additions are one if and only if the first sum is below 2^24 too |
| OverlayPtr.SetAddr | miya_db/strage_manager/MMyISAM/components/page_table/overlay_ptr.cpp:57-64 | The five lowest bytes of the number, big-endian |
| OverlayPtr.FrameAndOffset | miya_db/strage_manager/MMyISAM/components/page_table/overlay_ptr.cpp:81-115 | Frame and offset are the pointer, whenever its first byte is zero |
| OverlayPtr.CopyTo | miya_db/strage_manager/MMyISAM/components/page_table/optr_utils.cpp:22-31 | Byte by byte through pointer addition: memory changes in exactly these bytes |
| OverlayPtr.CopyFrom | miya_db/strage_manager/MMyISAM/components/page_table/optr_utils.cpp:33-39 | The bytes behind the pointer |
| OverlayPtr.Ocmp | miya_db/strage_manager/MMyISAM/components/page_table/optr_utils.cpp:107-117 | 0, -1 or 1 as the numbers spelled are equal, less or greater |
| ControlBlocks.EnterRing | miya_db/strage_manager/MMyISAM/components/page_table/meta_block.cpp:32-59 | Four link writes put a block at the head of a circular list that stays proper |
| ControlBlocks.LeaveRing | miya_db/strage_manager/MMyISAM/components/page_table/overlay_memory_allocator.cpp:489-492 | Unlinking any block but the head leaves a proper circular list of the others |
| ControlBlocks.HeadLeaves | miya_db/strage_manager/MMyISAM/components/page_table/overlay_memory_allocator.cpp:475-492 | Taking the head out leaves the proper list of the others if and only if the ring had two blocks; of a longer ring only one block stays linked |
| ControlBlocks.HeadIsUsed | miya_db/strage_manager/MMyISAM/components/page_table/meta_block.cpp:189-218 | Using the head of the unused ring up leaves the others as a proper list if and only if there were two; otherwise the used block stays reachable |
| RingSets.EnterLinked | miya_db/strage_manager/MMyISAM/components/page_table/meta_block.cpp:32-166 | All rings stay disjoint proper lists when a block in hand enters one of them |
| RingSets.LeaveLinked | miya_db/strage_manager/MMyISAM/components/page_table/overlay_memory_allocator.cpp:425-507 | All rings stay disjoint proper lists when a block other than a head leaves |
| RingSets.NewLinked | miya_db/strage_manager/MMyISAM/components/page_table/overlay_memory_allocator.cpp:414-421 | The block behind the tail is new, and blocks stay on their grid of twenty bytes |
| Ranges.TakenIsSteady | miya_db/strage_manager/MMyISAM/components/page_table/overlay_memory_allocator.cpp:212-268 | One unbounded free block behind contiguous allocations and at most one unused block: any size fits, the next allocation begins where the last ended, and the shape is kept |
| Ranges.ChainCovers | miya_db/strage_manager/MMyISAM/components/page_table/overlay_memory_allocator.cpp:212-268 | Every byte below the end lies in an allocated range, and ranges do not overlap |
| Ranges.RunIsContiguous | miya_db/strage_manager/MMyISAM/components/page_table/overlay_memory_allocator.cpp:175-268 | Over any run of positive sizes from a formatted file, each allocation begins at the sum of the sizes before it, and a further one is possible if and only if that sum is below 2^24 (and its end has five bytes) |
| Ranges.FreeBlockSizeExact | miya_db/strage_manager/MMyISAM/components/page_table/control_block.cpp:171-205 | The computed size of a bounded block is right if and only if the second bytes of its two addresses agree, and otherwise too large |
| Ranges.NodesNeverMeet | miya_db/strage_manager/MMyISAM/safe_mode_manager/safe_index_manager.cpp:31-40 | Normal nodes lie at 100+103a and safe nodes at 151+103b, and these are never equal |
| Ranges.NodesOnGrid | miya_db/strage_manager/MMyISAM/components/page_table/overlay_memory_allocator.cpp:212-268 | In any run of node allocations behind the first areas node a lies at their sum plus 103a, and a further node can be had if and only if its address is below 2^24 |
| Ranges.TakenWasFree | miya_db/strage_manager/MMyISAM/components/page_table/overlay_memory_allocator.cpp:212-268 | From free blocks that do not overlap, of which the one found is sized right: every byte of the range given was free, none of it is any more, every other byte is as free as before |
| Ranges.TakenKeepsApart | miya_db/strage_manager/MMyISAM/components/page_table/overlay_memory_allocator.cpp:212-268 | The free blocks still do not overlap after an allocation |
| Ranges.AbsorbKeeps | miya_db/strage_manager/MMyISAM/components/page_table/overlay_memory_allocator.cpp:303-331 | Absorbing an adjacent free block changes no byte's being free |
| Allocator.OverlayMemoryAllocator.Init | miya_db/strage_manager/MMyISAM/components/page_table/overlay_memory_allocator.cpp:175-208 | A free block at 0 without end; a clean state on a fresh or just formatted file |
| Allocator.OverlayMemoryAllocator.OpenSafeFile | miya_db/strage_manager/MMyISAM/safe_mode_manager/safe_index_manager.cpp:31-40 | What opening a session does to its file: 151 bytes are set apart, so the first node will lie at 151 |
| Allocator.OverlayMemoryAllocator.ClearAgain | miya_db/strage_manager/MMyISAM/MMyISAM.cpp:187 | Clearing a file in use once more makes the next allocation begin at 0, the null address |
| Allocator.OverlayMemoryAllocator.Reopen | miya_db/strage_manager/MMyISAM/components/page_table/overlay_memory_allocator.cpp:175-208 | What opening a session leaves of a file used before: the free ring is the first block and the former free one, other blocks and the head of the allocations stay, the allocations are a proper ring if and only if the first block is none of them, and the block after the tail, which the next new block overwrites, is in use |
| Allocator.OverlayMemoryAllocator.UseUnUsedControlBlockHead | miya_db/strage_manager/MMyISAM/components/page_table/meta_block.cpp:189-218 | Up to two unused blocks: the head comes out, all rings stay proper |
| Allocator.OverlayMemoryAllocator.NewControlBlock | miya_db/strage_manager/MMyISAM/components/page_table/overlay_memory_allocator.cpp:414-421 | A block that was not there, twenty bytes behind the tail |
| Allocator.OverlayMemoryAllocator.ToUnUsedControlBlock | miya_db/strage_manager/MMyISAM/components/page_table/overlay_memory_allocator.cpp:425-507 | The block changes from its ring to the head of the unused one, no range changes; not for the head of three or more |
| Allocator.OverlayMemoryAllocator.FindFreeBlock | miya_db/strage_manager/MMyISAM/components/page_table/overlay_memory_allocator.cpp:77-90 | The first block of the free ring that fits |
| Allocator.OverlayMemoryAllocator.Allocate | miya_db/strage_manager/MMyISAM/components/page_table/overlay_memory_allocator.cpp:212-268 | The first fitting free block gives its front; the rest becomes a new free block, an exact fit none; every other free or allocated range is kept, rings stay proper, one block is unused |
| Allocator.OverlayMemoryAllocator.FindMapping | miya_db/strage_manager/MMyISAM/components/page_table/overlay_memory_allocator.cpp:58-109 | The block of a ring that begins at an address, none exactly when there is none |
| Allocator.OverlayMemoryAllocator.MergeControlBlock | miya_db/strage_manager/MMyISAM/components/page_table/overlay_memory_allocator.cpp:303-331 | Terminates; the same bytes are free, no free block begins where the head ends, allocated blocks and both rings intact |
| Allocator.OverlayMemoryAllocator.Deallocate | miya_db/strage_manager/MMyISAM/components/page_table/overlay_memory_allocator.cpp:276-300 | Fails exactly when nothing allocated begins there; else exactly that range becomes free. Not for the latest of three or more allocations |
| SafeTable.WriteMirrors | miya_db/strage_manager/MMyISAM/safe_mode_manager/safe_o_node.cpp:332-363 | A write to a safe record is that write in the flat store seen through the table |
| SafeTable.CopyMirrors | miya_db/strage_manager/MMyISAM/safe_mode_manager/safe_o_node.cpp:343-363 | Copying a node on its first write changes nothing in the flat store |
| SafeTable.MakeMirrors | miya_db/strage_manager/MMyISAM/safe_mode_manager/safe_o_node.cpp:286-310 | A new safe node adds one empty record to the flat store |
| SafeStart.StartConsistent | miya_db/strage_manager/MMyISAM/safe_mode_manager/safe_index_manager.cpp:18-45 | Before the first write the overlay shows the normal tree |
| SafeIndexTree.SafeOBtree.constructor | miya_db/strage_manager/MMyISAM/safe_mode_manager/safe_btree.cpp:14-20 | A session starts from the normal tree, with an empty table and nothing added |
| SafeIndexTree.SafeOBtree.Read | miya_db/strage_manager/MMyISAM/safe_mode_manager/safe_o_node.cpp:134-174 | Resolving an address through the table gives the record of the flat store, each data pointer with its home |
| SafeIndexTree.SafeOBtree.ItemSet | miya_db/strage_manager/MMyISAM/safe_mode_manager/safe_o_node.cpp:343-363 | After it there is a safe record to write, and every address means what it meant |
| SafeIndexTree.SafeOBtree.SimpleAdd | miya_db/strage_manager/MMyISAM/safe_mode_manager/safe_o_node.cpp:388-551 | In the flat store exactly one record changes, as in the normal tree |
| SafeIndexTree.SafeOBtree.Add | miya_db/strage_manager/MMyISAM/safe_mode_manager/safe_btree.cpp:35-72 | The tree seen through the table gains exactly the entry, its value located in the safe file; it is the tree the plain addition gives; no normal record changes |
| SafeIndexTree.SafeOBtree.Find | miya_db/strage_manager/MMyISAM/safe_mode_manager/safe_btree.cpp:119-125 | Finds as in the plain tree; the pointer is tagged safe exactly when its key was added in this session |
| SafeSimulation.EraseAdd | miya_db/strage_manager/MMyISAM/safe_mode_manager/safe_o_node.cpp:388-551 | Forgetting homes before or after an addition makes no difference |
| SafeSimulation.SafeRunIsPlainRun | miya_db/strage_manager/MMyISAM/safe_mode_manager/safe_btree.cpp:35-72 | Any sequence of safe additions, homes forgotten, is the same sequence on a flat copy: same tree, same addresses |
| SafeIndexTree.SafeOBtree.MergeSafeBtree | miya_db/strage_manager/MMyISAM/safe_mode_manager/safe_btree.cpp:128-189 | One subtree written out: a tree in normal memory with rebuilt parent and child links, isomorphic to the one seen through the table |
| SafeCommit.IsoWellFormed | miya_db/strage_manager/MMyISAM/safe_mode_manager/safe_btree.cpp:128-189 | Isomorphic trees are well formed alike and list the same entries |
| SafeCommit.CommitEnds | miya_db/strage_manager/MMyISAM/safe_mode_manager/safe_btree.cpp:128-189 | The merged tree lies wholly in the normal file, with distinct allotted addresses |
| SafeIndexTree.SafeOBtree.Commit | miya_db/strage_manager/MMyISAM/safe_mode_manager/safe_btree.cpp:128-189 | The normal index becomes a valid tree isomorphic to the tree seen, listing exactly the session's start plus its additions |
| StorageEngine.MMyISAM.constructor | miya_db/strage_manager/MMyISAM/MMyISAM.cpp:25-39 | An empty index and no session |
| StorageEngine.MMyISAM.Add | miya_db/strage_manager/MMyISAM/MMyISAM.cpp:49-78 | Writes only the normal index, or only the addressed session and its file, and steps the engine: in normal mode the entry is in and every session closed, in a session its log grows and all others and the normal index stay; fails without a session |
| StorageEngine.MMyISAM.Remove | miya_db/strage_manager/MMyISAM/MMyISAM.cpp:120-146 | Steps the engine: exactly the entry goes, every session is closed |
| StorageEngine.MMyISAM.Find | miya_db/strage_manager/MMyISAM/MMyISAM.cpp:81-117 | A pointer exactly when the normal entries, or those that the session shows, have the first five bytes, and it is such an entry's; none where there is no session |
| StorageEngine.MMyISAM.MigrateToSafeMode | miya_db/strage_manager/MMyISAM/MMyISAM.cpp:172-213 | Steps the engine: a new session on a new file in the slot, with the present normal entries as its base and an empty log; the other slots stay |
| StorageEngine.MMyISAM.SafeCommitExit | miya_db/strage_manager/MMyISAM/MMyISAM.cpp:216-253 | Steps the engine: installs exactly base plus the session's own updates and closes every session; fails without a session and then changes nothing |
| StorageEngine.MMyISAM.SafeAbortExit | miya_db/strage_manager/MMyISAM/MMyISAM.cpp:256-264 | With a registry index: all five slots are empty afterwards and the normal index is what it was; without one nothing happens |
| Sessions.RunKeepsCurrent | miya_db/strage_manager/MMyISAM/MMyISAM.cpp:42-264 | After every run of engine actions each open session stands on the normal entries as they are now, and shows them sorted with its own additions |
| Sessions.OpenSession | miya_db/strage_manager/MMyISAM/MMyISAM.cpp:172-264 | After every run an open session was opened by one action of it; since then there was no abort, no commit of an open session and no change of the normal entries, and its log is exactly what was added in its slot, whatever other sessions did |
| Sessions.CommitInstalls | miya_db/strage_manager/MMyISAM/MMyISAM.cpp:216-253 | After every run a successful commit turns the normal entries, as a map, into those plus exactly the additions made in that slot since it was opened |
| Sessions.AbortCloses | miya_db/strage_manager/MMyISAM/MMyISAM.cpp:256-264 | After every run that ends in an abort all five slots are empty and the normal entries are what they were |
| Sessions.AbortedIsLost | miya_db/strage_manager/MMyISAM/MMyISAM.cpp:216-264 | In every run a commit installs only what was added in a session opened behind the last abort: nothing added before an abort is ever installed |
| TxCBTrie.FindExactly | chain/transaction_pool/txcb_table.cpp:78-110 | find succeeds exactly on the IDs held, and returns a block with that ID |
| TxCBTrie.AddProper | chain/transaction_pool/txcb_table.cpp:45-76 | An addition keeps every ID in its place; it is refused exactly when the ID is held, and otherwise adds exactly that block |
| TxCBTrie.SpreadProper | chain/transaction_pool/txcb_bucket.cpp:152-177 | Scaling up keeps every block |
| TxCBTrie.ScaleDepth | chain/transaction_pool/txcb_bucket.cpp:66-67 | Blocks that meet in one bucket have a nibble left to tell them apart: no bucket of layer 39 scales |
| TxCBTrie.RunIsSet | chain/transaction_pool/txcb_table.cpp:45-76 | After any additions the table holds exactly the IDs added, and each addition was refused exactly when its ID had come before |
| TxCBTrie.RunFinds | chain/transaction_pool/txcb_table.cpp:78-110 | After any additions find succeeds exactly on the IDs added |
| TxCBTables.TxCBPool.FindInBucket | chain/transaction_pool/txcb_bucket.cpp:129-149 | The walk backwards along the ring finds exactly what the bucket holds |
| TxCBTables.TxCBPool.Append | chain/transaction_pool/txcb_bucket.cpp:27-64 | The ring stays a proper circular list with the block at its end |
| TxCBTables.TxCBPool.Add | chain/transaction_pool/txcb_table.cpp:45-76 | The linked table holds what the abstract addition gives, links of other blocks untouched |
| TxCBTables.TxCBPool.AutoScaleUp | chain/transaction_pool/txcb_bucket.cpp:152-177 | Terminates, and the linked new table holds every block of the ring |
| TxCBTables.TxCBPool.Find | chain/transaction_pool/txcb_table.cpp:78-110 | The walk over linked containers is the abstract find |
| StreamBuffers.StreamBuffer.Enqueue | share/stream_buffer/stream_buffer.cpp:195-222 | When the wait for room is over: at the back, within capacity |
| StreamBuffers.StreamBuffer.Dequeue | share/stream_buffer/stream_buffer.cpp:225-253 | When the wait for a segment is over: from the front |
| Protocol.StepKeeps | share/miya_db_client/miya_db_sb_client.cpp:270-287 | Every step of every client or of the server keeps: no query or answer lost or doubled, queues within capacity, answers those of the serial execution |
| Protocol.RunKeeps | miya_db/miya_db/database_manager.cpp:82-237 | So does every interleaving of steps |
| Protocol.ResultsAreSerial | share/miya_db_client/miya_db_sb_client.cpp:112-131 | Whatever a client returned is the answer to its own query, the one that executing all queries in the order of their arrival gives; each is returned once |
| Protocol.UnderWay | share/miya_db_client/miya_db_sb_client.cpp:270-287 | What is queued, in work or in a client's hands is exactly as much as clients wait for |
| Protocol.NoDeadlock | share/stream_buffer/stream_buffer.cpp:195-253 | While some client is in a call, some step other than a new query is possible |
| Protocol.EveryReachableState | share/miya_db_client/miya_db_sb_client.cpp:112-131 | From empty buffers, for any number of clients and every interleaving: buffers within capacity, each returned answer the serial one to a query of that client and returned once, no deadlock |
| Returns.PopEnds | share/miya_db_client/miya_db_sb_client.cpp:270-287 | A pop ends a client's call if and only if the answer is its own, and then the answer is given to it; a foreign one it holds |
| Returns.RunFollows | share/miya_db_client/miya_db_sb_client.cpp:270-287 | In every run without new queries a client stays in its call until it has been given its own answer |
| Returns.CallReturns | share/miya_db_client/miya_db_sb_client.cpp:112-131 | However full the buffers and whoever holds what: there is a run without new queries by which a given client gets its own answer and is out of its call |
| Returns.EveryCallCanReturn | share/miya_db_client/miya_db_sb_client.cpp:112-131 | From every reachable state each client in a call can get the serial answer to its own query, without any new query |
| Scripts.RoundTrip | chain/transaction/script/script.cpp:176-237 | A script is read back from its bytes if and only if no push is as long as an operation code says |
| Scripts.PkScriptBytes | chain/transaction/script/script.h:28-58 | The locking script is the bytes 76 a9 14, the hash, 88 ac |
| Scripts.SignatureScriptBytes | chain/transaction/script/script.cpp:176-237 | The unlocking script is signature and key, each behind its length |
| Scripts.ScriptObject.ExportRaw | chain/transaction/script/script.cpp:176-204 | The loop over items prints the script |
| Scripts.ScriptObject.ImportRaw | chain/transaction/script/script.cpp:210-237 | Appends the items the bytes spell; fails exactly when the last push is cut short |
| Scripts.AcceptsExactly | chain/transaction/script/script_validator.cpp:39-89 | A key-hash spending is accepted if and only if the key has the locked hash and the signature verifies, and the machine never gets stuck on it |
| Scripts.ScriptValidator.VerifyP2PKHScript | chain/transaction/script/script_validator.cpp:39-89 | The loop runs unlocking then locking script to the end or to the first operation that fails |
| Transactions.TxReads | chain/transaction/p2pkh/p2pkh.cpp:268-352 | A signed transaction, printed and followed by anything, is read back from exactly the bytes printed: public keys, signatures, outputs |
| Transactions.InReads | chain/transaction/tx/tx_in.cpp:164-200 | The same for one input |
| Transactions.OutReads | chain/transaction/tx/tx_out.cpp:76-91 | The same for one output |
| Transactions.FramedParts | chain/transaction/tx/tx_in.cpp:83-146 | Where origin, script length, script and sequence of an input lie |
| Transactions.OutLayout | chain/transaction/tx/tx_out.cpp:25-59 | The forty-one bytes of an output, the locking script spelled out |
| Transactions.BodyParts | chain/transaction/p2pkh/p2pkh.cpp:213-265 | Where version, count of inputs, inputs, count of outputs and outputs lie |
| P2PKHs.P2PKH.TxHashOnTxIn | chain/transaction/p2pkh/p2pkh.cpp:354-412 | The bytes hashed for an input; its script is cleared on the way |
| P2PKHs.P2PKH.BytesToSign | chain/transaction/p2pkh/p2pkh.cpp:90-138 | The loop inside of signing prints the very bytes that hashing prints later |
| P2PKHs.P2PKH.Sign | chain/transaction/p2pkh/p2pkh.cpp:77-172 | Every input is signed over the transaction as it was before any signature |
| P2PKHs.P2PKH.ExportRaw | chain/transaction/p2pkh/p2pkh.cpp:213-266 | Prints nothing as long as an input is not signed; otherwise every unlocking script is made anew on the way |
| P2PKHs.P2PKH.ImportRawSequentially | chain/transaction/p2pkh/p2pkh.cpp:268-352 | Reads what the parser reads and returns the bytes it took |
| P2PKHs.P2PKH.Validate | chain/transaction/p2pkh/p2pkh.cpp:202-205 | The spending of one output by one input, judged on the bytes hashed for it |
| P2PKHs.P2PKH.Verify | chain/transaction/p2pkh/p2pkh.cpp:174-210 | True if and only if there are inputs, each spends an output that is there, no script is empty and the machine comes to a verdict on each: the verdicts themselves do not enter; the scripts are cleared on the way |
| P2PKHs.TxHashAlike | chain/transaction/p2pkh/p2pkh.cpp:354-412 | Signatures, scripts, private halves and the keys of other inputs do not enter what is signed |
| P2PKHs.TxHashTells | chain/transaction/p2pkh/p2pkh.cpp:354-412 | The bytes hashed at an input are the same for two transactions if and only if version, outputs, the origin and sequence of every input and the key hash at that input are the same |
| P2PKHs.SignedHash | chain/transaction/p2pkh/p2pkh.cpp:77-172 | Signing does not change what is signed |
| P2PKHs.ReadHash | chain/transaction/p2pkh/p2pkh.cpp:354-412 | The bytes hashed at an input are the same before printing and after reading |
| P2PKHs.SignedTxIsAccepted | chain/transaction/p2pkh/p2pkh.cpp:77-412 | A transaction signed (with the keys its scripts have, if they have any), printed and read: the script machine accepts each input for exactly those locked outputs whose hash is that of the input's key |
| Coinbases.MintTells | chain/transaction/coinbase/coinbase_tx_in.cpp:18-66 | The height is told back as a signed number, so equal below 2^31 only; the text is there if and only if it has 4 to 104 bytes |
| Coinbases.MintIsPrintable | chain/transaction/coinbase/coinbase_tx_in.cpp:18-44 | No height and no text can spoil the printed form |
| Coinbases.CoinbaseReads | chain/transaction/coinbase/coinbase.cpp:24-95 | A printed coinbase, followed by anything, is read back from exactly its bytes |
| Coinbases.CoinbaseTx.FromHeight | chain/transaction/coinbase/coinbase_tx_in.cpp:18-44 | The unsigned length test keeps exactly texts of 4 to 104 bytes |
| Coinbases.CoinbaseTx.ExportRaw | chain/transaction/coinbase/coinbase.cpp:24-57 | Printing locks the output to the kept hash |
| Coinbases.CoinbaseTx.ImportRawSequentially | chain/transaction/coinbase/coinbase.cpp:80-95 | What the parser reads, put behind the scripts held before, and the bytes it took |
| Coinbases.IntoNew | chain/transaction/coinbase/coinbase.cpp:80-95 | Into a new object goes just what was printed |
| BlockFiles.BodyReads | chain/miya_coin/block_container.cpp:43-115 | Header, coinbase and every transaction are read back from exactly the bytes printed |
| BlockFiles.RecordStays | chain/miya_coin/local_file_controller.cpp:54-73 | Whatever records follow, each record that fitted is found where it was put |
| BlockFiles.ContainerReads | chain/miya_coin/local_file_controller.cpp:103-124 | A block record anywhere in a file is read back as its block |
| BlockFiles.MetaParts | chain/miya_coin/block_container.cpp:95-112 | A record begins with four magic bytes, its size and its transaction count, four bytes each |
| BlockFiles.EveryBlockReads | chain/miya_coin/local_file_controller.cpp:54-124 | In any sequence of appended records every block that fitted is read back at the offset it was given |
| BlockFiles.LocalFileController.constructor | chain/miya_coin/local_file_controller.cpp:13-41 | A file below a hundred bytes is formatted, any other kept |
| BlockFiles.LocalFileController.Write | chain/miya_coin/local_file_controller.cpp:54-73 | Through a page-aligned mapping exactly the record is appended and the end moved; -1 and nothing else when it does not fit |
| BlockFiles.LocalFileController.Read | chain/miya_coin/local_file_controller.cpp:76-91 | Through a page-aligned mapping exactly the bytes at the offset |
| BlockFiles.LocalFileController.WriteContainer | chain/miya_coin/local_file_controller.cpp:94-100 | A block record is appended, at the offset returned |
| BlockFiles.LocalFileController.ReadContainer | chain/miya_coin/local_file_controller.cpp:103-124 | Meta first, then as many bytes as it says |
| BlockFiles.ExportRawFormated | chain/miya_coin/block_container.cpp:68-115 | Meta, header, coinbase and transactions in this order |
| BlockFiles.ImportBlockSequentially | chain/miya_coin/block_container.cpp:43-65 | Header, coinbase and so many transactions, one behind the other |
| Mining.HeaderReads | chain/block/block_header.cpp:41-63 | A printed header, followed by anything, is read back from its 80 bytes |
| Mining.HeaderLayout | chain/block/block_header.h:60-66 | Version, predecessor, Merkle root, time, target and nonce at bytes 0, 4, 36, 68, 72 and 76 of eighty |
| Mining.GeneratenBitMask | chain/mining/simple_mining.cpp:9-30 | For exponents 3 to 32, and only those, the mask spells coefficient times 256^(exponent-3) |
| Mining.Mbitcmp | chain/mining/simple_mining.cpp:107-117 | True exactly when the hash, as a big-endian number, is at most the mask |
| Mining.BlockHeader.Verify | chain/block/block_header.cpp:169-202 | True exactly when the hash of the header is within the target of its nBits |
| Mining.SimpleMining | chain/mining/simple_mining.cpp:33-76 | The least nonce whose header is within the target; none exactly when no nonce is |
| Mining.MineAndVerify | chain/mining/simple_mining.cpp:33-103 | A mined nonce put into the header makes it verify, whenever any nonce does |
| HeaderChain.BlockHeaderPool.Push | chain/chain_sync_manager/block_header_pool.cpp:9-26 | Both indices keep agreeing; headers without predecessor are refused; the count of headers behind that predecessor |
| HeaderChain.PathIsUnique | chain/chain_sync_manager/virtual_header_subchain.cpp:93-140 | From a header there is one forced path to the stop hash or to where there is no way or more than one |
| HeaderChain.VirtualHeaderSubChain.Extend | chain/chain_sync_manager/virtual_header_subchain.cpp:93-140 | On an acyclic pool it terminates, and it expires exactly when the clock, read in front of a move, finds seven seconds gone since the move before. Unless it expires, it comes to the end of the forced path when stopping at forks, to the end of some path when choosing; true exactly when not expired and at the stop hash |
| HeaderChain.VirtualHeaderSubChain.ExportChainVector | chain/chain_sync_manager/virtual_header_subchain.cpp:208-226 | Walks known predecessors back as far as the pool goes |
| HeaderChain.WalkIsPathBackwards | chain/chain_sync_manager/virtual_header_subchain.cpp:208-226 | That walk is the path extended along, backwards, down to the start if the pool has it |
| HeaderChain.WaysArePushes | chain/chain_sync_manager/block_header_pool.cpp:9-50 | After any pushes there are as many ways on through a hash as pushes were made behind it: a chain goes on if and only if there was exactly one, and a header pushed twice counts twice |

## Left out

- IndexTree.OBtree.Add: does not cover adding a key that is already present. The source stores it twice, or, where the node must be split, hands `std::sort` a comparison that is no order.
- SafeIndexTree.SafeOBtree.Add: the same, for a key that the session shows already.
- StorageEngine.MMyISAM.Add: the same, in normal mode and in a session.
- IndexTree.OBtree.RemoveAtLeaf: only at the leaf that holds the key. The replacement in inner nodes, which always descends into child 0, and the descent that leads to the removal are not modelled. Where the source gets stuck on a null child, the writes it made before are left out.
- IndexTree.OBtree.RecursiveMerge: a parent that has no key when it is called, which no well-formed tree has.
- IndexTree.NodeFile: nodes of the index are records at addresses rather than bytes; `PackedNode` shows separately that the packed bytes hold such a record and that the writes of additions, splits and removals keep to it. Addresses come from the grid of `NodesOnGrid`, without its bound at 2^24.
- PackedNode.ONodeItemSet.MoveInsertKey: only for a node with room; in a full one the first write goes past the slots, as `FourthKey`, `FifthKid` and `FourthData` show.
- PackedNode.ONodeItemSet.MoveInsertKid: the same for children.
- PackedNode.ONodeItemSet.MoveInsertData: the same for data pointers.
- KeySort.View: `std::sort` on four keys is modelled by the exchange sort; on distinct keys the order is the same.
- SafeIndexTree.SafeOBtree.Find: a key that is not found makes the safe index manager read through a null pointer; here it is simply not found. Removal within a safe session is not modelled; sessions here consist of additions.
- StorageEngine.MMyISAM.MigrateToSafeMode: takes the session as its constructor leaves it on a fresh file (`OpenSafeFile`); on a file that was used before, blocks in use are overwritten (`Reopen`). The source clears the safe file once more, after which the first new node would lie at the null address (`ClearAgain`); it also returns no value.
- StorageEngine.MMyISAM.SafeCommitExit: the moving of values and meta data to the normal files is not modelled.
- StorageEngine.MMyISAM.Remove: takes the leaf the descent came to as an argument, and a removable case: in all others the index is no tree without the key (`RemoveAtLeaf`). `exists`, whose result is unset, `get`'s reading of values and the value store, with the copying of values at commit, are not modelled.
- Allocator.OverlayMemoryAllocator.Allocate: rings as the source can handle them: at most one unused block, and not the head of three or more free blocks. Addresses whose first byte is not zero, where the source's sums overflow, are weighed without it. That the range given was free needs the computed size of the block to be right (`TakenWasFree`, `FreeBlockSizeExact`). Control blocks are records rather than twenty packed bytes.
- Allocator.OverlayMemoryAllocator.FindFreeBlock: some block fits; without one the source goes round the ring forever.
- Allocator.OverlayMemoryAllocator.UseUnUsedControlBlockHead: not for the head of a ring of three or more, which the source takes out wrongly (`HeadIsUsed`, `HeadLeaves`).
- Allocator.OverlayMemoryAllocator.ToUnUsedControlBlock: not for the head of a ring of three or more.
- Allocator.OverlayMemoryAllocator.Deallocate: not for the latest of three or more allocations, where the source loses blocks (`HeadLeaves`). The index never deallocates.
- TxCBTables.TxCBPool: removal from buckets, which drops a whole ring for its head, is not modelled; blocks are names with fixed IDs.
- Returns.CallReturns: that a call can return, whatever happened; that it does return would need the steps to be scheduled fairly, which the source leaves to its threads.
- Protocol.StepKeeps: calls without timeout and distinct query IDs; BSON coding, the dispatch on query types and server-side errors are one function that executes a query.
- StreamBuffers.StreamBuffer.Enqueue: the moment when the wait is over; waiting itself is a step that is not enabled (`Protocol.Enabled`).
- StreamBuffers.StreamBuffer.Dequeue: the same for a segment to be there.
- P2PKHs.SignedTxIsAccepted: needs signature and key lengths that fit a byte and are no operation code, and assumes key coding, hashing and signing to be correct; the private half of a key is not in what is read back. An input whose script already has a key other than the one it is signed with is not covered: whether that verifies is for the signature scheme to say.
- Transactions.TxReads: inputs, outputs and their scripts are values, so objects that are printed or read twice are not covered; reading past the end of a buffer is a failure here and undefined in the source.
- BlockFiles.LocalFileController.Read: bytes past the end of the file are a failure here; the mapping of the source gives zeros or a fault. Undo records and several files are not modelled.
- Mining.SimpleMining: where no nonce fits, the source searches forever; here it returns none. Timestamps, printing and the Merkle root, which hashes an element with itself, are not modelled.
- HeaderChain.VirtualHeaderSubChain.Extend: acyclicity of the pool is assumed, else the source may never stop; so it does at a fork under an action other than 0 and 1. The readings of the clock are a parameter.
- HeaderChain.VirtualHeaderSubChain.ExportChainVector: acyclicity of the pool is assumed. Looking up the missing predecessor of a first header uses an unset key in the source and ends the walk here.
- The page cache and memory mapping below overlay pointers, `msync`, file descriptors, logging and printing.
- Peer-to-peer networking, brokers, observers, the initial block download, mempool totals and the older transaction table manager.
