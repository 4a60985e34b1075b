# relly, modelled and proved in Dafny

relly is a small disk-based storage engine: variable-length records in slotted pages, B+trees of
key/value pairs on top of them, a write-back buffer pool below them, an order-preserving encoding of
tuples as keys, and tables with unique indexes and scans. This project models each layer in the form
the code has and proves it against a simpler specification; each layer's contract is what the next
one is built on.

| file | models | specification |
|---|---|---|
| `Bytes.dfy` | the order of byte strings | strict total order |
| `BinarySearch.dfy` | `src/bsearch.rs` | any comparison that is Less, Equal, Greater by index |
| `SlottedLayout.dfy`, `Slotted.dfy` | `src/slotted.rs`, on an array of bytes | a sequence of byte strings |
| `PairCodec.dfy`, `PageFormat.dfy` | pairs, page ids and pages as bytes | what each byte is, and round trips |
| `NodeSpec.dfy`, `NodeBody.dfy`, `Nodes.dfy` | `src/btree/leaf.rs`, `src/btree/branch.rs` | sorted lists of pairs, cut at the split point |
| `BufferPool.dfy` | `src/buffer.rs`, `src/disk.rs` | plain memory, a map from page ids to pages |
| `PageStore.dfy` | the pages of trees in the buffer pool | a map from page ids to nodes, and which buffers are held |
| `Tree.dfy`, `TreeEdit.dfy`, `InsertSteps.dfy` | what a valid tree is and what keeps it one | a ghost tree over the pages |
| `Insertion.dfy`, `Iteration.dfy`, `BTree.dfy` | `src/btree.rs` | a finite map from keys to values, and sorted ranges of it |
| `Limits.dfy` | the size bounds for 4096-byte pages | when a key can become a separator |
| `Memcmpable.dfy`, `TupleCodec.dfy` | `src/memcmpable.rs`, `src/tuple.rs` | an invertible order embedding |
| `Rows.dfy`, `TableMaps.dfy`, `Table.dfy` | `src/table.rs` | rows, indexes that agree with them, and a run over maps |
| `Ranges.dfy`, `Query.dfy` | `src/query.rs` | ranges of rows in key order |

`dafny verify dfyconfig.toml` checks the whole project.

The trees run over the buffer pool: `PageStore.Store` fetches, creates, writes and lets go of pages
through `BufferPools.BufferPoolManager`, reads nodes from their 4096 bytes, and keeps count of who
holds which buffer; everything above is proved over it. Slotted pages, nodes and splits are proved
for any body of up to 65535 bytes, as the 16-bit offsets of the code allow.

Where the code panics, the model has a precondition when the code demands something of its caller (a
pair over `max_pair_size`, an index out of range), an `Option` when the input comes from elsewhere
(bytes that do not decode), and no path at all when the proof is that it cannot happen (`expect`,
`unwrap` and `assert!` inside the tree and the scans).

## What the proofs turned up

- `Slotted::resize` can damage a neighbouring record: when an *empty* slot grows and has the same
  offset as a record with data, the `<=` at `src/slotted.rs:280` moves that record's pointer although
  its data stays. The page is a valid layout afterwards exactly when there is no such clash
  (`SlottedPage.ResizeImageRefines`), and resizing a non-empty record never clashes
  (`SlottedPage.NonEmptySlotsNeverClash`); three operations on a fresh page get there
  (`SlottedPage.GrowEmptySlot`). The tree only resizes a slot to zero, right before removing it.
- `memcmpable::encoded_size` counts one 9-byte block too many for every positive multiple of 8; it is
  never too small (`Memcmpable.EncodedLength`).
- The assertion in the leaf lets through pairs whose key does not fit a branch: with 4096-byte pages
  that is every key longer than 2020 bytes whose pair fits. When a split hands such a key up, the
  assertion in the branch fails. The tree's results therefore ask for both bounds, and
  `Limits.LongKeyIsPromoted` shows the second one cannot be dropped.
- `fetch_page` of a page that is neither cached nor on disk leaves the frame with an id the page table
  does not know; that is the one case in which the pool is not valid afterwards, and page 0 of an
  empty file is one (`BufferPools.FetchMissingPage`).
- `next` fails exactly when the step is to the next leaf, that leaf is not cached and every frame is
  pinned (`Iteration.Iter.Next`). An iterator it happened to must not be asked again: a caller who lets
  go of another buffer and tries again has lost the pair the failed call had read, and is told of an end
  although there are pairs to come (`Iteration.Iter.NextAfterFailure`). With two buffers, one of them
  held elsewhere, that happens in every tree of two leaves or more (`BTrees.BTree.ReadWithTwoBuffers`).
- The sweep over the frames takes the least used one, as its documentation says, although it looks at
  one frame at a time: the smallest count of all frames not pinned, and the first in the direction of
  the hand where several have it (`BufferPools.BufferPool.Evict`).
- An insertion into a tree is all or nothing, although it writes as it goes and undoes nothing: while
  page ids last, one that fails has changed no page. The split of a leaf needs the most buffers, and
  whatever splits lets go of a page nobody else holds before its parent needs one
  (`BTrees.BTree.Insert`). An insertion into a table is not: one that fails in the tree of an index
  leaves the row stored, and that index without it (`Tables.Table.Insert`).
- `Table::insert` does not take a stored row back when an index refuses its entry. Entries stay sound
  in every case. The indexes know every row after a run exactly when no two of the rows that are then
  there agree in the columns of an index (`Tables.Table.InsertRecords`); which rows those are does not
  depend on the indexes (`TableMaps.AddedRows`). The rows (1, 7) and (2, 7) with an index on the
  second column are the smallest case (`TableMaps.RefusedExample`).
- An insertion into a tree of height `h` never needs more than `h + 4` buffers at a time, a search
  never more than two, and a plan never more than three. A tree of height `h` has at least `2^h`
  pairs, so a pool with `k + 3` buffers to spare takes every insertion up to some `2^k` pairs
  (`BTrees.BTree.InsertAll`).

## Model

| member | source | states |
|---|---|---|
| `BinarySearch.BinarySearchBy` | src/bsearch.rs:34-67 | for any comparison the search ends inside the range and is right about the probes beside its answer; for a sorted one `Ok` is an equal index and `Err` is the unique insertion point, all below Less and all from it Greater |
| `Memcmpable.Encode` | src/memcmpable.rs:37-60 | the block loop appends exactly the element's encoding to what was there |
| `Memcmpable.EncodedBytes` | src/memcmpable.rs:37-60 | every byte of an encoding: eight bytes of the element, or zeros past its end, and a 9 when another block follows, otherwise how many of the eight are data |
| `Memcmpable.Decode` | src/memcmpable.rs:70-91 | the block loop reads one element, leaves exactly the rest, and fails exactly on input that is cut short |
| `Memcmpable.DecodedBytes` | src/memcmpable.rs:70-91 | of any bytes: the element is the data of the blocks up to the first whose ninth byte is below 9, as much of that one as it says, and the rest is what is behind it |
| `Memcmpable.DecodePanics` | src/memcmpable.rs:70-91 | without such a block decoding runs past the end |
| `Memcmpable.DecodeEncode` | src/memcmpable.rs:37-91 | decoding an encoded element with anything behind it gives the element back and stops right behind it |
| `Memcmpable.EncodedLength` | src/memcmpable.rs:20-22 | `encoded_size` is never too small, and is exact if and only if the element is empty or not a multiple of 8 long; otherwise it is 9 too many |
| `Memcmpable.EncodeKeepsOrder` | src/memcmpable.rs:37-60 | a smaller element encodes smaller whatever follows either encoding: order and prefix-freedom at once |
| `TupleCodec.Encode` | src/tuple.rs:28-37 | the loop appends the encoding of the element list |
| `TupleCodec.Decode` | src/tuple.rs:53-62 | the loop pushes all the elements, and fails exactly on bytes that are not whole elements |
| `TupleCodec.DecodeEncode` | src/tuple.rs:28-62 | decoding inverts encoding for every list of elements |
| `TupleCodec.EncodeInjective` | src/tuple.rs:28-37 | different tuples have different encodings |
| `TupleCodec.EncodeAppend` | src/tuple.rs:28-37 | encodings one behind the other are the encoding of the concatenation |
| `TupleCodec.ElementInPlace` | src/tuple.rs:28-37 | each element is encoded by itself, between what is before it and what is behind it |
| `TupleCodec.TupleLtTotal` | src/tuple.rs:28-37 | any two tuples are equal or ordered one way |
| `TupleCodec.OrderEmbedding` | src/tuple.rs:28-37 | encoded tuples compare as bytes if and only if the tuples compare element by element, empty elements, zero bytes, multiples of 8 and prefixes included |
| `TupleCodec.PrefixEncodesAsPrefix` | src/query.rs:40-50 | the encoding of the first elements of a key is a prefix of, and not above, the encoding of the key |
| `SlottedLayout.InsertKeepsLayout` | src/slotted.rs:192-217 | a new pointer at the edge of the free space keeps extents apart and the space balance |
| `SlottedLayout.ResizeKeepsLayout` | src/slotted.rs:249-292 | moving the offsets up to the pivot keeps a layout if and only if no empty slot clashes |
| `SlottedLayout.RemoveKeepsLayout` | src/slotted.rs:226-235 | taking an empty extent's pointer out keeps the layout |
| `SlottedLayout.CoveredSize` | src/slotted.rs:119-129 | extents that are apart cover as many bytes as their lengths add up to |
| `SlottedLayout.Tiling` | src/slotted.rs:119-129 | in every valid page each byte from the free space offset to the end belongs to a record: no fragmentation |
| `SlottedPage.SpaceConserved` | src/slotted.rs:119-159 | free space, record bytes and four bytes a record always add up to the capacity |
| `SlottedPage.RecordBytes` | src/slotted.rs:36-53 | where each record is, read off the four bytes of its pointer |
| `SlottedPage.InsertImageRefines` | src/slotted.rs:192-217 | shifting the pointer bytes and writing one is sequence insertion; every other record's bytes survive |
| `SlottedPage.WriteImageRefines` | src/slotted.rs:326-328 | writing into one slot changes that record and no other |
| `SlottedPage.ResizeImageRefines` | src/slotted.rs:249-292 | after the memmove and the offset loop the page is valid if and only if no empty slot clashes, and then every other record is the same and the resized one keeps its tail |
| `SlottedPage.RemoveImageRefines` | src/slotted.rs:226-235 | shifting the pointers over an emptied slot is sequence deletion |
| `SlottedPage.GrowEmptySlot` | src/slotted.rs:192-292 | two insertions and one resize on a fresh page, none of them refused, that leave a page that is not valid |
| `SlottedPage.Slotted.Initialize` | src/slotted.rs:156-159 | an initialised page holds no records |
| `SlottedPage.Slotted.Insert` | src/slotted.rs:192-217 | refuses if and only if pointer and record exceed the free space, and then changes nothing; otherwise a record of that length is inserted at the index |
| `SlottedPage.Slotted.Write` | src/slotted.rs:326-328 | the slot's record becomes the data, the others stay |
| `SlottedPage.Slotted.Resize` | src/slotted.rs:249-292 | refuses if and only if the growth exceeds the free space; the page stays valid if and only if nothing clashes, and then only the one record changes, keeping its tail |
| `SlottedPage.Slotted.ShiftPointers` | src/slotted.rs:279-284 | the loop moves exactly the offsets up to the pivot, in 16-bit arithmetic, and leaves the data bytes |
| `SlottedPage.Slotted.Remove` | src/slotted.rs:226-235 | deletes one record from the sequence, and never fails |
| `PairCodec.PairRoundTrip` | src/btree.rs:18-32 | a pair is read back from its bytes, so the encoding is injective |
| `PairCodec.PairBytes` | src/btree.rs:18-27 | the bytes of a pair are the length of the key, the key, the length of the value and the value |
| `PairCodec.VarintBytes` | src/btree.rs:24-27 | every byte of a length: one byte below 251, otherwise 251, 252 or 253 and two, four or eight bytes, least significant first |
| `PairCodec.PageIdRoundTrip` | src/disk.rs:61-73 | a page id is read back from its eight bytes |
| `PageFormat.NodeRoundTrip` | src/btree/node.rs:15-107 | a leaf or branch is read back from its 4096 bytes: type, links, slotted header and body |
| `PageFormat.NodeBytes` | src/btree/node.rs:12-26 | every byte of the headers of a leaf and a branch: the type in letters, the links or the right-most child, number of slots and free space offset, and where the body begins |
| `PageFormat.MetaBytes` | src/btree/meta.rs:17-21 | every byte of a meta page and of a new page |
| `PageFormat.BlankBody` | src/btree.rs:72-76 | the zeros of a new page, read as a leaf or a branch, are the body that is then initialised |
| `PageFormat.MetaRoundTrip` | src/btree/meta.rs:17-51 | the root page id is read back from the meta page |
| `NodeSpec.FitsIsMaxPairSize` | src/btree/leaf.rs:58-60 | a pair is within `max_pair_size` if and only if, pointer included, it takes at most half a page |
| `NodeSpec.SortedInsertAscending` | src/btree/leaf.rs:79-86 | inserting a new key at its search position keeps keys strictly increasing |
| `NodeSpec.SplitFits` | src/btree/leaf.rs:92-121 | when the pairs exceed a page and none exceeds half of it, the split point leaves both halves non-empty and within a page |
| `NodeSpec.SplitLeavesPairBehind` | src/btree/leaf.rs:98-107 | a new node that got more than half full without the new pair leaves room for it in the old one |
| `NodeSpec.SplitTakesPairAlong` | src/btree/leaf.rs:108-119 | when the new pair goes to the new node, the loops end at the split point of all pairs |
| `NodeBody.SearchSlotId` | src/btree/leaf.rs:42-46 | finds the key's slot, or the number of smaller keys when the key is not there |
| `NodeBody.Insert` | src/btree/leaf.rs:78-86 | succeeds if and only if the pairs and the new one fit the page; inserts at the slot or changes nothing |
| `NodeBody.Transfer` | src/btree/leaf.rs:123-128 | the first pair of one page moves behind the last of the other; the assertion in it holds |
| `NodeBody.SplitInsert` | src/btree/leaf.rs:92-121 | after a failed insert no `expect` or `pair_at(0)` fails, and the pages end up with the pairs in order, cut at the split point |
| `Nodes.Leaf.SplitInsert` | src/btree/leaf.rs:92-121 | new leaf and old leaf hold the sorted insertion of the pair, both non-empty and within the page, and the key returned is the first of the old leaf, which is the one `Promoted` names |
| `Nodes.SplitSizes` | src/btree/branch.rs:103-132 | both halves of a split are non-empty and fit; the lower one has at least two pairs |
| `Nodes.Branch.SearchChildIdx` | src/btree/branch.rs:44-49 | separators before the index are not above the key, those from it on are above it |
| `Nodes.Branch.Insert` | src/btree/branch.rs:87-97 | succeeds if and only if the entry fits, and inserts it at the slot |
| `Nodes.EntryBytes` | src/btree/branch.rs:87-97 | an entry's value is the child's page id in eight bytes |
| `Nodes.Branch.Initialize` | src/btree/branch.rs:69-74 | a new root has one separator between its two children |
| `Nodes.Branch.FillRightChild` | src/btree/branch.rs:76-84 | the last entry goes; its child becomes the right-most one and its key is returned |
| `Nodes.Branch.SplitInsert` | src/btree/branch.rs:103-132 | lower entries, promoted entry and upper entries are the sorted insertion; the promoted child becomes the new node's right-most one, the old right child stays, both nodes keep entries |
| `Tree.SoundContents` | src/btree.rs:135-214 | in a valid tree the pairs in leaf order are strictly sorted and within the bounds |
| `TreeEdit.SpliceSound` | src/btree.rs:181-206 | replacing a child by one or two keeps a valid forest; the overflow key lies strictly between its neighbours |
| `TreeEdit.CutSound` | src/btree/branch.rs:103-132 | cutting a node at a separator gives two valid nodes bounded by it |
| `TreeEdit.ChildSeparates` | src/btree/branch.rs:44-57 | every key left of the chosen child is smaller, every key right of it larger, than the key searched for |
| `TreeEdit.SortedInsertMiddle` | src/btree.rs:181-206 | inserting into the chosen child is inserting into the whole contents |
| `TreeEdit.ChainInsert` | src/btree.rs:149-179 | linking a new leaf in front of the split one keeps the chain in both directions, with or without a previous leaf |
| `InsertSteps.LeafGrown` | src/btree.rs:145-151 | a pair written into its leaf makes a valid tree with it, chain intact |
| `InsertSteps.LeafSplit` | src/btree.rs:152-179 | a split leaf makes two valid ones in chain order |
| `InsertSteps.ChildOverflowed` | src/btree.rs:181-206 | a child that split fits into its parent with a separator that is new there |
| `InsertSteps.TwoNodes` | src/btree.rs:192-206 | a branch that split makes two valid ones over the same leaves |
| `Insertion.InsertIntoLeaf` | src/btree.rs:143-179 | the leaf case: duplicate and nothing changed, inserted, or split with the new leaf in the chain |
| `Insertion.SplitLeafPage` | src/btree.rs:152-178 | the new leaf gets the lower half and the links of the place in front of the old one |
| `Insertion.AddEntry` | src/btree.rs:185-206 | the parent takes the overflow entry or splits itself; as a frame is free, only running out of page ids can fail it |
| `Insertion.InsertInternal` | src/btree.rs:135-214 | at every level: the subtree comes back as one or two valid trees with the pair inserted, or as it was for a duplicate; pages outside it change at most the link of the leaf before; its buffer is let go of, and after a split not every frame is pinned; fails only when `h + 3` buffers beside those held outside cannot be had or page ids have run out, and with page ids left no page has then changed |
| `Insertion.TakeOverflow` | src/btree.rs:181-206 | a branch whose child has split comes back as one or two valid trees |
| `Insertion.AfterChild` | src/btree.rs:181-214 | what a branch makes of any outcome of its child: with page ids left it only fails if its child did, and then no page has changed |
| `BTrees.BTree.Create` | src/btree.rs:69-79 | a new tree is valid and empty, in pages of its own, the first of which is the meta page, and no buffer is kept; fails only when two buffers cannot be had or page ids have run out |
| `BTrees.BTree.Insert` | src/btree.rs:216-236 | refused if and only if the key is there, and then no page changes; accepted when it is not, and then the tree is valid again and its contents are the sorted insertion; fails only when `h + 4` buffers cannot be had at a time, `h` being the height, or page ids have run out, and with page ids left no page has then changed; all buffers are let go of |
| `BTrees.BTree.GrowRoot` | src/btree.rs:224-234 | a new root over the two halves makes a valid tree one higher, which the meta page names |
| `BTrees.BTree.InsertAll` | src/btree.rs:216-236 | over any run of insertions the tree stays valid, is the map of the accepted pairs, and each pair is refused if and only if its key was there; a run that stops has done exactly that up to the pair it stops at, and with page ids left the tree is valid there too; it stops only when the height plus four buffers cannot be had or page ids have run out, so with page ids left only when there are, counting those the run has come to, 2 to the number of buffers to spare, less three, pairs |
| `BTrees.HeightBound` | src/btree.rs:135-214 | a valid tree of height `h` has at least `2^h` pairs, or is an empty leaf |
| `BTrees.BTree.Reopen` | src/buffer.rs:358-371 | after a flush, a pool opened on the file holds the same valid tree |
| `BTrees.AddIsInsert` | src/btree.rs:216-236 | sorted insertion of a new key is insertion into the map |
| `BTrees.LeafChain` | src/btree.rs:149-179 | in every valid tree, following `next` from the left-most leaf visits exactly the leaves in order, `prev` is its inverse, and only the first leaf has no `prev` and only the last no `next` |
| `Iteration.FromIsExact` | src/btree.rs:94-124 | the range from a key on is exactly the pairs with keys not below it, in order |
| `Iteration.SearchInternal` | src/btree.rs:94-124 | on a valid tree the iterator returned stands exactly in front of the range searched for; never more than two buffers are needed, and the iterator holds one |
| `Iteration.SearchLeaf` | src/btree.rs:101-115 | also where the slot is one past the end of the leaf and the iterator goes on to the next one |
| `Iteration.Iter.Get` | src/btree.rs:245-254 | the pair in the slot, or None past the last one |
| `Iteration.Iter.Advance` | src/btree.rs:256-271 | what remains is exactly what was behind the next slot, across the end of a leaf too; fails if and only if the next leaf is needed, is not cached and every frame is pinned, and then the slot is past the pairs of this leaf and others are still to come |
| `Iteration.Iter.Next` | src/btree.rs:274-281 | from any state the iterator can be in: the first pair of what remains, or None; None is the end if and only if no failed call had left the iterator behind its leaf; fails exactly when the step to the next leaf does |
| `Iteration.Iter.NextAfterFailure` | src/btree.rs:274-281 | letting go of another buffer after a failure and calling again: this call does not fail, but it says None although two pairs or more were to come, and the first of them is lost; the exact state in which that happens |
| `BTrees.BTree.Search` | src/btree.rs:126-133 | an iterator in front of all pairs, or of those from the key on; fails only when two buffers cannot be had |
| `BTrees.BTree.Scan` | src/btree.rs:126-281 | searching and reading until the first None yields exactly that range, strictly sorted |
| `BTrees.BTree.ReadWithTwoBuffers` | src/btree.rs:256-281 | in every tree of two leaves or more, reading with two buffers, one of them held elsewhere until a call has failed, gives the pairs of the first leaf but for its last one, and then None |
| `Limits.SeparatorBound` | src/btree/branch.rs:87-93 | a pair the leaf accepts has a key a branch accepts if and only if the key has at most 2020 bytes |
| `Limits.LongKeyIsPromoted` | src/btree/branch.rs:87-93 | every longer key the leaf accepts is promoted by some split, so the bound is needed |
| `BufferPools.DiskManager.WritePageData` | src/disk.rs:153-157 | one page of the file changes; every byte of the pages in a gap is zero |
| `BufferPools.BufferPool.Evict` | src/buffer.rs:131-168 | the sweep ends, returns None if and only if every frame is pinned, after one round that changes nothing, and otherwise the frame with the smallest usage count of those not pinned, the first the hand comes to among equals; the hand stays there, and every other count is lowered by as many times as the hand came past |
| `BufferPools.AllPinnedHeld` | src/buffer.rs:131-154 | when every frame is pinned there are at least as many holders as frames |
| `BufferPools.FrameReplaced` | src/buffer.rs:264-281 | giving a clean frame to another page keeps table and frames a bijection and changes memory at that page only |
| `BufferPools.BufferPoolManager.constructor` | src/buffer.rs:223-230 | a new manager's memory is the file |
| `BufferPools.BufferPoolManager.FetchPage` | src/buffer.rs:250-283 | returns the page of memory in a pinned buffer, used once more if it was cached and otherwise for the first time in the frame the sweep takes, leaves memory and all pinned buffers as they are whatever was evicted; fails for want of a buffer if and only if the page is not cached and all are pinned; the pool is valid afterwards if and only if there was no read error |
| `BufferPools.FetchMissingPage` | src/buffer.rs:272-281 | fetching page 0 of an empty file is a read error after which the pool is not valid |
| `BufferPools.BufferPoolManager.CreatePage` | src/buffer.rs:304-332 | memory gets exactly one new page, under an id not in use, in the frame the sweep takes; each of its bytes is zero and it has been used once |
| `BufferPools.BufferPoolManager.WritePage` | src/buffer.rs:44-55 | writing to a held buffer and marking it dirty changes memory at its page only |
| `BufferPools.BufferPoolManager.Flush` | src/buffer.rs:358-371 | memory stays, no page is dirty, and the file is the memory |
| `BufferPools.AllOnDisk` | src/buffer.rs:358-371 | with nothing dirty the disk is the memory |
| `BufferPools.FlushAndReopen` | src/disk.rs:97-104 | a manager opened on the flushed file has the same memory and the same next page id |
| `PageStore.Store.FetchNode` | src/buffer.rs:250-283 | a node fetched is the node last written, in a buffer that cannot be evicted while it is held; refused if and only if the page is not cached and every frame is pinned, which takes as many holders as frames |
| `PageStore.Store.FetchMeta` | src/btree.rs:85-92 | the same for a meta page |
| `PageStore.Store.CreatePage` | src/buffer.rs:304-332 | the pages get one blank page and are otherwise the same; refused if and only if every frame is pinned or page ids have run out |
| `PageStore.Store.WritePage` | src/btree.rs:146-178 | writing a node to its held buffer replaces that page and no other, and never fails |
| `PageStore.Store.Release` | src/buffer.rs:250-264 | letting go of a buffer changes no page and nobody else's hold; after the page's last hold is gone not every frame is pinned |
| `PageStore.HoldersKept` | src/buffer.rs:250-283 | whatever was evicted, the holders of buffers are those there were and the new one |
| `PageStore.Reopen` | src/disk.rs:97-104 | after a flush the pages can be taken up on the file alone, with nothing held |
| `Rows.RecordOfRow` | src/table.rs:133-150 | a record is read back from the row it is stored as |
| `Rows.ColumnsAre` | src/table.rs:213-217 | the columns all range and index statements are about: one for each number, and the one of the record with that number |
| `Rows.NewRowKeepsSound` | src/table.rs:133-150 | entries stay entries of rows when a row comes in, with or without its own entry |
| `Rows.NewRowKeepsComplete` | src/table.rs:133-150 | an index that knows every row still does when row and entry come in |
| `Rows.NewRowWithoutEntry` | src/table.rs:143-148 | an index that did not get a new row's entry does not know the row |
| `Rows.RowStoredKeeps` | src/table.rs:143-148 | a table is sound after every insertion that stored a row, and complete again if and only if no index refused |
| `Rows.OtherTreesKept` | src/table.rs:133-150 | an insertion into one of the trees leaves the other trees' pages alone |
| `Tables.Table.Create` | src/table.rs:109-119 | the table and its indexes are empty trees in pages of their own; the meta pages are every other page from the next page id on, the table's first and then those of the indexes in order |
| `Tables.Table.Insert` | src/table.rs:133-150 | where no page operation fails, accepted if and only if the primary key is new and so is the secondary key to every index; a known primary key changes nothing, any other record is stored and entered into the indexes in turn until one refuses; what the trees then hold is the step over maps; the indexes know every row afterwards if and only if the primary key was there or the record was accepted; where one fails, with page ids left, the table is valid; if it was in the table's own tree no page has changed, otherwise the row and its entries in the indexes before are there, and the indexes no longer know every row |
| `TableMaps.RowStoredAdds` | src/table.rs:133-150 | storing a row and its first entries, when the next index refuses or there is none, is the step over maps |
| `TableMaps.AddedRows` | src/table.rs:139-148 | over a run the rows are those whose primary key came first, whatever the indexes refused |
| `TableMaps.CompleteDistinguishes` | src/table.rs:143-148 | when every row has its entry, no two rows agree in the columns of an index |
| `TableMaps.RefusedAgrees` | src/table.rs:143-148 | a row an index has refused agrees in its columns with another row |
| `TableMaps.SecondIsRefused` | src/table.rs:143-148 | of two records with different primary keys that agree in the columns of an index, the second is stored although it is not accepted |
| `TableMaps.RefusedExample` | src/table.rs:143-148 | the rows (1, 7) and (2, 7): two rows, one entry |
| `Tables.Table.InsertEntry` | src/table.rs:204-222 | the index gets a pair whose key decodes to the columns the index is on, column by column, and its value to the primary key; or it refuses because it has the secondary key |
| `Tables.Table.InsertRecords` | src/table.rs:133-150 | over any run of insertions, the table and every index hold exactly what the run over maps comes to, each record is accepted if and only if its primary key and all its secondary keys are new there, and indexes that knew every row do so afterwards if and only if no two of the rows then there agree in the columns of an index; a run that stops has done exactly that up to the record it stops at, and with page ids left the table is valid there too, with the row of that record and some of its entries if it failed in an index; it stops only when some tree's height plus four buffers cannot be had or page ids have run out, so with page ids left only when some tree has, counting the records the run has come to, 2 to the number of buffers to spare, less three, pairs |
| `Ranges.EntryReached` | src/query.rs:40-50 | a search for an encoded search tuple reaches an entry if and only if the tuple the entry is keyed by is not before it in tuple order |
| `Queries.TableDecodes` | src/query.rs:120-134 | every row and every index entry decodes, so no scan panics on one |
| `Queries.ExecSeqScan.Next` | src/query.rs:120-134 | the record of the next pair; None at the end or when the key fails the condition, the pair being passed |
| `Queries.Executor.Next` | src/query.rs:115-217 | over any executor, filters on filters included: the next record, and what comes out is that record and what comes out of the pairs behind it |
| `Queries.Executor.NextThat` | src/query.rs:157-170 | the loop of a filter ends because what is to come of the scan gets shorter |
| `Queries.Plan.Start` | src/query.rs:104-189 | an executor in front of exactly the pairs to scan, holding one buffer |
| `Queries.Plan.Collect` | src/query.rs:85-217 | any plan over any table, read until the first None, yields exactly what it is to yield, and lets go of its buffers; three to spare are enough |
| `Ranges.SeqScanIsRange` | src/query.rs:104-134 | a scan of a table is exactly the rows not before the search tuple, in the tuple order of their primary keys, up to the first that fails the condition |
| `Ranges.SelectKeeps` | src/query.rs:157-170 | what a filter lets through is exactly what meets its condition, still in order |
| `Ranges.LookupFinds` | src/query.rs:209-212 | the lookup an entry leads to finds the entry's row first, so the `unwrap` never fails |
| `Queries.ExecIndexScan.Next` | src/query.rs:198-217 | the row of the next entry, after any run of insertions, refused ones included |
| `Ranges.FetchedWithin` | src/query.rs:198-217 | the rows of a scan over an index come in the order of its columns, not before the search tuple, and meet the condition |
| `Ranges.FetchedIsRange` | src/query.rs:198-217 | with an entry for every one of a set of rows, a scan over the entries yields exactly the rows of the range |
| `Ranges.IndexScanIsRange` | src/query.rs:198-217 | over any index, whatever it lacks: exactly the rows of the range among those that have an entry in it |
| `Ranges.IndexedIsAll` | src/query.rs:198-217 | those are all the rows if and only if the index knows every row |
| `Queries.SeqScanOfTable` | src/query.rs:104-134 | what a sequential scan is to yield over a table in any valid state |
| `Queries.IndexScanOfTable` | src/query.rs:179-217 | what an index scan is to yield over a table in any valid state, and over one whose indexes know every row |
| `Queries.FiltersKeep` | src/query.rs:142-170 | a plan of filters, however many, over any scan yields the records of the scan that meet all their conditions, in its order; each filter those of the plan below it that meet its own |
| `Queries.FiltersOverTable` | src/query.rs:104-170 | filters over a scan of a table: exactly the rows of the range that meet every condition, in key order |
| `Queries.FiltersOverIndex` | src/query.rs:142-217 | filters over a scan of an index: the same for the rows that have an entry, all of them if the index knows every row, in the order of its columns |
| `Queries.FiltersOverIndexOnly` | src/query.rs:142-256 | filters over a scan of an index alone: exactly what is left of those rows, cut down to the index's columns and the primary key, where that meets every condition |
| `Ranges.IndexOnlyRecord` | src/query.rs:242-256 | what a scan makes of an entry alone: the columns of the index and then the primary key of its row |
| `Ranges.IndexOnlyScanIs` | src/query.rs:242-256 | a scan of an index alone yields, row by row and in the same order, what the scan with lookups finds, cut down to the columns of the index and then the primary key |
| `Queries.IndexOnlyScanOfTable` | src/query.rs:242-256 | the same over a table in any valid state |

## Left out

- BTrees.BTree.Insert: `Failed` is only said to need too few buffers or no page ids left, not to follow from that: which pages are cached decides. What the tree is after page ids have run out half-way is not said (see `PageStore.Store.CreatePage`). Its preconditions are the assertion in the leaf and the one a split of a branch may run into.
- Iteration.Iter.Next: insertions between two calls of `next` are not modelled.
- Queries.ExecSeqScan.Next: also stands for `ExecIndexOnlyScan::next`, which takes the same steps over an index; conditions are pure functions of the tuple.
- Queries.Executor.Next: `Box<dyn Executor>` and `&dyn PlanNode` are the closed choice of the executors and plans there are; an executor is not asked again after None or a failure.
- BufferPools.DiskManager.WritePageData: file handles, seeking, `sync` and I/O errors other than reading past the end of the file are left out; the file is a whole number of pages.
- BufferPools.BufferPool.Evict: usage counts are unbounded, so the overflow of the 64-bit counter is not modelled; a pool of no frames, which the code cannot sweep, is excluded.
- PageStore.Store.CreatePage: running out of 64-bit page ids is a failure here; the code would hand out the id that means "no page".
- PageStore.Store.WritePage: nodes are read into a value and written back instead of being changed inside the borrowed buffer; that no page is borrowed twice at a time, which `RefCell` would panic on, is not part of the model.
- PageStore.Store.Release: `Rc` is a count of holders per frame; drops are written out.
- PairCodec.PairRoundTrip: bincode's variable-length encoding as far as it concerns two byte slices; integers in native byte order are taken to be little-endian.
- PageFormat.NodeRoundTrip: alignment and the `zerocopy` wrappers are left out.
- `SimpleTable` is `Table` without indexes. `Pretty` formatting and the example programs are not modelled.
