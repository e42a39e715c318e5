# MiniSQL storage engine: a Dafny model

MiniSQL is a small page-based database engine: a B+ tree index, a heap of slotted table pages, a buffer pool
with an LRU replacer over a flat file, a bitmap page allocator, a reader-writer latch, byte codecs for rows,
keys and metadata, and the evaluation of WHERE conditions. In each of these a compact structure that is
changed in place has to agree with something simple: a map, a set, a sequence, a store without a cache. This
project models the code and proves that agreement, for every state and every input; where the code does not
keep it, the project says exactly when it does.

`dafny verify dfyconfig.toml` checks everything.

## How it is organised

- **B+ tree.** `BTreePages` has the pages and the loops inside one page; `BTreeShape` the invariant, which gives every page a
  level and a key range, so that equal depth, key order, separators, parent pointers and the leaf chain
  become facts about one page and its neighbours. `BTreeInsert`, `BTreeSearch`, `BTreeRemove` and `BTreeBorrow` prove what
  each step does to a whole tree, `BTreeAstray` which borrows put an entry where no descent finds it, `BTreeFate` decides how a
  removal will end, and `BTree` is the class itself. `BTreeScan` has the iterator, the height bound and runs of
  insertions; `BTreeRunExample`, `BTreeExamples` and `RootRecordExample` runs and a tree that end in a failure; `IndexRoots` the
  page of root ids.
- **Tables.** `SlottedLayout` is the slot directory, `SlottedPage` the byte array with the moves that keep it compact, `TableHeap`
  the chain of pages, `TableScan` the iterator over it.
- **Disk and cache.** `Bitmap`, `DiskManager.dfy` (modules `DiskLayout` and `DiskStore`), `LruReplacer`, `LruRuns` (all runs of its calls), `PoolState` (the pool's
  steps as functions on values), `PoolRuns` (all runs of them) and `BufferPool` (the class). `StorageExamples` has short runs
  that fail.
- **Latch.** `RwLatch`, a state machine of any number of threads with spurious wakeups.
- **Bytes.** `RowCodec`, `IndexKeys`, `TreeIndex` (the index over rows), `MetaCodec.dfy` (modules `MetaCells` and `MetaCodec`).
- **Conditions.** `Where`, and `WhereHeap` for conditions over the rows of a heap.

## Where the code departs from its comments or from what one would expect

The model follows the code in all of these.

- `Remove` rewrites the leaf's separator before it looks whether the key is there
  (`minisql/src/index/b_plus_tree.cpp:220-227`). Removing an absent key therefore ruins the tree when the key sorts before
  every entry of a leaf that is not its parent's first child, and is harmless otherwise.
- A borrow between internal pages takes its middle key from a leaf reached through the wrong child. One level
  above the leaves that is the right key; at any higher level it never is, and the tree is ruined
  (`BTreeBorrow.LeafParentBorrowOk`, `BTreeAstray.HighBorrowBreaks`).
- With three or four children allowed per internal page, a page in slot 0 can be left with one child. The borrow then
  descends by the unused key of its own slot 0, which holds the zero of a fresh page or a key left there by earlier splits,
  merges and borrows. Just above the leaves that is harmless if the key lies in the page's own range; otherwise the tree is ruined
  (`BTreeAstray.SlotZeroBreaks`). The key is looked up among the leaves, and the middle key read from the leaf after the one found. If
  that one is the last leaf, the next page number is 0, and what becomes of the tree rests on bytes of a page outside it: outcome
  `Undefined`. In the other outcomes page 0 may be fetched too, by a borrow at the right edge of the leaves
  (`minisql/src/index/b_plus_tree.cpp:349`, `:379`) or for the separator of a ruined tree, but the outcome does not rest on it.
  `BTreeRunExample` has one run of insertions whose next removal ends in each of the three outcomes, by the keys chosen.
- A leaf's `Init` does not set the next pointer, so the leaf chain ends in the page number 0 of zeroed memory.
- `IndexRootsPage::Insert` refuses an id it holds, so the root recorded for an index that became empty and is
  filled again is out of date.
- `TableHeap::Begin` looks at the first page only; a heap whose first page holds no live row scans as empty.
  `TableHeap::MarkDelete` reports success even when the page refused. An update to more than the largest row size loses the row.
- `NewPage` without a free frame takes a victim twice and keeps the victim's table entry; `DeletePage` of a
  cached page leaves its frame both free and in the replacer; a last, clean unpin of a changed page loses the change
  at eviction.
- `DiskManager::DeAllocatePage` drops the changed bitmap: the page stays taken while the counters go down. The meta page
  is saved only with a new extent, so a reopened file has the right free pages and out-of-date counters.
- Null fields write no bytes and are read back as present, so that rows that differ in a null field can share a key; a CHAR column's length is read back as the length
  of its name plus four.
- The order of index keys compares little-endian bytes as signed chars. It is the order of the numbers only between neighbours of
  one multiple of 256 (`IndexKeys.NumericIff`).
- `RUnlock` wakes one waiter when the number of readers falls below the limit. With two threads waiting at the limit the second one
  can be forgotten: the readers left fall further without another wakeup. So wakeups are safe exactly for at most MAX_READERS + 1
  threads (`RwLatch.NoLostWakeupIff`).
- The "or" merge reads the second set past its end when the first set has the larger maximum.

## Model

| member | source | states |
|---|---|---|
| `BTreePages.ShiftIn` | minisql/src/page/b_plus_tree_leaf_page.cpp:84-98 | the shifting loop yields the sequence with the item inserted at the index |
| `BTreePages.ShiftOut` | minisql/src/page/b_plus_tree_internal_page.cpp:198-205 | the shifting loop yields the sequence without the item at the index |
| `BTreePages.ValueIndex` | minisql/src/page/b_plus_tree_internal_page.cpp:52-60 | the position of a child, or -1 exactly when it is not there |
| `BTreePages.KeyIndex` | minisql/src/page/b_plus_tree_leaf_page.cpp:40-51 | binary search gives the lower bound: smaller keys before, no smaller key from there on |
| `BTreePages.LeafLookup` | minisql/src/page/b_plus_tree_leaf_page.cpp:144-151 | found, with its value, exactly when some item of the sorted leaf has the key |
| `BTreePages.InnerLookup` | minisql/src/page/b_plus_tree_internal_page.cpp:70-100 | the binary search picks the child whose separators enclose the key, whatever the unused slot 0 holds |
| `BTree.BPlusTree.constructor` | minisql/src/index/b_plus_tree.cpp:9-17 | a new index is empty and valid |
| `BTree.BPlusTree.UpdateRootPageId` | minisql/src/index/b_plus_tree.cpp:549-560 | exactly when the roots record ends up naming the root, and that other indexes keep theirs, the whole page unchanged when the record to insert is there or the one to update is not |
| `BTree.BPlusTree.FindLeafPage` | minisql/src/index/b_plus_tree.cpp:515-533 | the descent ends at the leaf whose range holds the key, or at the leftmost leaf |
| `BTree.BPlusTree.GetValue` | minisql/src/index/b_plus_tree.cpp:42-55 | found with a value that the key has, and not found only if no leaf anywhere has the key |
| `BTree.BPlusTree.Insert` | minisql/src/index/b_plus_tree.cpp:68-77 | false, changing nothing, iff the key is present; otherwise exactly one more entry and the tree valid; the recorded root is kept right, except that the first entry of an index that has a record for another page leaves it wrong, exactly then; every other index keeps its record |
| `BTree.BPlusTree.StartNewTree` | minisql/src/index/b_plus_tree.cpp:85-100 | the one-leaf tree; its root is the recorded one iff the index had no record or one of that very page; every other index keeps its record |
| `BTree.BPlusTree.InsertIntoLeaf` | minisql/src/index/b_plus_tree.cpp:111-131 | as Insert, for a tree that is not empty, through any splits; other indexes keep their records and this one's changes only to follow a new root |
| `BTree.BPlusTree.Split` | minisql/src/index/b_plus_tree.cpp:141-160 | the lower half stays, the new page has the upper half, moved children name it as parent, a leaf is spliced in behind the old one, and no other page changes |
| `BTree.BPlusTree.InsertIntoParent` | minisql/src/index/b_plus_tree.cpp:174-204 | linking the split-off page, splitting ancestors as far as needed, restores the whole invariant and keeps the entries; the records as in InsertIntoLeaf |
| `BTree.BPlusTree.InsertIntoNewRoot` | minisql/src/page/b_plus_tree_internal_page.cpp:113-120 | a new root over the two halves makes a valid tree one level higher, and is recorded if the index has a record, all other records staying |
| `BTree.BPlusTree.LinkIntoParent` | minisql/src/page/b_plus_tree_internal_page.cpp:127-141 | the new child and its separator go in right behind the old child |
| `BTree.BPlusTree.Remove` | minisql/src/index/b_plus_tree.cpp:217-234 | in every outcome exactly the entry under the key leaves the leaves; by the outcome decided beforehand the tree stays valid with its root recorded, or no assignment of ranges fits the pages and some stored entry is found by no descent; in every outcome other indexes keep their records and this one's names the root if the root changed |
| `BTree.BPlusTree.RemovePresent` | minisql/src/index/b_plus_tree.cpp:228-234 | the same for a key that the leaf holds, records included |
| `BTree.BPlusTree.WriteSeparator` | minisql/src/index/b_plus_tree.cpp:220-224 | the separator write before the key is looked for, as a change to the pages |
| `BTree.BPlusTree.CoalesceOrRedistribute` | minisql/src/index/b_plus_tree.cpp:245-270 | rebalancing a page one entry short keeps all entries and ends as its fate says; the records as in Remove |
| `BTree.BPlusTree.FindSibling` | minisql/src/index/b_plus_tree.cpp:274-291 | the left neighbour, or the right one for a first child |
| `BTree.BPlusTree.Coalesce` | minisql/src/index/b_plus_tree.cpp:302-326 | merging two neighbours and, where the parent runs short, going on upwards keeps all entries and ends as the fate says; the records as in Remove |
| `BTree.BPlusTree.MoveAllAndDelete` | minisql/src/page/b_plus_tree_internal_page.cpp:232-246 | the pages after all entries moved over and the emptied page and its separator were dropped |
| `BTree.BPlusTree.Redistribute` | minisql/src/index/b_plus_tree.cpp:339-408 | a borrow keeps all entries, and the tree valid or not as its fate says |
| `BTree.BPlusTree.RedistributeLeaves` | minisql/src/index/b_plus_tree.cpp:344-387 | a leaf borrow moves one entry, sets the separator to the right leaf's new first key, changes nothing else, keeps the entries and restores the invariant |
| `BTree.BPlusTree.RedistributeInner` | minisql/src/index/b_plus_tree.cpp:357-404 | an internal borrow moves one child, changes no other page but the parent's separator and keeps all entries; by level, number of children and slot 0 of the left page it keeps the tree valid or ruins it |
| `BTree.BPlusTree.AdjustRoot` | minisql/src/index/b_plus_tree.cpp:421-446 | a root without entries or with one child is dropped; the tree stays valid with the same entries and the record follows, all other records staying |
| `BTreeSearch.OnePagePerKey` | minisql/src/page/b_plus_tree_internal_page.cpp:70-100 | at each level of a valid tree at most one page's range holds a key |
| `BTreeSearch.HeldByItsLeaf` | minisql/src/index/b_plus_tree.cpp:42-55 | an entry stored anywhere is in the one leaf whose range holds its key |
| `BTreeSearch.EntriesFunctional` | minisql/src/index/b_plus_tree.cpp:111-118 | no two entries of a valid tree share a key |
| `BTreeInsert.SplitKeepsInv` | minisql/src/index/b_plus_tree.cpp:174-204 | splitting any page and linking the new one keeps the invariant, the parent alone being possibly one too large |
| `BTreeInsert.GrowKeepsInv` | minisql/src/index/b_plus_tree.cpp:176-186 | splitting the root under a new root gives a valid tree |
| `BTreeInsert.LeafInsertKeepsInv` | minisql/src/page/b_plus_tree_leaf_page.cpp:84-98 | inserting at the lower bound keeps the invariant, that leaf alone being possibly one too large |
| `BTreeInsert.SplitKeepsEntries` | minisql/src/page/b_plus_tree_leaf_page.cpp:106-122 | a split neither loses nor adds an entry |
| `BTreeRemove.MergeKeepsInv` | minisql/src/page/b_plus_tree_leaf_page.cpp:184-192 | merging neighbours keeps order, separators, parents and chain, the parent alone being possibly one short |
| `BTreeRemove.MergeKeepsEntries` | minisql/src/page/b_plus_tree_leaf_page.cpp:184-192 | a merge neither loses nor adds an entry |
| `BTreeRemove.CollapseKeepsInv` | minisql/src/page/b_plus_tree_internal_page.cpp:211-217 | replacing a root that has one child by that child keeps the invariant |
| `BTreeRemove.ShiftKeepsInv` | minisql/src/index/b_plus_tree.cpp:344-387 | moving the boundary between two neighbouring leaves, with the separator, keeps the invariant |
| `BTreeRemove.LeafRemoveKeepsInv` | minisql/src/page/b_plus_tree_leaf_page.cpp:163-176 | deleting a record keeps the invariant, that leaf alone being possibly one short |
| `BTreeBorrow.LeafParentBorrowOk` | minisql/src/index/b_plus_tree.cpp:357-404 | a borrow between two internal pages just above the leaves gives a valid tree with the same entries |
| `BTreeAstray.HighBorrowBreaks` | minisql/src/index/b_plus_tree.cpp:357-404 | a borrow between internal pages any higher always loses an entry and leaves pages that no ranges fit |
| `BTreeAstray.SlotZeroBreaks` | minisql/src/index/b_plus_tree.cpp:357-371 | a borrow for a page with one child, routed by the unused key of its slot 0, does the same whenever the leaves it reads exist, unless the page is just above the leaves and that key lies in its range |
| `BTreeAstray.AstrayRuins` | minisql/src/page/b_plus_tree_internal_page.cpp:70-100 | an entry below a slot that a search for its key does not pick is reached by no descent, and no ranges fit the pages |
| `BTreeFate.RemoveDefined` | minisql/src/page/b_plus_tree_page.cpp:39-52 | with five or more children allowed per internal page the outcome of no removal rests on a key read outside the tree |
| `BTreeFate.DeleteOk` | minisql/src/index/b_plus_tree.cpp:220-231 | separator write and deletion together keep the invariant and remove one entry, whichever slot it was in |
| `BTreeFate.AbsentOk` | minisql/src/index/b_plus_tree.cpp:220-227 | for an absent key the separator write keeps the tree exactly unless it lifts the separator over the leaf's first entry, which is then lost |
| `BTreeFate.BorrowRuins` | minisql/src/index/b_plus_tree.cpp:357-404 | in outcome Broken the keys the borrow reads leave a ruined tree |
| `BTreeFate.FateFrame` | minisql/src/index/b_plus_tree.cpp:245-326 | the fate of a shortage does not depend on what was merged below it |
| `BTreeRunExample.FirstSplit` | minisql/src/index/b_plus_tree.cpp:111-130 | inserting a fifth key after four smaller ones splits the root leaf under a new root |
| `BTreeRunExample.SecondSplit` | minisql/src/index/b_plus_tree.cpp:111-130 | two larger keys split the last leaf and link the new one |
| `BTreeRunExample.ThirdSplit` | minisql/src/index/b_plus_tree.cpp:111-130 | so do the next two, which leaves the root with four children |
| `BTreeRunExample.RootSplit` | minisql/src/index/b_plus_tree.cpp:174-204 | and the root splits: the tree over nine increasing keys, of seven pages |
| `BTreeRunExample.AbsentKeyRuins` | minisql/src/index/b_plus_tree.cpp:217-234 | removing the fifth key from it, by two merges and a root collapse, gives a tree that removing that key again ruins |
| `BTreeRunExample.FourthSplit` | minisql/src/index/b_plus_tree.cpp:111-130 | inserting a tenth and an eleventh key splits the last leaf once more |
| `BTreeRunExample.SlotZeroRun` | minisql/src/index/b_plus_tree.cpp:357-371 | whatever the eleven keys, that tree is valid, and removing the second leaves it valid, ruins it or rests on page 0 by where 0 lies among the keys |
| `BTreeRunExample.SlotZeroRuins` | minisql/src/index/b_plus_tree.cpp:357-371 | keys for which it is ruined |
| `BTreeRunExample.SlotZeroReadsPageZero` | minisql/src/index/b_plus_tree.cpp:357-371 | keys for which the outcome rests on page 0 |
| `BTreeExamples.HighBorrowExample` | minisql/src/index/b_plus_tree.cpp:357-404 | a four-level tree that removing a present key ruins |
| `RootRecordExample.Refilled` | minisql/src/page/index_roots_page.cpp:3-13 | inserting a key into a new index, removing it and inserting another leaves a valid tree whose root is not the recorded one |
| `BTreeScan.IndexIterator.Begin` | minisql/src/index/b_plus_tree.cpp:457-461 | the iterator starts at the least entry of the whole tree |
| `BTreeScan.IndexIterator.Increment` | minisql/src/index/index_iterator.cpp:33-50 | on to the entry with the next larger key of all; from the last one to slot 0 of page 0 |
| `BTreeScan.ScanAll` | minisql/src/index/index_iterator.cpp:30-50 | n - 1 increments visit all n entries once each in strictly increasing order |
| `BTreeScan.HeightBound` | minisql/src/page/b_plus_tree_page.cpp:39-52 | h levels hold at least 2 * MinInner^(h-2) * MinLeaf entries |
| `BTreeScan.SubtreeCount` | minisql/src/page/b_plus_tree_page.cpp:39-52 | a page that is not the root has at least MinInner^level * MinLeaf entries below it |
| `BTreeScan.InsertAll` | minisql/src/index/b_plus_tree.cpp:68-204 | every run of insertions from empty holds the first entry of each key in a valid, well-filled tree whose root is recorded, other indexes keeping their records |
| `IndexRoots.FindIndex` | minisql/src/page/index_roots_page.cpp:46-53 | the position of an id's record, or -1 iff the page as a map lacks it |
| `IndexRoots.InsertRoot` | minisql/src/page/index_roots_page.cpp:3-13 | refused iff the id is present, else the map gains it, by a record behind the others |
| `IndexRoots.DeleteRoot` | minisql/src/page/index_roots_page.cpp:15-25 | refused iff the id is absent, else the map loses it and nothing else, the later records moving up |
| `IndexRoots.UpdateRoot` | minisql/src/page/index_roots_page.cpp:27-34 | refused iff the id is absent, else its record changes in place and nothing else |
| `SlottedPage.TablePage.Init` | minisql/src/page/table_page.cpp:4-10 | an empty page with its id and links, the next id invalid |
| `SlottedPage.TablePage.SetNextPageId` | minisql/src/include/page/table_page.h:43-45 | the link changes and no tuple does |
| `SlottedPage.TablePage.InsertTuple` | minisql/src/page/table_page.cpp:12-46 | succeeds iff tuple and slot fit; takes the first empty slot or a new one; all other slots keep their bytes |
| `SlottedPage.TablePage.MarkDelete` | minisql/src/page/table_page.cpp:48-64 | exactly a live tuple is marked, its bytes and all others kept |
| `SlottedPage.TablePage.UpdateTuple` | minisql/src/page/table_page.cpp:70-110 | the result code by case; in place, growing or shrinking, only that slot changes although other tuples move |
| `SlottedPage.TablePage.ApplyDelete` | minisql/src/page/table_page.cpp:112-139 | the slot becomes empty, its bytes are free again, every other slot keeps its contents |
| `SlottedPage.TablePage.RollbackDelete` | minisql/src/page/table_page.cpp:141-150 | the mark of that slot goes, nothing else changes |
| `SlottedPage.TablePage.GetTuple` | minisql/src/page/table_page.cpp:152-171 | the bytes of a live tuple, and a refusal for anything else |
| `SlottedPage.TablePage.NextLive` | minisql/src/page/table_page.cpp:173-197 | the first live slot from a position on, or none |
| `SlottedPage.FreeSpaceIsFreeOf` | minisql/src/include/page/table_page.h:75-77 | the free space computed from the pointer is page size less header, slots and the sum of stored bytes: nothing is lost |
| `SlottedPage.NumEncode` | minisql/src/include/page/table_page.h:65-95 | reading a word back undoes writing it |
| `SlottedPage.PageLayout` | minisql/src/include/page/table_page.h:7-95 | little-endian words: free-space pointer at byte 16, slot count at 20, then each slot's offset and size |
| `SlottedPage.MovedTuple` | minisql/src/page/table_page.cpp:96-109 | a tuple reads the same after the memmove and its offset fix-up |
| `SlottedLayout.ShiftedOk` | minisql/src/page/table_page.cpp:96-109 | the directory after an update or delete: live ranges stay disjoint, free pointer plus stored sizes is the page size, directory and data do not meet |
| `SlottedLayout.InsertedOk` | minisql/src/page/table_page.cpp:19-45 | the same after an insertion |
| `SlottedLayout.MarkedOk` | minisql/src/include/page/table_page.h:87-98 | the same after setting or clearing a delete flag |
| `TableHeap.TableHeap.InsertTuple` | minisql/src/storage/table_heap.cpp:3-33 | succeeds iff the row is at most SIZE_MAX_ROW bytes; it goes into the lowest empty slot, or a new one if none is empty, of the first page of the chain with room, or into slot 0 of a page added at the end if none has; its id was not in use and all other rows are kept; a refused row leaves an empty page at the end |
| `TableHeap.TableHeap.MarkDelete` | minisql/src/storage/table_heap.cpp:35-48 | only that row becomes marked; success is reported regardless; no other slot changes |
| `TableHeap.TableHeap.UpdateTuple` | minisql/src/storage/table_heap.cpp:52-74 | the row's id is kept iff it fits its page, otherwise it is deleted and put as InsertTuple would, always on a different page under an unused id; all other rows kept; too large a row is lost |
| `TableHeap.TableHeap.ApplyDelete` | minisql/src/storage/table_heap.cpp:76-82 | exactly that row disappears and its bytes become free, its slot left empty |
| `TableHeap.TableHeap.RollbackDelete` | minisql/src/storage/table_heap.cpp:84-93 | exactly that row's mark goes |
| `TableHeap.TableHeap.GetTuple` | minisql/src/storage/table_heap.cpp:105-114 | the row's bytes iff it is live |
| `TableHeap.TableHeap.Relocate` | minisql/src/storage/table_heap.cpp:58-64 | delete and insert of a row that does not fit lands on another page, in the slot that InsertTuple picks once the row is gone |
| `TableHeap.AppendChained` | minisql/src/storage/table_heap.cpp:15-25 | linking a fresh page behind the last keeps the chain acyclic with matching links |
| `TableScan.TableIterator.Begin` | minisql/src/storage/table_heap.cpp:116-126 | stands on the first live row iff the first page has one, else at End |
| `TableScan.TableIterator.Increment` | minisql/src/storage/table_iterator.cpp:26-53 | on to the next live row in chain-then-slot order over empty slots and pages, or to End when none is left |
| `TableScan.ScanAll` | minisql/src/storage/table_iterator.cpp:26-53 | a scan yields the list of live rows if the first page holds one, and otherwise nothing |
| `TableScan.ScanListIsLiveRows` | minisql/src/storage/table_iterator.cpp:26-53 | that list has every live row of the heap, each once |
| `TableScan.HiddenRow` | minisql/src/storage/table_heap.cpp:116-126 | inserting two rows of a page each and deleting the first leaves a live row and a first page without one, so that a scan is empty |
| `RwLatch.StepKeepsSafe` | minisql/src/include/common/rwlatch.h:28-78 | every step of any thread keeps: the reader count is the number of readers, at most one thread owns the writer flag, a writer past WLock has no readers |
| `RwLatch.MutualExclusion` | minisql/src/include/common/rwlatch.h:28-78 | in every state of every run a writer excludes all readers and other writers |
| `RwLatch.NoReaderAdmitted` | minisql/src/include/common/rwlatch.h:53-56 | once the writer flag is set no step admits a reader |
| `RwLatch.ReaderAdmitted` | minisql/src/include/common/rwlatch.h:53-59 | RLock lets the thread in and counts it iff the flag is not set and the limit is not reached, and otherwise it waits; nobody else moves |
| `RwLatch.WriterAdmitted` | minisql/src/include/common/rwlatch.h:28-37 | WLock takes the flag iff it is free, and with no reader left the thread then has the latch |
| `RwLatch.WaiterRetries` | minisql/src/include/common/rwlatch.h:30-55 | a waiting thread tries the same lock again |
| `RwLatch.OwnerEnters` | minisql/src/include/common/rwlatch.h:34-36 | the owner of the flag gets the latch at its next step iff the readers are gone |
| `RwLatch.WriterLeaves` | minisql/src/include/common/rwlatch.h:42-46 | WUnlock leaves the thread outside, gives up the flag and wakes every thread that waits for it |
| `RwLatch.ReaderLeaves` | minisql/src/include/common/rwlatch.h:62-78 | RUnlock leaves the thread outside and one reader less; the last one wakes the owner of the flag |
| `RwLatch.EveryThreadSteps` | minisql/src/include/common/rwlatch.h:28-78 | every thread has a step in every state |
| `RwLatch.EveryoneCanLeave` | minisql/src/include/common/rwlatch.h:28-78 | no deadlock: from every safe state there is a run in which all threads get what they wait for and leave |
| `RwLatch.StepForgetsNone` | minisql/src/include/common/rwlatch.h:28-78 | every step keeps: an un-notified waiter on reader_ means the flag is set or the limit is reached, one on writer_ that readers remain |
| `RwLatch.SomeoneCanMove` | minisql/src/include/common/rwlatch.h:62-78 | when a thread waits without a wakeup, another holds the latch or has been sent one |
| `RwLatch.NoLostWakeup` | minisql/src/include/common/rwlatch.h:28-78 | both in every state of every run of at most MAX_READERS + 1 threads |
| `RwLatch.NoLostWakeupIff` | minisql/src/include/common/rwlatch.h:62-78 | no run of these threads leaves one waiting for nobody iff there are at most MAX_READERS + 1 of them |
| `RwLatch.LimitLosesWakeup` | minisql/src/include/common/rwlatch.h:73-77 | any two threads more than the limit have a run that ends with one waiting and all others outside |
| `Bitmap.BitmapPage.AllocatePage` | minisql/src/page/bitmap_page.cpp:9-24 | takes the least free bit and only that one; fails iff all are taken |
| `Bitmap.BitmapPage.DeAllocatePage` | minisql/src/page/bitmap_page.cpp:26-35 | clears exactly that bit; succeeds iff it was set, out of range included |
| `Bitmap.BitmapPage.IsPageFree` | minisql/src/page/bitmap_page.cpp:37-45 | in range and not set |
| `Bitmap.WithTaken` | minisql/src/page/bitmap_page.cpp:5-7 | masking a byte with the bit tables changes that page's bit and no other |
| `Bitmap.HighestFirst` | minisql/src/page/bitmap_page.cpp:5-7 | bit 0 of a byte is its highest |
| `DiskLayout.Partition` | minisql/src/storage/disk_manager.cpp:106-108 | meta page, bitmap pages and data pages share out all physical page numbers, each data page having one logical number |
| `DiskLayout.MapInjective` | minisql/src/storage/disk_manager.cpp:106-108 | different logical pages are different physical pages |
| `DiskLayout.MapIncreases` | minisql/src/storage/disk_manager.cpp:106-108 | a larger logical page is a larger physical page, which with Partition leaves one way to map them |
| `DiskLayout.WriteOne` | minisql/src/storage/disk_manager.cpp:40-43 | writing a page changes that page alone and no free bit or counter |
| `DiskLayout.TakingGrants` | minisql/src/storage/disk_manager.cpp:50-74 | taking the first free bit of the first extent that is not full, or of a new one, grants the least free page and keeps the counters equal to the numbers of set bits |
| `DiskLayout.RunOfGrants` | minisql/src/storage/disk_manager.cpp:45-75 | in every run on a new file the pages come as 0, 1, 2, ... and the counters stay right |
| `DiskStore.DiskManager.constructor` | minisql/src/storage/disk_manager.cpp:8-25 | a new file: all pages free and zero, counters right |
| `DiskStore.DiskManager.Reopen` | minisql/src/storage/disk_manager.cpp:23-24 | after reopening all pages are as free as before; the counters are right iff they had been saved |
| `DiskStore.DiskManager.ReadPage` | minisql/src/storage/disk_manager.cpp:35-38 | the contents of the logical page, zeroes if never written |
| `DiskStore.DiskManager.WritePage` | minisql/src/storage/disk_manager.cpp:40-43 | that page changes, no other, and free pages stay as they are |
| `DiskStore.DiskManager.AllocatePage` | minisql/src/storage/disk_manager.cpp:45-75 | grants the least page IsPageFree accepts, and that page alone stops being free; it is counted in its extent and in all, only that extent's bitmap is written, and the meta page iff the extent is new |
| `DiskStore.DiskManager.IsPageFree` | minisql/src/storage/disk_manager.cpp:94-104 | the bit of the page, or true beyond the extents |
| `DiskStore.DiskManager.DeAllocatePage` | minisql/src/storage/disk_manager.cpp:77-92 | no page becomes free and no bitmap changes; a taken page is counted off, so that right counters stay right iff the page was free; the meta page is saved |
| `LruReplacer.LRUReplacer.Victim` | minisql/src/buffer/lru_replacer.cpp:10-22 | gives up the frame unpinned the longest, and fails iff there is none |
| `LruReplacer.LRUReplacer.Pin` | minisql/src/buffer/lru_replacer.cpp:24-31 | that frame leaves, list and map alike, the others keep their times and order |
| `LruReplacer.LRUReplacer.Unpin` | minisql/src/buffer/lru_replacer.cpp:33-39 | a frame not yet there enters as the newest while there is room, otherwise nothing changes |
| `LruReplacer.LRUReplacer.Size` | minisql/src/buffer/lru_replacer.cpp:41-41 | the number of frames in the map and in the list |
| `LruReplacer.OneNodeEach` | minisql/src/buffer/lru_replacer.cpp:10-39 | list and map hold the same frames, each once |
| `LruReplacer.LastIsOldest` | minisql/src/buffer/lru_replacer.cpp:14-17 | the last node of the list has the least time of all |
| `LruRuns.Replay` | minisql/src/buffer/lru_replacer.cpp:10-39 | in every run of Pin, Unpin and Victim on a new replacer each victim is the frame whose last effective Unpin is the earliest, and there is none only when no frame may be evicted |
| `PoolState.TableInjective` | minisql/src/buffer/buffer_pool_manager.cpp:52-56 | no two pages share a frame |
| `PoolState.FlushKeeps` | minisql/src/buffer/buffer_pool_manager.cpp:153-165 | flushing keeps the pool well formed and coherent and every page's contents, and brings the page to disk |
| `PoolState.HitKeeps` | minisql/src/buffer/buffer_pool_manager.cpp:31-37 | the same for fetching a cached page, which shows its contents |
| `PoolState.HitPins` | minisql/src/buffer/buffer_pool_manager.cpp:31-37 | the same for a cached page, field by field |
| `PoolState.UnpinGivesBack` | minisql/src/buffer/buffer_pool_manager.cpp:121-151 | the same for UnpinPage |
| `PoolState.DeleteDrops` | minisql/src/buffer/buffer_pool_manager.cpp:95-119 | the same for DeletePage |
| `PoolState.MissOk` | minisql/src/buffer/buffer_pool_manager.cpp:38-60 | fetching an uncached page keeps the pool well formed and coherent |
| `PoolState.MissLoads` | minisql/src/buffer/buffer_pool_manager.cpp:38-60 | the frame taken, what is written back, what is loaded and which table entries change |
| `PoolState.MissContent` | minisql/src/buffer/buffer_pool_manager.cpp:38-60 | it shows what the page held, and every page keeps its contents iff a free frame was used or the victim could be evicted without loss |
| `PoolState.UnpinKeeps` | minisql/src/buffer/buffer_pool_manager.cpp:121-151 | contents kept; the pool stays coherent iff it is not the last, clean unpin of a frame that differs from disk |
| `PoolState.NewKeeps` | minisql/src/buffer/buffer_pool_manager.cpp:63-93 | with a free frame: well formed, the new page zero, every other page's contents kept |
| `PoolState.NewFreeIff` | minisql/src/buffer/buffer_pool_manager.cpp:72-86 | with a free frame the pool stays well formed iff the page granted is not cached |
| `PoolState.NewEvictingIff` | minisql/src/buffer/buffer_pool_manager.cpp:67-86 | without a free frame but with a victim it does iff the one victim holds the very page granted |
| `PoolState.DeleteKeepsIff` | minisql/src/buffer/buffer_pool_manager.cpp:95-119 | deleting keeps the pool well formed iff the page is not cached or is pinned |
| `PoolState.InstallShows` | minisql/src/buffer/buffer_pool_manager.cpp:82-92 | after NewPage the table finds the new page in the frame returned, and other frames and table entries are as before |
| `PoolRuns.StepTracks` | minisql/src/buffer/buffer_pool_manager.cpp:24-165 | each step of a careful client keeps: pins are what its events say, and every cached page without an unsaved write is synced |
| `PoolRuns.StepIsUncached` | minisql/src/buffer/buffer_pool_manager.cpp:24-165 | each step of a careful client changes pages as it would without a cache |
| `PoolRuns.FetchShowsLastWrite` | minisql/src/buffer/buffer_pool_manager.cpp:24-165 | in every run from an empty cache, of clients that write only pages they hold and give back the last hold on a page with an unsaved write as dirty, each fetch shows the last contents written to the page and the pool stays well formed |
| `BufferPool.BufferPoolManager.constructor` | minisql/src/buffer/buffer_pool_manager.cpp:7-14 | all frames free, the disk untouched |
| `BufferPool.BufferPoolManager.FetchPage` | minisql/src/buffer/buffer_pool_manager.cpp:24-61 | a pinned frame showing the page's contents, its own if cached, else the last free one or that of the page longest in the replacer, written back first if dirty; every other frame stays, and in a coherent pool every page keeps its contents |
| `BufferPool.BufferPoolManager.FetchAbsent` | minisql/src/buffer/buffer_pool_manager.cpp:38-60 | frame choice, write-back, table update and load are the miss step of the model |
| `BufferPool.BufferPoolManager.UnpinPage` | minisql/src/buffer/buffer_pool_manager.cpp:121-151 | one pin less, the frame newest in the replacer after the last, a dirty page written; all contents kept, coherence kept iff the unpin is a safe one |
| `BufferPool.BufferPoolManager.FlushPage` | minisql/src/buffer/buffer_pool_manager.cpp:153-165 | the flush step; false iff the page is not cached |
| `BufferPool.BufferPoolManager.NewPage` | minisql/src/buffer/buffer_pool_manager.cpp:63-93 | the least free page, pinned once and zero in the frame returned, every other frame and table entry staying, or nullptr and no change; the frame is the last free one, or with none free the second victim's while the first is dropped; exactly when the pool stays valid, which for a pool that caches granted pages only is when a frame was free or nothing was evictable |
| `BufferPool.BufferPoolManager.DeletePage` | minisql/src/buffer/buffer_pool_manager.cpp:95-119 | the page is taken back from the disk manager; refused iff cached and pinned, else its zeroed frame goes behind the free list and its table entry goes; valid afterwards iff it was refused or not cached |
| `BufferPool.BufferPoolManager.FlushAll` | minisql/src/buffer/buffer_pool_manager.cpp:16-22 | in whatever order the table is iterated, afterwards the disk alone holds every page's contents |
| `RowCodec.SerializeTo` | minisql/src/record/row.cpp:5-14 | exactly the row's encoding is written, nothing around it, and its size returned |
| `RowCodec.GetSerializedSize` | minisql/src/record/row.cpp:32-38 | the size predicted is the size written |
| `RowCodec.DeserializeFrom` | minisql/src/record/row.cpp:16-29 | the loop computes the decoding of the buffer, sizes consumed included |
| `RowCodec.FieldRoundTrip` | minisql/src/record/types.cpp:100-123 | one field of any type, with any bytes behind it, is read back with the size written |
| `RowCodec.RoundTripIff` | minisql/src/record/row.cpp:5-38 | decoding undoes encoding, consuming what was written, iff the row has no null and no over-long character field |
| `RowCodec.NullComesBackAsZero` | minisql/src/record/row.cpp:16-29 | a null integer before zero bytes is read back as 0 |
| `IndexKeys.SerializeFromKey` | minisql/src/include/index/generic_key.h:12-19 | the row's encoding padded with zeroes |
| `IndexKeys.KeyRoundTrip` | minisql/src/include/index/generic_key.h:21-25 | the padded key decodes to the row |
| `IndexKeys.KeyInjective` | minisql/src/include/index/generic_key.h:12-19 | rows of one schema have equal keys iff they are equal |
| `IndexKeys.Compare` | minisql/src/include/index/generic_key.h:55-85 | 0 iff equal; otherwise the order of the first differing signed chars, which is the integer order of the ranks |
| `IndexKeys.RankInjective` | minisql/src/include/index/generic_key.h:55-85 | keys have equal ranks iff they are equal, so ranks are a total order of keys |
| `IndexKeys.NumericIff` | minisql/src/include/index/generic_key.h:74-84 | for all 32-bit m <= n, the keys of the integers from m to n are in numeric order iff (m + 128) / 256 == (n + 128) / 256 |
| `IndexKeys.OrderIsNotNumeric` | minisql/src/include/index/generic_key.h:74-84 | an instance: the key of 256 sorts before the key of 1 |
| `TreeIndex.BPlusTreeIndex.InsertEntry` | minisql/src/index/b_plus_tree_index.cpp:17-26 | fails, changing nothing, iff a row with the same key is indexed, which among rows without null fields is the same row; otherwise the map of indexed rows gains it; other indexes keep their root records |
| `TreeIndex.BPlusTreeIndex.ScanKey` | minisql/src/index/b_plus_tree_index.cpp:37-44 | finds the row id of the indexed row with the same key iff there is one |
| `TreeIndex.NullSharesKey` | minisql/src/include/index/generic_key.h:12-19 | a null integer has the key of 0 |
| `MetaCodec.WriteColumn` | minisql/src/record/column.cpp:34-59 | lays out the column's cells and leaves the gap bytes as they were |
| `MetaCodec.ReadColumn` | minisql/src/record/column.cpp:66-99 | from any buffer with that layout: all fields but a CHAR column's length and what follows a NUL in the name; consumes the predicted size |
| `MetaCodec.WriteSchema` | minisql/src/record/schema.cpp:4-19 | lays out the schema's cells, column after column |
| `MetaCodec.ReadSchema` | minisql/src/record/schema.cpp:30-50 | reads back every column, consuming the predicted size |
| `MetaCodec.SchemaGetSerializedSize` | minisql/src/record/schema.cpp:21-28 | the size of the layout |
| `MetaCells.ColumnCellsSize` | minisql/src/record/column.cpp:61-64 | the size predicted is the size of the layout |
| `MetaCells.ColumnLayout` | minisql/src/record/column.cpp:34-59 | at which offset each field of a column lies |
| `MetaCells.SchemaLayout` | minisql/src/record/schema.cpp:4-19 | the same for a schema |
| `MetaCells.TableLayout` | minisql/src/catalog/table.cpp:3-28 | the same for a table |
| `MetaCells.IndexLayout` | minisql/src/catalog/indexes.cpp:9-41 | the same for an index |
| `MetaCells.WordsLayout` | minisql/src/catalog/indexes.cpp:34-40 | the words of a key map lie in order |
| `MetaCells.CatalogLayout` | minisql/src/catalog/catalog.cpp:3-23 | the same for the catalog |
| `MetaCells.PairsLayout` | minisql/src/catalog/catalog.cpp:8-22 | each pair of a map lies behind the one before, key first |
| `MetaCells.ReloadedSame` | minisql/src/record/column.cpp:4-22 | a column survives iff its name has no NUL and its length is the one the decoder's constructor computes |
| `MetaCells.CharLengthLost` | minisql/src/record/column.cpp:16-18 | CHAR(16) with a one-letter name comes back as CHAR(5) |
| `MetaCodec.WriteTable` | minisql/src/catalog/table.cpp:3-28 | lays out the table's cells |
| `MetaCodec.ReadTable` | minisql/src/catalog/table.cpp:42-76 | reads them back, consuming the predicted size |
| `MetaCodec.TableSizeOk` | minisql/src/catalog/table.cpp:30-37 | the size predicted is the size of the layout |
| `MetaCodec.TableRoundTrip` | minisql/src/catalog/table.cpp:3-76 | whatever the buffer held, writing and reading gives the table back as above, both moving by the predicted size, nothing written beyond |
| `MetaCodec.TableSurvivesIff` | minisql/src/catalog/table.cpp:3-76 | table metadata is unchanged by this iff names have no NUL and column lengths are the computed ones |
| `MetaCodec.WriteIndex` | minisql/src/catalog/indexes.cpp:9-41 | lays out the index's cells, key map included |
| `MetaCodec.ReadIndex` | minisql/src/catalog/indexes.cpp:51-91 | reads them back, consuming the predicted size |
| `MetaCodec.IndexSizeOk` | minisql/src/catalog/indexes.cpp:43-49 | the size predicted is the size of the layout |
| `MetaCodec.IndexRoundTrip` | minisql/src/catalog/indexes.cpp:9-91 | index metadata comes back unchanged iff its name has no NUL, from any buffer |
| `MetaCodec.WriteCatalog` | minisql/src/catalog/catalog.cpp:3-23 | lays out both maps pair by pair |
| `MetaCodec.ReadCatalog` | minisql/src/catalog/catalog.cpp:25-51 | gives back both maps, in whatever order they were iterated |
| `MetaCodec.CatalogGetSerializedSize` | minisql/src/catalog/catalog.cpp:53-63 | the size of the layout |
| `MetaCodec.CatalogSizeOk` | minisql/src/catalog/catalog.cpp:53-63 | the size predicted is the size of the layout |
| `MetaCodec.CatalogRoundTrip` | minisql/src/catalog/catalog.cpp:3-63 | writing and reading in any buffer gives the catalog back, both moving by the predicted size, nothing written beyond |
| `Where.AndMerge` | minisql/src/executor/execute_engine.cpp:1490-1505 | terminates with the intersection of any two sets |
| `Where.OrMerge` | minisql/src/executor/execute_engine.cpp:1506-1520 | the union iff the first set is empty or its maximum is at most the second's; otherwise the second set is read past its end |
| `Where.RowIdOrder` | minisql/src/include/common/rowid.h:29-38 | row ids are in a strict total order, by page and then by slot |
| `Where.SetInsertOk` | minisql/src/include/common/rowid.h:29-38 | inserting into an ordered set of row ids keeps the order and adds that id |
| `Where.ExecuteContext.ExecuteCompareOperator` | minisql/src/executor/execute_engine.cpp:1147-1438 | the row ids of exactly the rows whose own value in the column compares as the operator says, operator by operator, or the error by case |
| `Where.ExecuteContext.ExecuteInternalNode` | minisql/src/executor/execute_engine.cpp:1130-1146 | for every condition tree the return code, and on success exactly the rows that satisfy the whole formula |
| `Where.ExecuteContext.ExecuteConnector` | minisql/src/executor/execute_engine.cpp:1469-1522 | the same for a connector over any two operands |
| `Where.OperatorSelects` | minisql/src/executor/execute_engine.cpp:1208-1337 | for every table, column and number, which rows each operator selects, as integer comparison on the row's own value |
| `Where.OperatorsShareOut` | minisql/src/executor/execute_engine.cpp:1208-1337 | "<", "=" and ">" share out all rows, and "<=", ">=" and "<>" select the matching unions |
| `Where.RaisedBound` | minisql/src/executor/execute_engine.cpp:1232-1337 | raising the number only adds rows to "<" and only takes rows from ">" |
| `Where.ConnectorSelects` | minisql/src/executor/execute_engine.cpp:1485-1520 | the rows satisfying "and" are the intersection, those satisfying "or" the union |
| `Where.AndTreeSucceeds` | minisql/src/executor/execute_engine.cpp:1469-1505 | a tree of "and"s succeeds iff its columns and operators are known |
| `Where.LargerFirstOperand` | minisql/src/executor/execute_engine.cpp:1506-1520 | two rows and a condition both satisfy on which the "or" merge runs off its second set |
| `WhereHeap.ExecuteWhere` | minisql/src/executor/execute_engine.cpp:1130-1337 | over the scanned and decoded rows of a heap: the code is the one the condition has on the table the scan sees, and on success exactly the live rows that satisfy the condition are selected if the first page holds a live row, and otherwise none; for a comparison, the rows whose decoded value the operator selects |
| `WhereHeap.IntsOfEncoding` | minisql/src/record/row.cpp:16-29 | the decoded integers of a row are those that were encoded |
| `StorageExamples.NewPageWithoutFrame` | minisql/src/buffer/buffer_pool_manager.cpp:67-86 | a second NewPage in a pool of one frame leaves it not well formed |
| `StorageExamples.DeleteCachedPage` | minisql/src/buffer/buffer_pool_manager.cpp:113-118 | so does deleting its cached page |
| `StorageExamples.LossyUnpin` | minisql/src/buffer/buffer_pool_manager.cpp:121-151 | a change given back as clean is gone after the next eviction |
| `StorageExamples.DeAllocated` | minisql/src/storage/disk_manager.cpp:77-92 | a page taken back stays taken and the counters are wrong |
| `StorageExamples.ReopenedAfterTwo` | minisql/src/storage/disk_manager.cpp:50-58 | after two grants a reopened file counts wrongly |
| `StorageExamples.LostUpdate` | minisql/src/storage/table_heap.cpp:58-66 | updating the only row to more than a page holds leaves an empty heap |

## Left out

- BTree.BPlusTree.Remove: demands leaves of at least four entries, because with fewer a leaf can be left with one, and the separator is then taken from a slot beyond it that holds whatever bytes were there; and in outcome `Undefined` promises only which entries are left, because the keys read then are bytes of page 0, which belongs to the catalog.
- BTree.BPlusTree.Redistribute: likewise promises only the entries in outcome `Undefined`.
- TableHeap.TableHeap.InsertTuple: works on pages given by the tuples in their slots, and applies to them the functions in which the contracts of `SlottedPage.TablePage` state what the same operations do to the bytes.
- IndexRoots.InsertRoot: the sequence of records is unbounded; the source has no capacity test and overruns its page after some five hundred indexes.
- BTreeRunExample.AbsentKeyRuins: the run, like that of `BTreeRunExample.SlotZeroRun`, is given by the page functions that the methods of the tree are proved to apply, not by calls of the methods, whose contracts do not fix the pages.
- DiskStore.DiskManager.AllocatePage: stops at the 1022 extents the meta page can count; beyond it the source writes outside the meta page.
- BufferPool.BufferPoolManager.FetchPage: demands a cached page, a free frame or an evictable one, because otherwise the source uses an uninitialised frame number.
- Where.ExecuteContext.ExecuteCompareOperator: covers integer columns scanned without an index; the literal arrives as the number that `atoi` makes of it.
- Pinning and latching of the pages inside the B+ tree and the table heap: their pages are a map, as if the pool were large enough, and pages left pinned by the tree are not counted.
- Keys of the tree are integers, as in `BPlusTree<int, int, ...>`; byte keys enter by their rank, which `IndexKeys` shows to be an order isomorphism. The zero in slot 0 of a fresh root is that of integer keys; zero bytes have another rank, which no search or insertion looks at.
- `BPlusTree::End`, `Begin(key)`, the index branches of comparisons, `RemoveEntry`, and `FreeHeap`: End points at an entry rather than past one, and the others would add easy members or rest on it.
- Character and float comparison, `is` and `not` with null, and `Type::GetData`'s shared buffer; floats are only encoded and decoded, as bit patterns.
- 32-bit overflow of file offsets and of page numbers beyond the extent limit; real file I/O, memory heaps and pointer lifetimes.
- The reader count's wrap-around branch in `RUnlock`, which an assertion guards and which no thread that holds a read latch reaches.
- Catalog manager operations, the parser, statement execution beyond WHERE, printing, the transaction, lock and log managers, the web front and back ends.
