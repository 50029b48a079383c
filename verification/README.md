# A model of a small relational storage engine

The engine stores tables in files of 4096-byte pages. Four layers stand on each other, and each has a simple
meaning that the bytes and the state below it must agree with. The model follows the code layer by layer, in its own
form: objects that change are classes or pages written through, loops are loops with invariants, and what they
compute is stated by functions and proved about in lemmas.

1. **Buffer pool** (`Pages.dfy`, `PoolModel.dfy`, `BufferManager.dfy`). Frames, a page map, pin counts, dirty bits
   and a second-chance clock over the files. `Abs()` is the state of the pool as a value, `View()` what its callers
   see: the content of every file, page by page. Whatever is read, evicted, written back or flushed, the pool
   behaves as the plain map from page to bytes that `View()` is.
2. **Slotted pages and heap file** (`Values.dfy`, `SlottedPage.dfy`, `HeapFilePage.dfy`, `HeapModel.dfy`,
   `HeapFile.dfy`, `HeapFileIter.dfy`). Records of variable length in the bytes of a page under a slot directory;
   `TableOf` is what the page means, `Layout` what every operation keeps. A heap file is a partial map from record
   identifiers to records, and a scan lists it. All of it runs over the buffer pool: every method says what became
   of the content of all files and of the pins.
3. **B+ tree** (`StringKey.dfy`, `BPlusTreeNode.dfy`, `Routing.dfy`, `BPlusTreePages.dfy`, `BPlusTreeModel.dfy`,
   `BPlusTree.dfy`, `TreeInsertion.dfy`, `TreeSplit.dfy`, `IndexModel.dfy`, `Index.dfy`). Directory and leaf pages
   byte by byte; routing; a tree as a value laid over the pages of its two files, good if the separators part the
   ranges of the children at every level; the descent; the absorption of the split of a child and the root split;
   the range scan along the chain of leaves, with keys that keep only eight bytes of a string.
4. **Catalog** (`Table.dfy`, `IndexFill.dfy`, `CatalogFile.dfy`, `Catalog.dfy`, `Database.dfy`, `Reopen.dfy`).
   Insertion into a table and its index together, and filling a new index; a printer and a parser for nested lists
   with length prefixes, over a stream that remembers a failed read; the table of names; several tables on one
   pool; and what a restart does to an index.

`Bytes.dfy` has the fixed-width integers all layers use.

## What the proofs found

- The search in a leaf without records reads its first slot all the same and returns 0 or 1
  (src/storage/b_plus_tree/b_plus_tree_leaf.cc:98), where its header comment promises the number of records. The
  range scan works with either answer (`IndexModel.StartLosesNothing`). `BPlusTrees.EmptyLeafSearch` is such a leaf.
- The test for a duplicate in a leaf looks at the slot the search returned, which may be the one past the last
  record (src/storage/b_plus_tree/b_plus_tree_leaf.cc:29). Unused bytes there can make a new record look like one
  already present: `Routing.LostInsertion` is such a leaf, `Routing.DuplicateTestExact` says exactly when the test
  is right.
- Strings are promised to be UTF-8 (src/relational_model/schema.h:7), but keys are made from signed characters, so
  a byte of 128 or more among the first eight makes a key negative and wipes out the characters before it
  (`StringKeys.KeyIsSpelled`). `StringKeys.KeyOrder` compares any two keys by the bytes of their strings,
  `StringKeys.OrderKeptExact` says for which two strings the order is kept, and `IndexModel.CompleteExact` for which
  values and bounds a range scan returns every matching record. `StringKeys.OrderLost` has two strings out of order,
  `IndexModel.MissedHit` a record a scan misses, `IndexModel.MissedByBound` another that only the upper bound loses;
  from a minimum without such a byte to a maximum with one, a scan returns nothing (`IndexModel.BadMaximum`).
- In the shift loop, src/storage/b_plus_tree/b_plus_tree_dir.cc:114 reads a record at index -1 if the first child
  split. What is read there is overwritten; no contract of the model depends on it.
- A scan that is reset does not count the pages again: `HeapModel.StaleScan` says exactly when it is still complete,
  and `HeapModel.MissedRecord` is a record it misses.
- An index is created with files named after the table and a suffix (src/system/catalog.cc:268) and opened again
  without the suffix (src/system/catalog.cc:77): `CatalogFiles.ReopenExact`, `Catalogs.IndexAndRestart`. The index
  opened then has no records (`Reopening.IndexLost`).
- A lookup by name asks for the name in lower case. Names made by `create_table` are in lower case, so tables are found
  in any case (`CatalogFiles.FoundInAnyCase`); a name with a capital letter in a catalog file is found in none:
  `CatalogFiles.FoundInAnyCaseExact` says exactly when lookups find tables in any case.
- The catalog file is not cut when it is written; a shorter catalog leaves the end of a longer one behind. That is
  harmless (`CatalogFiles.CatalogBack`).

## What is required of callers

- Page numbers stay below 2^19 - 1, because offsets into files, and the length of a file that grows, are computed
  in 32 bits (src/system/file_manager.cc:24, src/system/file_manager.cc:40, src/system/file_manager.cc:44), and
  files are real ones.
- On a miss of the pool some frame is unpinned; an operation that opens several pages at once says how many frames
  it needs (`Unpinned`). With all frames pinned the loop of the clock does not end (`PoolModel.StopsExactly`).
- A heap file has at least one column, strings have at most 255 bytes and no NUL inside, and a record and its slot
  fit a page: a longer record fits no page, and the search for one would not end (`HeapFiles.SearchEnds`).
- The index records of a scan name live records of the heap file under their keys (`IndexModel.Indexed`), as
  insertion leaves them; the bounds have the type of the key column.
- The split that comes up from a child has its separator inside the range of the child and two good halves
  (`BPlusTreeModel.GoodSplit`), because the code that would make it is not written.

## Model

| member | source | states |
|---|---|---|
| `BufferManagers.BufferManager.GetPage` | src/system/buffer_manager.cc:84-109 | The page returned is pinned, has its second chance, and holds exactly what a plain store of pages would hold at that number; no page of any file changes its content, except that the file grows by zero pages up to the one asked for; every other pin stays; a page found in the pool moves no hand and touches no disk |
| `PoolModel.ServedOnce` | src/system/buffer_manager.cc:84-109 | The whole state of the pool after a request is determined by the state before |
| `BufferManagers.BufferManager.AppendPage` | src/system/buffer_manager.cc:111-113 | The page returned has a number no page of the file had before and is all zeros; everything else is as it was |
| `BufferManagers.BufferManager.GetUnusedPage` | src/system/buffer_manager.cc:69-82 | With some frame unpinned, stops at the frame the second-chance sweep picks, on the very pass on which that frame is found, at most twice as many passes as there are frames; nothing but the clock hand and second-chance bits changes |
| `PoolModel.StopsExactly` | src/system/buffer_manager.cc:69-82 | The loop stops exactly if some frame is unpinned, and then within twice as many passes as there are frames, with the result of the sweep |
| `PoolModel.SlowestSweep` | src/system/buffer_manager.cc:69-82 | Two frames for which it takes four passes, so the bound is met |
| `PoolModel.SweepPicks` | src/system/buffer_manager.cc:69-82 | What the sweep does to every frame: it ends on the nearest unpinned frame without a second chance, or, if all of them have one, on the nearest of all unpinned frames; exactly the unpinned frames the hand has come to have lost their second chance |
| `PoolModel.Steps` | src/system/buffer_manager.cc:78-79 | The hand goes up by one and wraps around; distances are numbers of such steps |
| `PoolModel.SweepUnique` | src/system/buffer_manager.cc:69-82 | The result of the sweep does not depend on which unpinned frame is used to show that it ends |
| `PoolModel.AdvanceKeeps` | src/system/buffer_manager.cc:69-82 | Choosing a frame keeps the invariant of the pool and the content of all files |
| `BufferManagers.BufferManager.Replace` | src/system/buffer_manager.cc:91-103 | Eviction, write-back, reassignment and reading on the frames themselves are one step of the model; the assertions of reassign hold |
| `PoolModel.EvictKeeps` | src/system/buffer_manager.cc:92-98 | Evicting an unpinned frame, dirty or clean, keeps the invariant and loses no content |
| `PoolModel.LoadKeeps` | src/system/buffer_manager.cc:99-102 | Loading a page into a free frame keeps the invariant; the content gains at most zero pages at the end of the file |
| `PoolModel.MissKeeps` | src/system/buffer_manager.cc:90-103 | A whole miss: invariant kept, content as by a plain read, the page is in the chosen frame with its logical bytes, no pinned frame lost its page |
| `PoolModel.HitKeeps` | src/system/buffer_manager.cc:104-107 | A hit: invariant kept, content unchanged, the frame returned holds the logical bytes of the page |
| `BufferManagers.BufferManager.WrittenHeld` | src/storage/page.cc:31-54 | Whatever a caller writes through a page it holds changes the content of that page of that file and nothing else |
| `BufferManagers.BufferManager.HeldData` | src/system/buffer_manager.cc:84-109 | The bytes of a held page are its content, and stay so whatever else the pool does |
| `BufferManagers.BufferManager.Unpin` | src/storage/page.h:39-42 | Releasing a page changes no content |
| `BufferManagers.BufferManager.Flush` | src/system/buffer_manager.cc:48-58 | With no page pinned, the files on disk become equal to what the callers of the pool see, and that does not change |
| `PoolModel.FlushFrameKeeps` | src/system/buffer_manager.cc:52-57 | Writing back one frame keeps the invariant and the content and leaves the frame clean |
| `PoolModel.CleanViewIsDisk` | src/system/buffer_manager.cc:48-58 | With every frame clean, disk and content agree |
| `BufferManagers.Reopen` | src/system/buffer_manager.cc:42-58 | After a flush, a new pool of any size over the same files sees every write made before |
| `BufferManagers.BufferManager.constructor` | src/system/buffer_manager.cc:26-40 | A new pool shows the files as they are on disk |
| `PoolModel.Handover` | src/storage/heap_file/heap_file.cc:22 | Opening a second page and then releasing the first, as replacing a page object does, leaves exactly the second acquired |
| `Pages.FileManager.ReadPage` | src/system/file_manager.cc:32-56 | The bytes read are those of the page; a page past the end is zeros and the file grows up to it |
| `Pages.Offsets` | src/system/file_manager.cc:24-44 | The largest number of pages whose file has a length of less than 2^31 bytes |
| `Pages.FileManager.Flush` | src/system/file_manager.cc:22-30 | Exactly the page named is replaced on disk, and the frame is clean |
| `Pages.Page.Reassign` | src/storage/page.h:68-76 | Takes the new page, pinned once, with a second chance |
| `Pages.Page.Write` | src/storage/page.cc:31-35 | The bytes from the offset on are replaced, the others stay, and the page is dirty |
| `Pages.Page.WriteInt32` | src/storage/page.cc:44-48 | The four bytes written read back as the number, and the others stay |
| `Pages.Page.WriteInt64` | src/storage/page.cc:50-54 | The eight bytes written read back as the number, and the others stay |
| `Bytes.Enc32` | src/storage/page.cc:15-21 | Every 32-bit number reads back from its bytes |
| `Bytes.Enc64` | src/storage/page.cc:23-29 | Every 64-bit number, negative ones too, reads back from its bytes |
| `Bytes.Enc64Dec64` | src/storage/page.cc:23-29 | Every eight bytes are the encoding of the number read from them |
| `Bytes.Dec32Bytes` | src/storage/page.cc:15-21 | Which number four bytes are: lowest first, the sign in the last |
| `Bytes.Dec64Bytes` | src/storage/page.cc:23-29 | Which number eight bytes are |
| `Values.ParseOfEnc` | src/storage/heap_file/heap_file_page.cc:53-71 | Wherever the bytes of a record stand in a page, reading gives back that record and ends behind it |
| `Values.EncOfParse` | src/storage/heap_file/heap_file_page.cc:124-142 | The converse: the bytes a record was read from are exactly the bytes writing it would produce |
| `Values.RecordBytes` | src/storage/heap_file/heap_file_page.cc:124-142 | A record of an integer and a string as bytes: eight for the integer, then the length and the characters |
| `HeapFilePages.RecordSize` | src/storage/heap_file/heap_file_page.cc:81-94 | The size computed is the number of bytes the record takes |
| `HeapFilePages.HeapFilePage.TryInsertRecord` | src/storage/heap_file/heap_file_page.cc:80-144 | Succeeds exactly if there is room; the record is then in the first slot without one, or a new one, all other slots read back as before, the free space shrinks by exactly what was used and the layout holds; otherwise the page is untouched |
| `HeapFilePages.FitsExact` | src/storage/heap_file/heap_file_page.cc:96-117 | There is room exactly if some page comes from this one by storing the record in a slot that is deleted or new |
| `HeapFilePages.FitsNumbers` | src/storage/heap_file/heap_file_page.cc:102-115 | In numbers: the record has to fit the free space, and where no slot is deleted, four bytes more |
| `SlottedPages.StoredBytes` | src/storage/heap_file/heap_file_page.cc:117-142 | Where an insertion puts the record, its offset, and the header, as bytes of the page |
| `SlottedPages.BlankBytes` | src/storage/heap_file/heap_file_page.cc:10-17 | The header of a page without slots as bytes |
| `SlottedPages.FreeSpaceBytes` | src/storage/heap_file/heap_file_page.cc:15 | The free space of such a page as bytes |
| `SlottedPages.RecordsApart` | src/storage/heap_file/heap_file_page.cc:117-142 | No byte of a page belongs to two live records, and all their bytes are behind the directory and the free space |
| `HeapFilePages.HeapFilePage.FindSlot` | src/storage/heap_file/heap_file_page.cc:96-100 | The first slot without a record, or the number of slots |
| `HeapFilePages.HeapFilePage.GetRecord` | src/storage/heap_file/heap_file_page.cc:47-74 | Reads exactly the record of the slot into the buffer, or leaves the buffer alone if the slot is deleted |
| `HeapFilePages.HeapFilePage.DeleteRecord` | src/storage/heap_file/heap_file_page.cc:76-78 | The slot has no record any more, all others are unchanged and the layout holds |
| `HeapFilePages.HeapFilePage.Vacuum` | src/storage/heap_file/heap_file_page.cc:146-187 | The live records stay, in slot order and without gaps; the layout holds; free space is 4088 minus record sizes and slots, never less than before |
| `HeapFilePages.HeapFilePage.CompactSlot` | src/storage/heap_file/heap_file_page.cc:154-181 | One pass of the compaction copies the record of a live slot next to those copied before and skips a deleted one |
| `HeapFilePages.HeapFilePage.Initialise` | src/storage/heap_file/heap_file_page.cc:14-16 | A page of zeros becomes a page without records, any other stays |
| `HeapFilePages.WrittenIsStored` | src/storage/heap_file/heap_file_page.cc:109-142 | The five writes of an insertion touch neither the other slots nor the bytes of other records |
| `SlottedPages.StoreKeeps` | src/storage/heap_file/heap_file_page.cc:96-143 | Storing a record in a free slot keeps the layout (slots deleted or inside the page above the directory and free space, records disjoint, free space accounted for), and the table gains exactly that record |
| `SlottedPages.DeleteKeeps` | src/storage/heap_file/heap_file_page.cc:76-78 | Marking a slot deleted keeps the layout and removes exactly its record |
| `SlottedPages.CompactStep` | src/storage/heap_file/heap_file_page.cc:175-180 | Copying one more live record keeps the compacted copy a page with the layout |
| `SlottedPages.CompactRoom` | src/storage/heap_file/heap_file_page.cc:175-180 | The compacted copy never runs out of room: its free space stays at or above that of the page |
| `SlottedPages.CompactEnd` | src/storage/heap_file/heap_file_page.cc:183-185 | Writing the copy back with its header gives the layout and the table of the live records |
| `SlottedPages.BlankFits` | src/storage/heap_file/heap_file_page.cc:110-113 | A page without slots takes a record exactly if its size is at most 4084 bytes |
| `SlottedPages.TooLong` | src/storage/heap_file/heap_file_page.cc:102-115 | No page with the layout, with or without slots, takes a longer record |
| `HeapFiles.SearchEnds` | src/storage/heap_file/heap_file.cc:17-23 | The search for a page ends exactly for records whose size and a slot are at most 4088 bytes: no page of the file, and no page added to it, takes a longer one |
| `HeapFiles.HeapFile.InsertRecord` | src/storage/heap_file/heap_file.cc:12-24 | Terminates; the record goes to the first page with room from the last insertion page on, a new page only if none has room; the page reported is the new last insertion page; nothing else in the file or in other files changes. A second frame and a longer file are needed only if the first page, or every page, has no room |
| `HeapFiles.HeapFile.RoomEnough` | src/storage/heap_file/heap_file.cc:12-24 | Two frames and one more page are enough for every insertion |
| `HeapModel.InsertedMap` | src/storage/heap_file/heap_file.cc:12-24 | As a map from identifiers: the identifier returned had no record, now has this one, and all others have what they had |
| `HeapFiles.HeapFile.GetRecord` | src/storage/heap_file/heap_file.cc:45-48 | Reads the record with that identifier, or leaves the buffer alone; the file does not change |
| `HeapFiles.HeapFile.DeleteRecord` | src/storage/heap_file/heap_file.cc:30-33 | Exactly the record with that identifier goes away |
| `HeapFiles.HeapFile.Vacuum` | src/storage/heap_file/heap_file.cc:35-43 | Every page is compacted, other files stay, and insertion starts from page 0 again |
| `HeapModel.VacuumKeepsScan` | src/storage/heap_file/heap_file.cc:35-43 | A scan after vacuuming returns the same records in the same order as before |
| `HeapFiles.OpenPage` | src/storage/heap_file/heap_file_page.cc:10-17 | Opening a page returns it pinned; an existing one is unchanged, the one past the end becomes a page without records |
| `HeapFiles.HeapFile.VacuumPage` | src/storage/heap_file/heap_file.cc:38-41 | Compacting one page changes no other |
| `HeapFileIters.HeapFileIter.constructor` | src/storage/heap_file/heap_file_iter.cc:7-15 | A new scan is due to return all live records of the file; an empty file gets its first page |
| `HeapFileIters.HeapFileIter.Next` | src/storage/heap_file/heap_file_iter.cc:21-44 | Terminates; returns the first record still due, and get_current_RID is its identifier, or false exactly if none is due, and then none ever is. A second frame is needed only if the scan has to leave the current page |
| `HeapFileIters.HeapFileIter.Pass` | src/storage/heap_file/heap_file_iter.cc:24-41 | One pass of the loop skips a deleted slot, crosses a page boundary, finds the next record or ends, and makes progress |
| `HeapFileIters.HeapFileIter.Reset` | src/storage/heap_file/heap_file_iter.cc:46-50 | Starts again, over the number of pages counted when the scan was made |
| `HeapFileIters.RunScan` | src/bin/print_table.cc:45-53 | A whole scan returns exactly the live records of the file, each once, in increasing order of identifiers, with its own identifier |
| `HeapModel.ScanExact` | src/storage/heap_file/heap_file_iter.cc:21-54 | The records due at the start are exactly the live ones, each once, in increasing order |
| `HeapModel.StaleScan` | src/storage/heap_file/heap_file_iter.cc:46-50 | After a reset, the scan is complete exactly if no page added since it was made has a live record |
| `HeapModel.MissedRecord` | src/storage/heap_file/heap_file_iter.cc:46-50 | A file and a record for which it is not |
| `HeapModel.ScanOfEmptyPage` | src/storage/heap_file/heap_file_iter.cc:7-15 | A page without slots adds nothing |
| `StringKeys.SerializeStringKey` | src/storage/b_plus_tree/b_plus_tree.cc:10-20 | The loop computes the key of the first eight bytes |
| `StringKeys.KeyRange` | src/storage/b_plus_tree/b_plus_tree.cc:10-20 | Every key is a 64-bit number |
| `StringKeys.KeyIsBigEndian` | src/storage/b_plus_tree/b_plus_tree.cc:10-20 | The key is the big-endian number of the zero-padded first eight bytes exactly if none of them is 128 or more; otherwise it is negative |
| `StringKeys.KeyMonotone` | src/storage/b_plus_tree/b_plus_tree.cc:9-20 | For strings with no byte of 128 or more in front, strcmp order is kept by keys |
| `StringKeys.KeyOrder` | src/storage/b_plus_tree/b_plus_tree.cc:9-20 | The keys of any two strings compared byte by byte: a string with a byte of 128 or more among the first eight comes before one without; of two with, the one that lost fewer characters; otherwise what is left of the first eight bytes decides |
| `StringKeys.OrderKeptExact` | src/storage/b_plus_tree/b_plus_tree.cc:9-20 | Any two strings keep their order exactly if their keys are equal, that is the same characters are left of both, or that order of bytes agrees with strcmp |
| `StringKeys.OrderKeptIff` | src/storage/b_plus_tree/b_plus_tree.cc:9-20 | A string keeps its order against all strings without such a byte exactly if it has none itself, although UTF-8 strings are promised to work |
| `StringKeys.OrderKeptAscii` | src/storage/b_plus_tree/b_plus_tree.cc:9-20 | Two strings without such a byte keep their order |
| `StringKeys.OrderLost` | src/storage/b_plus_tree/b_plus_tree.cc:9-20 | Two UTF-8 strings that lose their order although both have such a byte |
| `StringKeys.KeyIsSpelled` | src/storage/b_plus_tree/b_plus_tree.cc:10-20 | The key of any string: the number spelled by its first eight bytes from the last one of 128 or more on, that one signed; all before it are wiped out |
| `StringKeys.KeyInjective` | src/storage/b_plus_tree/b_plus_tree.cc:9-20 | For any two strings, keys are equal exactly if as many characters are wiped out of both and the rest of the first eight bytes agrees |
| `StringKeys.KeyInjectiveAscii` | src/storage/b_plus_tree/b_plus_tree.cc:9-20 | If both strings have no byte of 128 or more among the first eight, keys are equal exactly if the first eight bytes agree |
| `StringKeys.OrNegative` | src/storage/b_plus_tree/b_plus_tree.cc:15-16 | Or-ing in a character of 128 or more wipes out the characters before it |
| `BPlusTreeNodes.RecOrder` | src/storage/b_plus_tree/b_plus_tree_utils.h:15-22 | Index records are totally ordered by key, then identifier |
| `IndexModel.ScanOrder` | src/storage/heap_file/rid.h:19-27 | Under one key, index records are ordered as a heap scan lists their records: by page, then by slot |
| `IndexModel.EqualKeysInScanOrder` | src/storage/b_plus_tree/b_plus_tree_utils.h:15-22 | Rows of equal key stand in an index in the order of the heap scan |
| `BPlusTreeNodes.RecBytes` | src/storage/b_plus_tree/b_plus_tree_dir.cc:37-51 | An index record as bytes: key, page, slot |
| `BPlusTreeNodes.TwoChildrenBytes` | src/storage/b_plus_tree/b_plus_tree_dir.h:13-19 | A directory of two children, byte by byte |
| `BPlusTreeNodes.TwoRecordsBytes` | src/storage/b_plus_tree/b_plus_tree_leaf.h:6-11 | A leaf of two records, byte by byte |
| `BPlusTreeNodes.Capacities` | src/storage/b_plus_tree/b_plus_tree_dir.h:25-39 | Directories and leaves hold as many records as fit a page, and no more fit |
| `BPlusTreeNodes.FullLeaf` | src/storage/b_plus_tree/b_plus_tree_leaf.h:19-20 | A leaf with 255 increasing records is in order |
| `BPlusTreeNodes.SetChild` | src/storage/b_plus_tree/b_plus_tree_dir.cc:33-35 | Setting a child changes that entry of the child array and neither the count nor any record |
| `BPlusTreeNodes.SetSep` | src/storage/b_plus_tree/b_plus_tree_dir.cc:46-51 | Setting a record changes that entry of the record array and neither the count nor any child |
| `BPlusTreeNodes.SetCount` | src/storage/b_plus_tree/b_plus_tree_dir.cc:24-26 | Setting the count changes no child and no record |
| `BPlusTreeNodes.SetLeafRec` | src/storage/b_plus_tree/b_plus_tree_leaf.cc:72-77 | Setting a leaf record changes that entry and neither the count nor the next leaf |
| `BPlusTreePages.BPlusTreeDir.GetRecord` | src/storage/b_plus_tree/b_plus_tree_dir.cc:38-44 | Reads the record back; at index -1 it may return anything, and no result depends on it |
| `BPlusTreePages.BPlusTreeDir.SearchChildIdx` | src/storage/b_plus_tree/b_plus_tree_dir.cc:67-81 | Terminates with the number of separators that are not greater than the record |
| `Routing.RankSplits` | src/storage/b_plus_tree/b_plus_tree_dir.cc:67-81 | In sorted separators, those before that number are at most the record and those from it on are greater |
| `Routing.SplitsIsRank` | src/storage/b_plus_tree/b_plus_tree_dir.cc:67-81 | It is the only index with that property |
| `BPlusTreePages.BPlusTreeDir.AbsorbInPlace` | src/storage/b_plus_tree/b_plus_tree_dir.cc:111-121 | The shift loop and the writes give the directory with the split inserted, sorted and within capacity, whatever is read at record index -1 |
| `BPlusTreePages.BPlusTreeDir.ShiftUp` | src/storage/b_plus_tree/b_plus_tree_dir.cc:113-116 | The loop moves the records and children behind the insertion point up by one and changes no other |
| `Routing.AbsorbRoutes` | src/storage/b_plus_tree/b_plus_tree_dir.cc:107-121 | Absorbing a split reroutes exactly the records of the child that split from the separator on, to the new page |
| `Routing.RangeRoutes` | src/storage/b_plus_tree/b_plus_tree_dir.cc:92-108 | A record is routed to a child exactly if it is in the range of that child, so the index found for the separator is that of the descent |
| `BPlusTreePages.BPlusTreeDir.AbsorbOverflowing` | src/storage/b_plus_tree/b_plus_tree_dir.cc:127-142 | In a full root the page and the two values kept aside are together the directory with the split inserted |
| `BPlusTreePages.BPlusTreeDir.FillLeft` | src/storage/b_plus_tree/b_plus_tree_dir.cc:148-155 | The new left directory has the first 102 records and 103 children |
| `BPlusTreePages.BPlusTreeDir.FillRight` | src/storage/b_plus_tree/b_plus_tree_dir.cc:157-170 | The new right directory has the last 102 records and 103 children, those kept aside at the end |
| `BPlusTreePages.BPlusTreeDir.BecomeParent` | src/storage/b_plus_tree/b_plus_tree_dir.cc:172-175 | The root has the middle record between the two new directories |
| `Routing.HalvesRoute` | src/storage/b_plus_tree/b_plus_tree_dir.cc:143-175 | Root and halves route every record as the conceptual directory of 205 records and 206 children |
| `Routing.HalvesKeepKids` | src/storage/b_plus_tree/b_plus_tree_dir.cc:143-175 | No child or record is lost or doubled by the split |
| `BPlusTrees.SplitRoot` | src/storage/b_plus_tree/b_plus_tree_dir.cc:143-175 | The root split over the pool: two new pages at the end of the directory file, the root rewritten, every other page and file unchanged |
| `BPlusTrees.AbsorbSplit` | src/storage/b_plus_tree/b_plus_tree_dir.cc:107-176 | A good tree one of whose children under the root has split is good again once the root absorbs the split, in place or, needing two more pages and frames, by splitting itself; its leaves are those before with those of the two halves in the place of those of the child |
| `TreeSplits.AbsorbBelow` | src/storage/b_plus_tree/b_plus_tree_dir.cc:107-121 | A directory with room at any depth absorbs the split of a child in place: the whole tree is good again, its leaves are those before with those of the two halves in the place of those of the child, and no other file changes |
| `TreeSplits.AbsorbAt` | src/storage/b_plus_tree/b_plus_tree_dir.cc:107-121 | The tree stays good from the root down as long as no page serves as two of its directories |
| `TreeSplits.SplitAtLeaves` | src/storage/b_plus_tree/b_plus_tree_dir.cc:107-121 | The leaves left and right of the child that split stay where they are |
| `TreeSplits.RootSplitDistinct` | src/storage/b_plus_tree/b_plus_tree_dir.cc:143-175 | After a root split of a good tree no page serves as two of its directories, if none did before |
| `BPlusTrees.AbsorbedDir` | src/storage/b_plus_tree/b_plus_tree_dir.cc:107-121 | A directory of any level that absorbed a split of a child is good for the range it had |
| `BPlusTreeModel.AbsorbGood` | src/storage/b_plus_tree/b_plus_tree_dir.cc:107-121 | Separators and ranges of the children stay in step when a child is replaced by its halves |
| `BPlusTreeModel.AbsorbNeedsGood` | src/storage/b_plus_tree/b_plus_tree_dir.cc:107-121 | The converse: the directory with the halves is good only if the split was good and so were the other children |
| `BPlusTreeModel.CutGood` | src/storage/b_plus_tree/b_plus_tree_dir.cc:143-175 | Both sides of a cut at a separator are good directories for their ranges |
| `BPlusTrees.SearchLeaf` | src/storage/b_plus_tree/b_plus_tree_dir.cc:53-65 | Terminates on every good tree, at the leaf the record is routed to, with the position its search returns; all pages opened on the way are released |
| `BPlusTreeModel.FindBrackets` | src/storage/b_plus_tree/b_plus_tree_dir.cc:53-65 | That leaf is the only one the record can be in: all records to its left are less, all to its right are greater |
| `BPlusTreeModel.FindIsRank` | src/storage/b_plus_tree/b_plus_tree_dir.cc:53-81 | The separators chosen level by level give the position of that leaf among all leaves |
| `BPlusTreeModel.GoodIncreasing` | src/storage/b_plus_tree/b_plus_tree_dir.cc:53-81 | The leaves of a good tree hold their records in strictly increasing order from left to right |
| `BPlusTreePages.BPlusTreeLeaf.SearchIndex` | src/storage/b_plus_tree/b_plus_tree_leaf.cc:79-103 | On a leaf with records, the least index of a record not less than the one sought, or their number, reading only indices of records; on a leaf without, 0 or 1, depending on what the unused first slot holds |
| `BPlusTrees.EmptyLeafSearch` | src/storage/b_plus_tree/b_plus_tree_leaf.cc:98-102 | A leaf of zeros for which the answer is 1 |
| `Routing.LowerBoundSplits` | src/storage/b_plus_tree/b_plus_tree_leaf.h:67-71 | From that index on no record is less |
| `Routing.LowerBoundFinds` | src/storage/b_plus_tree/b_plus_tree_leaf.cc:26-31 | The record is in the leaf exactly if it stands at that index |
| `BPlusTreePages.BPlusTreeLeaf.InsertRecord` | src/storage/b_plus_tree/b_plus_tree_leaf.cc:17-38 | A leaf without records takes the record; otherwise the leaf is unchanged and the answer says whether the record was taken for a duplicate, or where it would have to go |
| `Routing.DuplicateTestExact` | src/storage/b_plus_tree/b_plus_tree_leaf.cc:28-31 | The test for a duplicate is right exactly if the slot past the last record does not happen to hold the record |
| `Routing.LostInsertion` | src/storage/b_plus_tree/b_plus_tree_leaf.cc:28-31 | A leaf and a record for which it is wrong: the record is not in the leaf and would be dropped |
| `BPlusTrees.InsertInDir` | src/storage/b_plus_tree/b_plus_tree_dir.cc:87-105 | The descent of an insertion reaches the leaf the record is routed to, and only that leaf changes |
| `TreeInsertions.FillTree` | src/storage/b_plus_tree/b_plus_tree_leaf.cc:20-25 | A leaf without records that takes its first record leaves the tree good, the chain of leaves as it was, and puts the record in its place in the order |
| `TreeInsertions.LinkedDistinct` | src/storage/b_plus_tree/b_plus_tree_leaf.h:56 | No leaf comes twice in the chain |
| `Indexes.TwoLeaves` | src/storage/b_plus_tree/b_plus_tree_leaf.h:56 | What a root over two leaves is, page by page: it is in order exactly if the separator parts their records and they are chained |
| `TreeInsertions.OfferedKept` | src/storage/b_plus_tree/b_plus_tree_leaf.cc:17-38 | Once a record was offered to a tree its leaf has records, and no leaf that had records changed |
| `TreeInsertions.OneLeafOffered` | src/storage/b_plus_tree/b_plus_tree_leaf.cc:17-38 | In a tree of one leaf, the first record offered is the only one taken |
| `TreeInsertions.FirstComeMore` | src/storage/b_plus_tree/b_plus_tree_leaf.cc:17-38 | Records offered one after the other: each leaf that was empty has the first one routed to it, and nothing else has changed |
| `TreeInsertions.FirstForIs` | src/storage/b_plus_tree/b_plus_tree_leaf.cc:17-38 | Which one that is |
| `Indexes.BPlusTree.constructor` | src/storage/b_plus_tree/b_plus_tree.cc:22-33 | A new index is a tree of one leaf without records; an existing one is unchanged; no other file changes |
| `Indexes.BPlusTree.InsertRecord` | src/storage/b_plus_tree/b_plus_tree.cc:60-75 | The record identifier is inserted under the key of its value exactly if its leaf has no records: it is then in its place in the order, and the index stays good and keeps naming live records; otherwise the index is unchanged; no file but the leaf file changes |
| `Indexes.TreeAfterInsertion` | src/storage/b_plus_tree/b_plus_tree_dir.cc:87-105 | What the leaf did decides what became of the whole index |
| `Indexes.BPlusTreeIter.Reset` | src/storage/b_plus_tree/b_plus_tree_iter.cc:23-27 | The hits due are those of the whole index from the encoded minimum on, also if the first leaf has no records or only smaller ones |
| `Indexes.BPlusTreeIter.Begin` | src/storage/b_plus_tree/b_plus_tree_iter.cc:18-21 | The same, with the buffer set |
| `Indexes.BPlusTreeIter.Next` | src/storage/b_plus_tree/b_plus_tree_iter.cc:29-56 | Terminates; returns the first hit still due and its record in the buffer, or false exactly if none is due, and then none ever is |
| `Indexes.BPlusTreeIter.TakeRecord` | src/storage/b_plus_tree/b_plus_tree_iter.cc:31-47 | One record: it is returned, skipped, or ends the scan, and no hit is lost |
| `Indexes.BPlusTreeIter.NextPage` | src/storage/b_plus_tree/b_plus_tree_iter.cc:48-50 | Going to the next leaf of the chain loses no hit, across leaves without records |
| `Indexes.BPlusTreeIter.LeafDone` | src/storage/b_plus_tree/b_plus_tree_iter.cc:48-54 | At the end of a leaf, the next one in the chain is the next of the tree, and without one nothing is due |
| `Indexes.BPlusTreeIter.constructor` | src/storage/b_plus_tree/b_plus_tree.cc:35-58 | The bounds of the scan are encoded as for insertion, below and above all identifiers |
| `Indexes.RunScan` | src/bin/test_lab2.cc:60-73 | A whole scan returns, once each and in index order, exactly the index records whose value is between the bounds and whose key is between their keys; for an integer column, exactly those with minimum <= value <= maximum; no page stays pinned that was not, and no file changes but for zero pages of the leaf file |
| `IndexModel.HitsExact` | src/storage/b_plus_tree/b_plus_tree_iter.cc:29-56 | The hits are exactly those index records, in order, each once |
| `IndexModel.CompleteExact` | src/storage/b_plus_tree/b_plus_tree_iter.cc:29-56 | Whatever the bounds, a scan returns every matching record exactly if the bytes of all matching values stand in that order to those of the bounds |
| `IndexModel.CompleteKeys` | src/storage/b_plus_tree/b_plus_tree_iter.cc:29-56 | The same with the keys themselves |
| `IndexModel.CompleteGoodBounds` | src/storage/b_plus_tree/b_plus_tree_iter.cc:29-56 | Between bounds with no byte of 128 or more in front, exactly if no matching value has one |
| `IndexModel.BadMaximum` | src/storage/b_plus_tree/b_plus_tree.cc:40-53 | From a minimum with no such byte to a maximum with one, a scan returns nothing at all |
| `IndexModel.HitCutExact` | src/storage/b_plus_tree/b_plus_tree_iter.cc:36-39 | Whatever the bounds, a matching record is inside the encoded bounds exactly if its bytes stand to those of the bounds in the order of KeyOrder |
| `IndexModel.MetBytes` | src/storage/b_plus_tree/b_plus_tree_iter.cc:36-47 | What a scan asks of a value, in terms of its bytes and those of the bounds |
| `IndexModel.GoodBounds` | src/storage/b_plus_tree/b_plus_tree.cc:40-53 | For bounds with no byte of 128 or more in front, a value between them has its key between theirs exactly if it has no such byte either |
| `IndexModel.MissedHit` | src/storage/b_plus_tree/b_plus_tree.cc:40-53 | A UTF-8 string between "a" and "z" that no such scan returns |
| `IndexModel.MissedByBound` | src/storage/b_plus_tree/b_plus_tree.cc:40-53 | A scan from "a" to a UTF-8 string does not return "b", which is between them |
| `IndexModel.BetweenKeys` | src/relational_model/value.cc:82-96 | For integers, and strings with no byte of 128 or more in front, a value between two others has a key between theirs |
| `Values.BetweenInts` | src/relational_model/value.cc:86-89 | An integer is between two others exactly if it is as a number, the bounds included |
| `Values.StrLessExact` | src/relational_model/value.cc:90-92 | A string comes before another exactly if it ends first or has the smaller byte where they first differ |
| `Values.BetweenStrings` | src/relational_model/value.cc:90-92 | A string is between two others exactly if it does not come before the lower one, nor the upper one before it, in that sense |
| `Values.BoundsBetween` | src/relational_model/value.cc:82-96 | The bounds of a range are in it if they are in order |
| `Values.TypesOrdered` | src/relational_model/value.cc:83-84 | Every string comes before every integer |
| `IndexModel.IntHit` | src/storage/b_plus_tree/b_plus_tree_iter.cc:36-47 | In an integer column a scan returns an index record exactly if its value is from the minimum to the maximum |
| `IndexModel.StartLosesNothing` | src/storage/b_plus_tree/b_plus_tree_iter.cc:23-27 | Starting at the place found and never looking at the minimum again gives the same hits |
| `IndexModel.NoHitsAbove` | src/storage/b_plus_tree/b_plus_tree_iter.cc:36-39 | Past the encoded maximum nothing is due |
| `Tables.InsertIndexed` | src/system/catalog.cc:198-208 | Insertion into a table and its index: the record is in the table under an identifier that was free, all others are as before, no other file changes. The index was offered the record under that identifier and the key of its value: if its leaf had no records the index has it in its place, otherwise the index is unchanged. An index that agreed with the table before still does if the leaf took the new index record |
| `Tables.InsertRecord` | src/system/catalog.cc:198-208 | The same for a table with or without an index, once it is found: the table gains the record under a free identifier, and an index, if there is one, is offered the index record for it |
| `Databases.Database.InsertRecord` | src/system/catalog.cc:193-209 | Insertion by table name: throws exactly if no table has the lower-case name, and then nothing changes; otherwise the first table of that name gains the record, its index, if it has one, was offered it and has it in its place exactly if its leaf had no records, and all tables and indexes stay in order, all others with the records they had |
| `IndexFills.FillIndex` | src/system/catalog.cc:270-275 | Filling an index from a scan of its table: the scan is used up, and the leaf of every record it was due to return has records afterwards: each leaf that was empty has exactly the first of them routed to it; a new index of one leaf has exactly the first record of the scan. The table and the other files are unchanged, index records name live records under their keys, and if the index gained as many records as the scan had, every record of the table is in it |
| `IndexFills.FeedOne` | src/system/catalog.cc:273-275 | One pass of that loop: the next record of the scan is offered to the index, and the scan goes on where it was although the index changes other pages of the pool |
| `Tables.IndexedLater` | src/system/catalog.cc:193-209 | Index records keep naming live records under their keys when the table grows |
| `Tables.CompleteLater` | src/system/catalog.cc:193-209 | An index of all live records that gains the new one is an index of all live records again |
| `Tables.ScanAnswers` | src/storage/b_plus_tree/b_plus_tree_iter.cc:29-56 | Where index and table agree, a live record is met by a scan exactly if its value is between the bounds and its key between their keys |
| `Tables.MetGood` | src/storage/b_plus_tree/b_plus_tree_iter.cc:44-47 | For a value and bounds with no byte of 128 or more in front, that is exactly if the value is between the bounds |
| `Tables.FirstRecord` | src/bin/test_lab2.cc:40-73 | From an empty disk to a scan: a new table with a new index and one record returns it exactly if its value is between the bounds and its key between their keys |
| `Catalogs.Restart` | src/system/catalog.cc:38-121 | A catalog saved and loaded again has the same tables, columns, datatypes, key columns and names, whatever a longer catalog left in the file; it is equal to the one saved exactly if every index file is named after its table |
| `CatalogFiles.CatalogBack` | src/system/catalog.cc:54-118 | Reading what the destructor wrote, followed by any bytes, gives back the tables |
| `CatalogFiles.ReopenExact` | src/system/catalog.cc:77 | Loading keeps an index exactly if its files bear the name of the table |
| `Catalogs.SuffixLost` | src/system/catalog.cc:268 | An index whose file name ends in that suffix comes back changed |
| `Catalogs.IndexAndRestart` | src/system/catalog.cc:259-268 | An index made by create_index comes back after a restart with the same key column, but its files are looked for without their suffix |
| `Reopening.IndexLost` | src/system/catalog.cc:72-82 | The index opened then, on files nothing was written to, has no records, so it is an index of its table exactly if the table has none |
| `Reopening.SuffixBytes` | src/storage/b_plus_tree/b_plus_tree.cc:25-26 | The two files of an index end in .dir and .leaf |
| `CatalogFiles.ReopenTwice` | src/system/catalog.cc:38-121 | Loading again loses nothing more |
| `CatalogFiles.TableBack` | src/system/catalog.cc:93-117 | One table reads back, and reading ends behind it |
| `CatalogFiles.ColumnsBack` | src/system/catalog.cc:96-100 | A list of columns reads back, and reading ends behind it |
| `CatalogFiles.OneTableBytes` | src/system/catalog.cc:88-119 | A catalog of one table as bytes: number of tables, name, number of columns, datatype and name of the column, index type |
| `CatalogFiles.IndexBytes` | src/system/catalog.cc:101-117 | No index is eight zero bytes; a B+ tree is the number 1 in eight bytes, and then its key column |
| `CatalogFiles.IndexRead` | src/system/catalog.cc:72-82 | A type whose four low bytes are the number 1 gives an index on the column read next, under the lower-case name; every other type gives none; it throws exactly if bytes are missing |
| `CatalogFiles.ToInt32Bytes` | src/system/catalog.cc:61-73 | Converting to a 32-bit type keeps the four low bytes |
| `CatalogFiles.LowerBytes` | src/system/catalog.cc:14-16 | Lower case has no capital letter, turns capital letters into small ones, and changes nothing else |
| `CatalogFiles.LowerMeets` | src/system/catalog.cc:14-16 | Two names are the same to the catalog exactly if they agree up to the case of letters |
| `CatalogFiles.FoundInAnyCase` | src/system/catalog.cc:28-36 | Where names are in lower case, as create_table makes them, a lookup finds a table exactly if its name is the one sought up to case |
| `CatalogFiles.FoundInAnyCaseExact` | src/system/catalog.cc:58-70 | For names read from a file: lookups find tables in any case exactly if every name in lower case is that of a table |
| `Catalogs.ReadInt64` | src/system/catalog.cc:123-137 | The eight bytes or-ed together are the 64-bit number they encode, over the whole signed range; a short read throws |
| `CatalogFiles.OrByte` | src/system/catalog.cc:128-130 | Or-ing in one more shifted byte appends it, the sign with the last |
| `Catalogs.WriteInt64` | src/system/catalog.cc:148-154 | The bytes shifted out are the encoding that reads back as the number |
| `CatalogFiles.Enc64Byte` | src/system/catalog.cc:150-152 | Each byte shifted and masked out is that byte of the encoding, for negative numbers too |
| `Catalogs.ReadString` | src/system/catalog.cc:139-146 | Reads a string, throws on a missing or negative length, and on a short one leaves the stream failed |
| `Catalogs.ReadColumns` | src/system/catalog.cc:60-64 | The loop reads the columns, and never succeeds on a stream that failed |
| `Catalogs.ReadTable` | src/system/catalog.cc:58-82 | A table is read exactly if all its parts are there; a string cut short makes a later read throw |
| `Catalogs.Catalog.Load` | src/system/catalog.cc:47-86 | Throws exactly if the file does not parse; otherwise the tables are those it describes, and every name finds the first table of that name |
| `Catalogs.Catalog.Save` | src/system/catalog.cc:88-121 | The file holds the encoding of the tables from its start, index type 1 and key column for an index, 0 without; what stood behind it stays |
| `Catalogs.Catalog.CreateTable` | src/system/catalog.cc:161-178 | Throws exactly if a table has the lower-case name, so for any name that differs from that of a table only in case; otherwise the table is added under it, without an index, and from then on its name is taken in every case |
| `Catalogs.Catalog.GetTablePos` | src/system/catalog.cc:28-36 | The first table with the lower-case name, and throws exactly if there is none; the name found agrees with the one sought up to case |
| `Catalogs.Catalog.TableExists` | src/system/catalog.cc:226-230 | True exactly if some table has the lower-case name; where names are in lower case, exactly if one agrees up to case |
| `Catalogs.Catalog.GetDatatype` | src/system/catalog.cc:232-247 | The datatype of the first column of that name in the first table of that name; throws exactly if there is none |
| `Catalogs.Catalog.CreateIndex` | src/system/catalog.cc:259-268 | Throws exactly if there is no such table or it has an index; otherwise that table, and no other, gets one, whose file names start with the lower-case name and ".bpt"; it is filled by IndexFills.FillIndex |
| `Catalogs.NamesUnique` | src/system/catalog.cc:70 | The names found are determined by the names of the tables |

## Left out

- Insertion into a leaf that has records, the split of a leaf, the split of a full directory below the root, and
  deletion from the index are not written in the repository (src/storage/b_plus_tree/b_plus_tree_leaf.cc:34,
  src/storage/b_plus_tree/b_plus_tree_leaf.cc:36, src/storage/b_plus_tree/b_plus_tree_dir.cc:124,
  src/storage/b_plus_tree/b_plus_tree_dir.cc:84). The model has their boundary: the outcome of a leaf insertion
  names the two missing cases, and a split is an input.
- For a leaf that has records the source falls off the end of a function that has to return a value
  (src/storage/b_plus_tree/b_plus_tree_leaf.cc:33-38), which is undefined behaviour. The model goes on as if the leaf
  had been left alone and no split had been returned: `BPlusTrees.InsertInDir`, `Indexes.BPlusTree.InsertRecord`,
  `Tables.InsertIndexed`, `Databases.Database.InsertRecord` and `IndexFills.FillIndex` say what happens then.
- Indexes.BPlusTree.InsertRecord: for a record that is live, which is what its callers pass; for a deleted one the code
  indexes whatever its buffer held before.
- Agreement of an index with its heap file under vacuuming or deletion: vacuuming renumbers records and deletion from
  the index does nothing, so there is none.
- BPlusTreePages.BPlusTreeDir, BPlusTreePages.BPlusTreeLeaf and HeapFilePages.HeapFilePage are values holding a
  reference to their page, because that is all the objects have; their destructors are the calls of `Unpin`.
- Handles are released at the places where the objects of the original go out of scope or are replaced.
- `fake_flush` drops dirty bits on purpose, to imitate a crash.
- Real system calls and their failures, paths, file descriptors and name collisions: the disk is a map from files to
  pages. Running out of memory for a string length found in a catalog file is not modelled either.
- Threads: the pool is sequential; `unpin` is outside its lock in the original.
- The memory of `Value` and its assignment operators, and `operator==` of values, which no modelled operation uses.
- Page integers are modelled little-endian, as they are on the machines the code is built for; bitwise or and shifts
  in the string key and the catalog are modelled bit by bit and by division.
- `Catalog::normalize`'s check of characters, which can never fail; lower case is that of ASCII.
- Catalogs.Catalog.CreateIndex: opens no files and fills no index, because the heap file of a table and its index are
  modelled on their own; the loop that fills the index is `IndexFills.FillIndex`.
- Programs in src/bin other than their scanning loops, and printing.
