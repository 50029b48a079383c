/** What the lost suffix of an index file does to a table: after a restart the index is opened on files that were
    never written (src/system/catalog.cc:268, src/system/catalog.cc:77,
    src/storage/b_plus_tree/b_plus_tree.cc:22-33). */
module Reopening {
  import opened Bytes
  import opened Values
  import opened Pages
  import opened PoolModel
  import opened BufferManagers
  import opened HeapModel
  import opened HeapFiles
  import opened BPlusTreeModel
  import opened Indexes
  import opened CatalogFiles
  import opened Catalogs
  import opened Tables

  /** ".dir" and ".leaf" */
  const DIR_SUFFIX: seq<byte> := [46, 100, 105, 114]
  const LEAF_SUFFIX: seq<byte> := [46, 108, 101, 97, 102]

  lemma SuffixBytes()
    ensures DIR_SUFFIX == ['.' as int, 'd' as int, 'i' as int, 'r' as int]
    ensures LEAF_SUFFIX == ['.' as int, 'l' as int, 'e' as int, 'a' as int, 'f' as int]
  {
  }

  /** The two files of an index, by their names. */
  predicate Named(names: map<seq<byte>, FileId>, base: seq<byte>) {
    base + DIR_SUFFIX in names && base + LEAF_SUFFIX in names
  }

  /** The files an index of that base name would be opened on exist but have no pages. */
  predicate Unwritten(names: map<seq<byte>, FileId>, base: seq<byte>, v: Files, heapFile: FileId) {
    && Named(names, base)
    && var d, l := names[base + DIR_SUFFIX], names[base + LEAF_SUFFIX];
       d in v && l in v && d != l && d != heapFile && l != heapFile && v[d] == v[l] == []
  }

  lemma EmptyComplete(h: Heap)
    ensures Complete([], h) <==> forall rid: RID :: Lookup(h, rid) == None
  {
    hide Lookup;
    if Complete([], h) {
      forall rid: RID ensures Lookup(h, rid) == None {
        assert Lookup(h, rid).Some? ==> HasRid([], rid);
      }
    }
  }

  /** create_index, a restart, and the index as the reopened catalog has it. Nothing was written under the name it
      looks for, so the index has no records, and it is an index of its table exactly if the table has none. */
  method IndexLost(c: Catalog, tableName: Name, keyCol: int32, heap: HeapFile, names: map<seq<byte>, FileId>)
    returns (ok: bool, c': Catalog, bpt: BPlusTree?)
    requires c.Valid() && AllSized(c.tables)
    requires heap.Sound() && 0 <= keyCol < |heap.schema| && Unpinned(heap.pool.Abs()) > 0
    requires Unwritten(names, Lower(tableName), heap.pool.View(), heap.fileId)
    modifies c`tables, c.file, heap.pool.Repr()
    ensures ok ==> Lower(tableName) in c.tableNameIdx && c.tableNameIdx[Lower(tableName)] < |c.tables|
    ensures ok ==>
      c.tables[c.tableNameIdx[Lower(tableName)]].index == Some(IndexInfo(keyCol, Lower(tableName) + SUFFIX))
    ensures ok ==> bpt != null && bpt.Valid() && bpt.heap == heap && bpt.Index() == []
    ensures ok ==> heap.Content() == old(heap.Content())
    ensures ok ==>
      (Complete(bpt.Index(), heap.Content()) <==> forall rid: RID :: Lookup(heap.Content(), rid) == None)
  {
    hide Inv, Unpinned, PoolModel.View, HeapLaid, HeapOf, Lower, NamesOk, EncCatalog, Complete, Lookup, TreeOk;
    hide BufferManager.Abs, BufferManager.View, BPlusTree.Valid, BPlusTree.Index;
    bpt := null;
    ok, c' := IndexAndRestart(c, tableName, keyCol);
    heap.pool.Undisturbed();
    if ok {
      var info := c'.tables[c.tableNameIdx[Lower(tableName)]].index.value;
      bpt := OpenUnwritten(heap, info, names);
    }
  }

  /** An index on files without pages. */
  method OpenUnwritten(heap: HeapFile, info: IndexInfo, names: map<seq<byte>, FileId>) returns (bpt: BPlusTree)
    requires heap.Sound() && 0 <= info.keyCol < |heap.schema| && Unpinned(heap.pool.Abs()) > 0
    requires Unwritten(names, info.base, heap.pool.View(), heap.fileId)
    modifies heap.pool.Repr()
    ensures bpt.Valid() && bpt.heap == heap && bpt.Index() == [] && heap.Content() == old(heap.Content())
    ensures Complete(bpt.Index(), heap.Content()) <==> forall rid: RID :: Lookup(heap.Content(), rid) == None
  {
    hide Inv, Unpinned, PoolModel.View, HeapLaid, HeapOf, Complete, Lookup, TreeOk, Acquired, Entries;
    hide BufferManager.Abs, BufferManager.View;
    bpt := new BPlusTree(heap, info.keyCol, names[info.base + DIR_SUFFIX], names[info.base + LEAF_SUFFIX], NEW_TREE);
    EmptyComplete(heap.Content());
  }
}
