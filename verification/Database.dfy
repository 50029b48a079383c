/** Several tables, with or without an index, on one buffer pool, found by name
    (src/system/catalog.cc:193-209). */
module Databases {
  import opened Bytes
  import opened Values
  import opened Pages
  import opened PoolModel
  import opened BufferManagers
  import opened HeapModel
  import opened HeapFiles
  import opened BPlusTreeModel
  import opened Indexes
  import opened CatalogFiles
  import opened Catalogs
  import Tables

  class Database {
    const pool: BufferManager
    const catalog: Catalog
    const heaps: seq<HeapFile>
    const indexes: seq<BPlusTree?>

    /** The files of table i. */
    ghost function FilesOf(i: nat): set<FileId>
      requires i < |heaps| == |indexes|
    {
      {heaps[i].fileId} + if indexes[i] == null then {} else {indexes[i].dirFile, indexes[i].leafFile}
    }

    /** No two tables share a heap file object, a file, or a record buffer. */
    ghost predicate Apart() {
      && |heaps| == |indexes|
      && (forall i :: 0 <= i < |heaps| ==> heaps[i].pool == pool)
      && (forall i :: 0 <= i < |heaps| && indexes[i] != null ==> indexes[i].heap == heaps[i])
      && (forall i, j :: 0 <= i < |heaps| && 0 <= j < |heaps| && i != j ==> TwoApart(i, j))
    }

    ghost predicate TwoApart(i: nat, j: nat)
      requires i < |heaps| == |indexes| && j < |heaps|
    {
      && heaps[i] != heaps[j] && FilesOf(i) !! FilesOf(j)
      && (indexes[i] != null && indexes[j] != null ==> indexes[i].recordBuf != indexes[j].recordBuf)
    }

    /** The record buffer of the index of table i. */
    ghost function BufferOf(i: nat): set<object>
      requires i < |indexes|
    {
      if indexes[i] == null then {} else {indexes[i].recordBuf}
    }

    ghost function Buffers(): set<object> {
      set i, o | 0 <= i < |indexes| && o in BufferOf(i) :: o
    }

    ghost predicate TableOk(i: nat)
      requires i < |heaps| && Apart()
      reads heaps[i], indexes[i], BufferOf(i), pool.Repr()
    {
      && heaps[i].Valid()
      && (indexes[i] != null ==> indexes[i].Valid() && HasSchema(indexes[i].recordBuf.values, heaps[i].schema))
    }

    ghost predicate Valid()
      reads catalog, catalog.file, heaps, indexes, Buffers(), pool.Repr()
    {
      && Apart() && pool.Valid() && catalog.Valid() && |catalog.tables| == |heaps|
      && forall i :: 0 <= i < |heaps| ==> TableOk(i)
    }

    constructor (pool: BufferManager, catalog: Catalog, heaps: seq<HeapFile>, indexes: seq<BPlusTree?>)
      ensures this.pool == pool && this.catalog == catalog && this.heaps == heaps && this.indexes == indexes
    {
      this.pool, this.catalog, this.heaps, this.indexes := pool, catalog, heaps, indexes;
    }

    /** What table i needs of the files and the pool to be in order, where v and p are their states. */
    ghost predicate Stands(i: nat, v: Files, p: Pool)
      requires i < |heaps| && Apart()
      reads heaps[i], indexes[i], BufferOf(i)
    {
      var heap, index := heaps[i], indexes[i];
      && heap.schema != [] && heap.fileId in v && HeapLaid(v[heap.fileId], heap.schema)
      && heap.lastInsertPage <= |v[heap.fileId]|
      && (index != null ==>
            && index.keyCol < |heap.schema| && heap.fileId != index.leafFile && heap.fileId != index.dirFile
            && TreeOk(index.tree, v, index.dirFile, index.leafFile)
            && index.rootFrame < |pool.frames| && pool.frames[index.rootFrame] == index.root.page
            && index.rootFrame < |p.frames| && p.frames[index.rootFrame].pid == PageId(index.dirFile, 0)
            && p.frames[index.rootFrame].pins > 0
            && HasSchema(index.recordBuf.values, heap.schema))
    }

    lemma StandsNow(i: nat)
      requires i < |heaps| && Apart() && pool.Valid() && TableOk(i)
      ensures Stands(i, pool.View(), pool.Abs())
    {
      hide Inv, Unpinned, PoolModel.View, HeapLaid, TreeOk, HasSchema;
      hide BufferManager.Abs, BufferManager.View;
      if indexes[i] != null {
        pool.AbsOfHeld(indexes[i].root.page, indexes[i].rootFrame, PageId(indexes[i].dirFile, 0));
      }
    }

    /** Where the records and the index records of table i are in v. */
    ghost function ContentIn(i: nat, v: Files): Heap
      requires i < |heaps| && Apart() && heaps[i].fileId in v
    {
      HeapOf(v[heaps[i].fileId], heaps[i].schema)
    }

    ghost function IndexIn(i: nat, v: Files): seq<BPlusTreeNodes.Rec>
      requires i < |heaps| && Apart() && indexes[i] != null && indexes[i].leafFile in v
      reads indexes[i]
    {
      Entries(LeavesOf(indexes[i].tree), v[indexes[i].leafFile])
    }

    /** A table whose files nobody has touched is as it was. */
    lemma StillStands(i: nat, v: Files, p: Pool, fs: set<FileId>)
      requires i < |heaps| && Apart() && pool.Valid() && Stands(i, v, p)
      requires OnlyChanged(v, pool.View(), fs) && fs !! FilesOf(i) && Balanced(p, pool.Abs())
      ensures TableOk(i) && Same(i, v, pool.View())
    {
      hide Inv, Unpinned, PoolModel.View, HeapLaid, HasSchema, HeapOf, Entries, LeavesOf, BPlusTreeModel.Good;
      hide IndexModel.Linked, Balanced;
      hide BufferManager.Abs, BufferManager.View;
      var heap, index := heaps[i], indexes[i];
      assert heap.fileId in FilesOf(i);
      if index != null {
        assert index.dirFile in FilesOf(i) && index.leafFile in FilesOf(i);
        BalancedKeeps(p, pool.Abs(), index.rootFrame);
        pool.HoldsByAbs(index.root.page, index.rootFrame, PageId(index.dirFile, 0));
      }
    }

    /** The records and the index records of table i are the same in v and w. */
    ghost predicate Same(i: nat, v: Files, w: Files)
      requires i < |heaps| && Apart()
      reads indexes[i]
    {
      && heaps[i].fileId in v && heaps[i].fileId in w && ContentIn(i, w) == ContentIn(i, v)
      && (indexes[i] != null ==>
            indexes[i].leafFile in v && indexes[i].leafFile in w && IndexIn(i, w) == IndexIn(i, v))
    }

    /** What the caller and the disk have to provide for an insertion into table k. */
    ghost predicate Accepts(k: nat, record: Row)
      requires k < |heaps| && Apart() && TableOk(k)
      reads heaps[k], indexes[k], BufferOf(k), pool.Repr()
    {
      && HasSchema(record, heaps[k].schema) && |Enc(record)| + 4 <= SIZE - 8 && heaps[k].Room(|Enc(record)|)
      && (indexes[k] != null ==> Unpinned(pool.Abs()) >= Pins(indexes[k].tree))
    }

    /** The records of table k gained one, between v and w. */
    ghost predicate Gained(k: nat, v: Files, w: Files, rid: RID, record: Row)
      requires k < |heaps| && Apart()
    {
      && heaps[k].fileId in v && heaps[k].fileId in w
      && Tables.RowGained(ContentIn(k, v), ContentIn(k, w), rid, record)
    }

    /** Its index, if it has one, was offered the record, and agrees with the table as it did before: always in that
        its records name live records under their keys, and if it took the record, also in that none is missing. */
    ghost predicate IndexGained(k: nat, v: Files, w: Files, rid: RID, record: Row)
      requires k < |heaps| && Apart()
      reads indexes[k]
    {
      var heap, index := heaps[k], indexes[k];
      index != null ==>
        var r := IndexModel.RecOf(record, rid, index.keyCol);
        && heap.fileId in v && heap.fileId in w && index.keyCol < |heap.schema|
        && IndexOffered(index.tree, v, w, index.dirFile, index.leafFile, r)
        && (IndexModel.Indexed(IndexIn(k, v), ContentIn(k, v), index.keyCol, heap.schema[index.keyCol]) ==>
              IndexModel.Indexed(IndexIn(k, w), ContentIn(k, w), index.keyCol, heap.schema[index.keyCol]))
        && (Takes(index.tree, v, index.dirFile, index.leafFile, r)
            && Tables.Complete(IndexIn(k, v), ContentIn(k, v)) ==>
              Tables.Complete(IndexIn(k, w), ContentIn(k, w)))
    }

    /** Every other table, and every index of another table, has the records it had. */
    ghost predicate OthersSame(k: nat, v: Files, w: Files)
      requires Apart()
      reads indexes
    {
      forall i :: 0 <= i < |heaps| && i != k ==> Same(i, v, w)
    }

    lemma OkAt(i: nat)
      requires Valid() && i < |heaps|
      ensures TableOk(i) && heaps[i].pool == pool
    {
    }

    lemma FilesApart(k: nat, i: nat)
      requires Apart() && k < |heaps| && i < |heaps| && i != k
      ensures Tables.FilesOf(heaps[k], indexes[k]) !! FilesOf(i) && heaps[i] != heaps[k] && BufferOf(i) !! BufferOf(k)
    {
      assert TwoApart(k, i);
      assert Tables.FilesOf(heaps[k], indexes[k]) <= FilesOf(k);
    }

    lemma BufferIn(k: nat)
      requires k < |indexes|
      ensures BufferOf(k) <= Buffers()
    {
    }

    /** insert_record: None if it throws because there is no table of that name; then nothing has changed.
        Otherwise the first table of that name has the record under an identifier that was free, and no other
        table, and no index of another table, has changed. */
    method InsertRecord(tableName: Name, record: Row) returns (rid: Option<RID>, ghost k: nat)
      requires Valid()
      requires forall i :: IsFirst(catalog.tables, Lower(tableName), i) ==> TableOk(i) && Accepts(i, record)
      modifies pool.Repr(), heaps`lastInsertPage, Buffers()
      ensures Valid() && Balanced(old(pool.Abs()), pool.Abs())
      ensures rid.None? <==> forall t :: t in catalog.tables ==> t.name != Lower(tableName)
      ensures LowerNames(catalog.tables) ==> (rid.None? <==> !HasNameButCase(catalog.tables, tableName))
      ensures rid.None? ==> pool.View() == old(pool.View())
      ensures rid.Some? ==> k < |heaps| && IsFirst(catalog.tables, Lower(tableName), k)
      ensures rid.Some? ==> Gained(k, old(pool.View()), pool.View(), rid.value, record)
      ensures rid.Some? ==> IndexGained(k, old(pool.View()), pool.View(), rid.value, record)
      ensures rid.Some? ==> OthersSame(k, old(pool.View()), pool.View())
    {
      hide Inv, Unpinned, PoolModel.View, Balanced, Enc, HasSchema;
      hide Same, Stands, TableOk, Lower, NamesOk, Gained, IndexGained, OthersSame, Accepts, TwoApart, Apart;
      hide HasNameButCase, SameButCase;
      hide BufferManager.Abs, BufferManager.View;
      ghost var p := pool.Abs();
      NewName(catalog.tables, tableName);
      var pos := FindTable(tableName, record);
      if pos.None? {
        BalancedReflexive(p);
        return None, 0;
      }
      k := pos.value;
      var r := InsertAt(pos.value, record);
      rid := Some(r);
    }

    /** get_table_pos. */
    method FindTable(tableName: Name, ghost record: Row) returns (pos: Option<nat>)
      requires Valid()
      requires forall i :: IsFirst(catalog.tables, Lower(tableName), i) ==> TableOk(i) && Accepts(i, record)
      ensures Valid() && pool.Abs() == old(pool.Abs()) && pool.View() == old(pool.View())
      ensures pos.Some? ==> IsFirst(catalog.tables, Lower(tableName), pos.value)
      ensures pos.Some? ==> TableOk(pos.value) && Accepts(pos.value, record)
      ensures pos.None? ==> forall t :: t in catalog.tables ==> t.name != Lower(tableName)
    {
      hide Inv, Unpinned, PoolModel.View, Enc, HasSchema, Lower, NamesOk, TwoApart, OnlyChanged, Balanced, Same;
      hide HeapLaid, TreeOk;
      hide BufferManager.Abs, BufferManager.View, BPlusTree.Valid, TableOk;
      ghost var v, p := pool.View(), pool.Abs();
      forall i | 0 <= i < |heaps| ensures Stands(i, v, p) {
        OkAt(i);
        StandsNow(i);
      }
      pos := catalog.GetTablePos(tableName);
      pool.Undisturbed();
      BalancedReflexive(p);
      NothingChanged(v);
      forall i | 0 <= i < |heaps| ensures TableOk(i) {
        assert old(Stands(i, v, p));
        StillStands(i, v, p, {});
      }
      if pos.Some? {
        assert old(TableOk(pos.value) && Accepts(pos.value, record));
        OkAt(pos.value);
      }
    }

    lemma NothingChanged(v: Files)
      ensures OnlyChanged(v, v, {})
    {
    }

    method InsertAt(k: nat, record: Row) returns (rid: RID)
      requires Valid() && k < |heaps| && Accepts(k, record)
      modifies pool.Repr(), heaps`lastInsertPage, Buffers()
      ensures Valid() && Balanced(old(pool.Abs()), pool.Abs())
      ensures Gained(k, old(pool.View()), pool.View(), rid, record)
      ensures IndexGained(k, old(pool.View()), pool.View(), rid, record)
      ensures OthersSame(k, old(pool.View()), pool.View())
    {
      hide Inv, Unpinned, PoolModel.View, HeapLaid, HasSchema, HeapOf, Entries, LeavesOf, TreeOk, Balanced, Enc;
      hide OnlyChanged, Same, Stands, TwoApart, BPlusTree.Valid, Tables.RowGained, Tables.FilesOf, HeapFile.Room;
      hide Gained, IndexGained, Accepts;
      hide BufferManager.Abs, BufferManager.View;
      ghost var v, p := pool.View(), pool.Abs();
      forall i | 0 <= i < |heaps| ensures Stands(i, v, p) {
        OkAt(i);
        StandsNow(i);
      }
      OkAt(k);
      BufferIn(k);
      rid := InsertHere(k, record);
      forall i | 0 <= i < |heaps| && i != k ensures TableOk(i) && Same(i, v, pool.View()) {
        FilesApart(k, i);
        StillStands(i, v, p, Tables.FilesOf(heaps[k], indexes[k]));
      }
    }

    /** Insertion into table k, as far as that table is concerned. */
    method InsertHere(k: nat, record: Row) returns (rid: RID)
      requires Apart() && k < |heaps| && pool.Valid() && TableOk(k) && Accepts(k, record)
      modifies pool.Repr(), {heaps[k]}`lastInsertPage, BufferOf(k)
      ensures pool.Valid() && TableOk(k) && Balanced(old(pool.Abs()), pool.Abs())
      ensures OnlyChanged(old(pool.View()), pool.View(), Tables.FilesOf(heaps[k], indexes[k]))
      ensures Gained(k, old(pool.View()), pool.View(), rid, record)
      ensures IndexGained(k, old(pool.View()), pool.View(), rid, record)
    {
      hide Inv, Unpinned, PoolModel.View, HeapLaid, HasSchema, HeapOf, Entries, LeavesOf, Balanced, Enc, OnlyChanged;
      hide IndexModel.Indexed, IndexOffered, Takes, Tables.Complete, Tables.RowGained, HeapFile.Room, TwoApart;
      hide Tables.FilesOf, BPlusTreeModel.Good, IndexModel.Linked;
      hide BufferManager.Abs, BufferManager.View;
      rid := Tables.InsertRecord(heaps[k], indexes[k], record);
    }
  }
}
