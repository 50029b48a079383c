/** A table with an index: insertion into both (src/system/catalog.cc:193-209), and what a range scan of the
    index then says about the table. */
module Tables {
  import opened Bytes
  import opened Values
  import opened Pages
  import opened PoolModel
  import opened BufferManagers
  import opened HeapFilePages
  import opened HeapModel
  import opened HeapFiles
  import opened BPlusTreeNodes
  import opened BPlusTreeModel
  import opened BPlusTreePages
  import opened BPlusTrees
  import opened TreeInsertions
  import opened IndexModel
  import opened Indexes

  /** Every live record has an index record. */
  ghost predicate Complete(es: seq<Rec>, h: Heap) {
    forall rid: RID :: Lookup(h, rid).Some? ==> HasRid(es, rid)
  }

  predicate HasRid(es: seq<Rec>, rid: RID) {
    exists i :: 0 <= i < |es| && es[i].rid == rid
  }

  /** As a map, h' is h with row under an identifier that was free. */
  ghost predicate RowGained(h: Heap, h': Heap, rid: RID, row: Row) {
    && Lookup(h, rid) == None && Lookup(h', rid) == Some(row)
    && forall q: RID :: q != rid ==> Lookup(h', q) == Lookup(h, q)
  }

  lemma RowGainedBy(h: Heap, h': Heap, rid: RID, row: Row)
    requires rid.page >= 0 && rid.slot >= 0 && Inserted(h, h', rid.page, rid.slot, row)
    ensures RowGained(h, h', rid, row) && Lookup(h', rid) == Some(row)
  {
    hide Inserted, Lookup;
    InsertedMap(h, h', rid.page, rid.slot, row);
  }

  /** Index records keep naming what they named when a record is stored in a free place. */
  lemma IndexedLater(es: seq<Rec>, h: Heap, h': Heap, col: nat, ty: DataType, p: nat, s: nat, row: Row)
    requires Indexed(es, h, col, ty) && Inserted(h, h', p, s, row) && p < 0x8000_0000 && s < 0x8000_0000
    ensures Indexed(es, h', col, ty)
  {
    hide KeyOf, Lookup, Inserted;
    InsertedMap(h, h', p, s, row);
    forall i | 0 <= i < |es| ensures IndexedOne(es[i], h', col, ty) {
      assert IndexedOne(es[i], h, col, ty);
    }
  }

  lemma CompleteLater(es: seq<Rec>, es': seq<Rec>, h: Heap, h': Heap, p: nat, s: nat, row: Row, n: nat, r: Rec)
    requires Inserted(h, h', p, s, row) && p < 0x8000_0000 && s < 0x8000_0000
    requires InsertedAt(es, es', n, r) && r.rid == RID(p, s) && Complete(es, h)
    ensures Complete(es', h')
  {
    hide Lookup, Inserted;
    InsertedMap(h, h', p, s, row);
    forall rid: RID | Lookup(h', rid).Some? ensures HasRid(es', rid) {
      if rid == r.rid {
        assert es'[n] == r;
      } else {
        assert HasRid(es, rid);
        var i :| 0 <= i < |es| && es[i].rid == rid;
        assert es'[if i < n then i else i + 1].rid == rid;
      }
    }
  }

  /** Where index and table agree, a scan answers for the table: a live record is found exactly if its value
      is between the bounds and its key between their keys. */
  lemma ScanAnswers(es: seq<Rec>, h: Heap, col: nat, t: DataType, min: Value, max: Value, rid: RID)
    requires Indexed(es, h, col, t) && Complete(es, h)
    requires Lookup(h, rid).Some? && col < |Lookup(h, rid).value|
    ensures Met(min, Lookup(h, rid).value[col], max) <==>
            exists i :: 0 <= i < |es| && es[i].rid == rid &&
              IndexModel.Hit(es[i], h, col, Some(MinRecord(min)), min, max)
  {
    hide Between, Lookup, KeyOf, RecLess, MinRecord, MaxRecord;
    assert HasRid(es, rid);
    var i :| 0 <= i < |es| && es[i].rid == rid;
    assert IndexedOne(es[i], h, col, t);
    if Met(min, Lookup(h, rid).value[col], max) {
      HitCutKeys(es[i], h, col, t, min, max);
    }
    forall k | 0 <= k < |es| && es[k].rid == rid && IndexModel.Hit(es[k], h, col, Some(MinRecord(min)), min, max)
      ensures Met(min, Lookup(h, rid).value[col], max)
    {
      assert IndexedOne(es[k], h, col, t);
      HitCutKeys(es[k], h, col, t, min, max);
    }
  }

  /** For good keys, exactly if its value is between the bounds. */
  lemma MetGood(min: Value, v: Value, max: Value)
    requires TypeOf(min) == TypeOf(v) == TypeOf(max) && Faithful(min) && Faithful(v) && Faithful(max)
    ensures Met(min, v, max) <==> Between(min, v, max)
  {
    hide KeyOf, Between, Faithful;
    if Between(min, v, max) {
      GoodBounds(v, min, max);
    }
  }

  lemma TreeOkElsewhere(t: Tree, v: Files, w: Files, d: FileId, l: FileId)
    requires TreeOk(t, v, d, l) && d in w && l in w && w[d] == v[d] && w[l] == v[l]
    ensures TreeOk(t, w, d, l)
  {
  }

  /** What an insertion into the heap file leaves alone: the files of the index. */
  lemma HeapInsertedFiles(v: Files, w: Files, file: FileId, ts: Schema, p: nat, s: nat, row: Row)
    requires FileInserted(v, w, file, ts, p, s, row)
    ensures file in v && file in w && Inserted(HeapOf(v[file], ts), HeapOf(w[file], ts), p, s, row)
    ensures OnlyChanged(v, w, {file})
  {
    hide HeapOf, Inserted;
  }

  /** The files of the index are the same in v and w. */
  ghost predicate SameFiles(bpt: BPlusTree, v: Files, w: Files) {
    && bpt.dirFile in v && bpt.leafFile in v && bpt.dirFile in w && bpt.leafFile in w
    && w[bpt.dirFile] == v[bpt.dirFile] && w[bpt.leafFile] == v[bpt.leafFile]
  }

  lemma RefusedNotAccepted(b: Block, r: Rec)
    ensures !Refused(b, r).Accepted?
  {
  }

  /** tables[table_pos].heap_file->insert_record, as the index sees it. */
  method StoreRow(bpt: BPlusTree, record: Row) returns (rid: RID)
    requires bpt.Valid() && bpt.heap.Valid() && HasSchema(record, bpt.heap.schema) && |Enc(record)| + 4 <= SIZE - 8
    requires bpt.heap.Room(|Enc(record)|)
    modifies bpt.heap.pool.Repr(), bpt.heap`lastInsertPage
    ensures bpt.Valid() && bpt.heap.Valid() && Balanced(old(bpt.heap.pool.Abs()), bpt.heap.pool.Abs())
    ensures rid.page >= 0 && rid.slot >= 0
    ensures Inserted(old(bpt.heap.Content()), bpt.heap.Content(), rid.page, rid.slot, record)
    ensures bpt.Index() == old(bpt.Index()) && SameFiles(bpt, old(bpt.heap.pool.View()), bpt.heap.pool.View())
    ensures OnlyChanged(old(bpt.heap.pool.View()), bpt.heap.pool.View(), {bpt.heap.fileId})
  {
    hide Inv, Unpinned, PoolModel.View, Balanced, HeapLaid, HeapOf, Entries, LeavesOf, TreeOk, HasSchema, Inserted;
    hide FileInserted, NoneFits, Enc;
    hide BufferManager.Abs, BufferManager.View;
    ghost var v, p0 := bpt.heap.pool.View(), bpt.heap.pool.Abs();
    TreeFiles(bpt.tree, v, bpt.dirFile, bpt.leafFile);
    bpt.heap.pool.AbsOfHeld(bpt.root.page, bpt.rootFrame, PageId(bpt.dirFile, 0));
    rid := bpt.heap.InsertRecord(record);
    ghost var w := bpt.heap.pool.View();
    HeapInsertedFiles(v, w, bpt.heap.fileId, bpt.heap.schema, rid.page, rid.slot, record);
    BalancedKeeps(p0, bpt.heap.pool.Abs(), bpt.rootFrame);
    bpt.heap.pool.HoldsByAbs(bpt.root.page, bpt.rootFrame, PageId(bpt.dirFile, 0));
    TreeOkElsewhere(bpt.tree, v, w, bpt.dirFile, bpt.leafFile);
  }

  /** Insertion into a table with an index. The record is in the table under a new identifier; the index gains it
      if the leaf for it takes it, and then an index that agreed with the table still does. */
  method InsertIndexed(bpt: BPlusTree, record: Row) returns (rid: RID, o: LeafOutcome, ghost r: Rec, ghost n: nat)
    requires bpt.Valid() && bpt.heap.Valid() && HasSchema(record, bpt.heap.schema) && |Enc(record)| + 4 <= SIZE - 8
    requires bpt.heap.Room(|Enc(record)|)
    requires HasSchema(bpt.recordBuf.values, bpt.heap.schema) && Unpinned(bpt.heap.pool.Abs()) >= Pins(bpt.tree)
    modifies bpt.heap.pool.Repr(), bpt.heap`lastInsertPage, bpt.recordBuf
    ensures bpt.Valid() && bpt.heap.Valid() && Balanced(old(bpt.heap.pool.Abs()), bpt.heap.pool.Abs())
    ensures HasSchema(bpt.recordBuf.values, bpt.heap.schema)
    ensures OnlyChanged(old(bpt.heap.pool.View()), bpt.heap.pool.View(), {bpt.heap.fileId, bpt.leafFile})
    ensures RowGained(old(bpt.heap.Content()), bpt.heap.Content(), rid, record)
    ensures r == RecOf(record, rid, bpt.keyCol) && IndexGained(old(bpt.Index()), bpt.Index(), n, r, o)
    ensures IndexOffered(bpt.tree, old(bpt.heap.pool.View()), bpt.heap.pool.View(), bpt.dirFile, bpt.leafFile, r)
    ensures o.Accepted? <==> Takes(bpt.tree, old(bpt.heap.pool.View()), bpt.dirFile, bpt.leafFile, r)
    ensures o == if LeafRecs(old(bpt.LeafFor(r))) == [] then Accepted else Refused(old(bpt.LeafFor(r)), r)
    ensures Indexed(old(bpt.Index()), old(bpt.heap.Content()), bpt.keyCol, bpt.heap.schema[bpt.keyCol]) ==>
              Indexed(bpt.Index(), bpt.heap.Content(), bpt.keyCol, bpt.heap.schema[bpt.keyCol])
    ensures o.Accepted? && Complete(old(bpt.Index()), old(bpt.heap.Content())) ==>
              Complete(bpt.Index(), bpt.heap.Content())
  {
    hide Inv, Unpinned, PoolModel.View, OnlyChanged, Balanced, HeapLaid, HeapOf, Entries, LeavesOf, TreeOk, HasSchema;
    hide Inserted, Lookup, Indexed, Complete, IndexedOne, Pins, Refused, IndexGained, Enc, LeafRecs, RowGained;
    hide IndexOffered, RoutedLeaf, RecOf;
    hide BufferManager.Abs, BufferManager.View;
    ghost var p0, h, es, v0 := bpt.heap.pool.Abs(), bpt.heap.Content(), bpt.Index(), bpt.heap.pool.View();
    rid := StoreRow(bpt, record);
    ghost var p1, h', v1 := bpt.heap.pool.Abs(), bpt.heap.Content(), bpt.heap.pool.View();
    UnpinnedBalanced(p0, p1);
    RowGainedBy(h, h', rid, record);
    o, r, n := bpt.InsertRecord(rid);
    BalancedTransitive(p0, p1, bpt.heap.pool.Abs());
    RefusedNotAccepted(RoutedLeaf(bpt.tree, v0[bpt.dirFile], v0[bpt.leafFile], r), r);
    OfferedElsewhere(bpt.tree, v0, v1, bpt.heap.pool.View(), bpt.dirFile, bpt.leafFile, r);
    OnlyChangedBoth(v0, v1, bpt.heap.pool.View(), {bpt.heap.fileId}, {bpt.leafFile});
    assert {bpt.heap.fileId} + {bpt.leafFile} == {bpt.heap.fileId, bpt.leafFile};
    StillAgree(es, bpt.Index(), h, h', bpt.keyCol, bpt.heap.schema[bpt.keyCol], rid.page, rid.slot, record, n, r, o);
  }

  /** The files an insertion may change. */
  ghost function FilesOf(heap: HeapFile, index: BPlusTree?): set<FileId> {
    if index == null then {heap.fileId} else {heap.fileId, index.leafFile}
  }

  /** insert_record of the catalog, for a table with or without an index. The index is offered the record under its
      identifier and the key of its value. No other file changes. */
  method InsertRecord(heap: HeapFile, index: BPlusTree?, record: Row) returns (rid: RID)
    requires heap.Valid() && HasSchema(record, heap.schema) && |Enc(record)| + 4 <= SIZE - 8
    requires heap.Room(|Enc(record)|)
    requires index != null ==>
      && index.heap == heap && index.Valid() && HasSchema(index.recordBuf.values, heap.schema)
      && Unpinned(heap.pool.Abs()) >= Pins(index.tree)
    modifies heap.pool.Repr(), heap`lastInsertPage, if index == null then {} else {index.recordBuf}
    ensures heap.Valid() && Balanced(old(heap.pool.Abs()), heap.pool.Abs())
    ensures RowGained(old(heap.Content()), heap.Content(), rid, record)
    ensures OnlyChanged(old(heap.pool.View()), heap.pool.View(), FilesOf(heap, index))
    ensures index != null ==> index.Valid() && HasSchema(index.recordBuf.values, heap.schema)
    ensures index != null ==>
      IndexOffered(index.tree, old(heap.pool.View()), heap.pool.View(), index.dirFile, index.leafFile,
                   RecOf(record, rid, index.keyCol))
    ensures index != null && Complete(old(index.Index()), old(heap.Content())) &&
            Takes(index.tree, old(heap.pool.View()), index.dirFile, index.leafFile,
                  RecOf(record, rid, index.keyCol)) ==>
              Complete(index.Index(), heap.Content())
    ensures index != null &&
            Indexed(old(index.Index()), old(heap.Content()), index.keyCol, heap.schema[index.keyCol]) ==>
              Indexed(index.Index(), heap.Content(), index.keyCol, heap.schema[index.keyCol])
  {
    hide Inv, Unpinned, PoolModel.View, Balanced, HeapLaid, HeapOf, HasSchema, Inserted, Lookup, FileInserted;
    hide NoneFits, OnlyChanged, Indexed, IndexGained, Enc, RowGained, Complete, TreeOk, Entries, LeavesOf, Pins;
    hide Refused, LeafRecs, IndexOffered, RecOf, Takes;
    hide BufferManager.Abs, BufferManager.View, BPlusTree.LeafFor;
    if index != null {
      var o;
      ghost var r, n;
      rid, o, r, n := InsertIndexed(index, record);
    } else {
      ghost var v, h := heap.pool.View(), heap.Content();
      rid := heap.InsertRecord(record);
      HeapInsertedFiles(v, heap.pool.View(), heap.fileId, heap.schema, rid.page, rid.slot, record);
      RowGainedBy(h, heap.Content(), rid, record);
    }
  }

  lemma StillAgree(es: seq<Rec>, es': seq<Rec>, h: Heap, h': Heap, col: nat, ty: DataType, p: nat, s: nat, row: Row,
                   n: nat, r: Rec, o: LeafOutcome)
    requires Inserted(h, h', p, s, row) && p < 0x8000_0000 && s < 0x8000_0000 && r.rid == RID(p, s)
    requires IndexGained(es, es', n, r, o)
    requires Indexed(es, h', col, ty) ==> Indexed(es', h', col, ty)
    ensures Indexed(es, h, col, ty) ==> Indexed(es', h', col, ty)
    ensures o.Accepted? && Complete(es, h) ==> Complete(es', h')
  {
    hide Inserted, Indexed, Complete, InsertedAt;
    if Indexed(es, h, col, ty) {
      IndexedLater(es, h, h', col, ty, p, s, row);
    }
    if o.Accepted? && Complete(es, h) {
      CompleteLater(es, es', h, h', p, s, row, n, r);
    }
  }

  // ---------- a first record ----------

  /** A new table with a new index. */
  method CreateIndexed(frameCount: nat, schema: Schema, keyCol: nat) returns (bpt: BPlusTree)
    requires frameCount >= 4 && keyCol < |schema|
    ensures fresh(bpt) && fresh(bpt.heap) && fresh(bpt.heap.pool.Repr()) && fresh(bpt.recordBuf)
    ensures bpt.Valid() && bpt.heap.Valid() && bpt.heap.schema == schema && bpt.keyCol == keyCol && bpt.tree == NEW_TREE
    ensures HasSchema(bpt.recordBuf.values, schema) && Unpinned(bpt.heap.pool.Abs()) >= 3
    ensures bpt.heap.Blocks() == [] && bpt.Index() == []
  {
    hide Inv, PoolModel.View, TreeOk, Entries, LeavesOf, HasSchema, HeapOf, Acquired;
    hide BufferManager.Abs, BufferManager.View;
    var pool := new BufferManager(frameCount, map[0 := [], 1 := [], 2 := []]);
    AllUnpinned(pool.Abs(), frameCount);
    ghost var p0 := pool.Abs();
    var heap := new HeapFile(pool, schema, 0);
    bpt := new BPlusTree(heap, keyCol, 1, 2, NEW_TREE);
    UnpinnedAcquired(p0, pool.Abs(), bpt.rootFrame, PageId(1, 0));
  }

  function UnpinnedBelow(p: Pool, n: nat): set<nat>
    requires n <= |p.frames|
  {
    set k | 0 <= k < n && p.frames[k].pins == 0
  }

  lemma {:induction false} AllUnpinned(p: Pool, n: nat)
    requires n <= |p.frames| && forall k :: 0 <= k < |p.frames| ==> p.frames[k].pins == 0
    ensures |UnpinnedBelow(p, n)| == n && UnpinnedBelow(p, |p.frames|) == UnpinnedSet(p)
  {
    if n > 0 {
      AllUnpinned(p, n - 1);
      assert UnpinnedBelow(p, n) == UnpinnedBelow(p, n - 1) + {n - 1};
    }
  }

  /** A new index with one leaf has room for its first record. */
  lemma FirstLeaf(bpt: BPlusTree, r: Rec)
    requires bpt.Valid() && bpt.tree == NEW_TREE && bpt.Index() == []
    ensures LeafRecs(bpt.LeafFor(r)) == []
  {
    hide Inv, Unpinned, PoolModel.View, HeapLaid, LeafAt, LeafRecs, Good, Linked, LeavesOf, Entries, FindIdx;
    hide BufferManager.Abs, BufferManager.View;
    OneLeaf();
    EntriesOne(0, bpt.Leaves());
    var v := bpt.heap.pool.View();
    FoundBelow(bpt.tree, v[bpt.dirFile], v[bpt.leafFile], None, None, r);
  }

  /** The hits of an index with one record. */
  lemma OneHit(hits: seq<Rec>, r: Rec, rows: seq<Row>, row: Row, h: Heap, hit: bool)
    requires Increasing(hits) && (forall e :: e in hits <==> e == r && hit)
    requires RowsOfHits(rows, hits, h) && Lookup(h, r.rid) == Some(row)
    ensures rows == if hit then [row] else []
  {
    hide Lookup;
    if hit {
      assert r in hits && hits[0] in hits;
      if |hits| > 1 {
        assert hits[1] in hits;
        RecOrder(r, r, r);
      }
      assert rows == [row];
    } else {
      HasMember(hits);
    }
  }

  lemma HasMember<T>(s: seq<T>)
    ensures s == [] || exists e :: e in s
  {
    if s != [] {
      assert s[0] in s;
    }
  }

  /** The first record of a new table goes into the table and into its index. */
  method InsertFirst(bpt: BPlusTree, record: Row) returns (ghost r: Rec)
    requires bpt.Valid() && bpt.heap.Valid() && bpt.heap.Blocks() == [] && bpt.Index() == [] && bpt.tree == NEW_TREE
    requires HasSchema(record, bpt.heap.schema) && |Enc(record)| + 4 <= SIZE - 8
    requires HasSchema(bpt.recordBuf.values, bpt.heap.schema) && Unpinned(bpt.heap.pool.Abs()) > 1
    modifies bpt.heap.pool.Repr(), bpt.heap`lastInsertPage, bpt.recordBuf
    ensures bpt.Valid() && Balanced(old(bpt.heap.pool.Abs()), bpt.heap.pool.Abs())
    ensures bpt.Index() == [r] && Lookup(bpt.heap.Content(), r.rid) == Some(record)
    ensures Indexed(bpt.Index(), bpt.heap.Content(), bpt.keyCol, bpt.heap.schema[bpt.keyCol])
  {
    hide Inv, Unpinned, PoolModel.View, TreeOk, Entries, LeavesOf, HasSchema, HeapOf, Balanced, Lookup, Refused;
    hide KeyOf, Complete, Enc;
    hide BufferManager.Abs, BufferManager.View, BPlusTree.LeafFor;
    NewPins();
    forall r ensures LeafRecs(bpt.LeafFor(r)) == [] {
      FirstLeaf(bpt, r);
    }
    var rid, o;
    ghost var n;
    rid, o, r, n := InsertIndexed(bpt, record);
    assert bpt.Index() == [r];
  }

  /** A scan of an index with one record. */
  method ScanOne(bpt: BPlusTree, min: Value, max: Value, ghost r: Rec, ghost row: Row) returns (rows: seq<Row>)
    requires bpt.Valid() && bpt.Index() == [r] && Lookup(bpt.heap.Content(), r.rid) == Some(row)
    requires |row| == |bpt.heap.schema|
    requires Indexed(bpt.Index(), bpt.heap.Content(), bpt.keyCol, bpt.heap.schema[bpt.keyCol])
    requires TypeOf(min) == TypeOf(max) == bpt.heap.schema[bpt.keyCol]
    requires Unpinned(bpt.heap.pool.Abs()) > Pins(bpt.tree)
    modifies bpt.heap.pool.Repr()
    ensures rows == if Met(min, row[bpt.keyCol], max) then [row] else []
  {
    hide Inv, Unpinned, PoolModel.View, TreeOk, Entries, LeavesOf, HasSchema, HeapLaid, HeapOf, Lookup, Met;
    hide MinRecord, MaxRecord, Indexed, RecLess, IndexModel.Hit, RowsOfHits, Increasing, Pins;
    hide Balanced, SameTree;
    hide BufferManager.Abs, BufferManager.View;
    var out := new Record(bpt.heap.schema);
    bpt.heap.pool.Undisturbed();
    var iter := new BPlusTreeIter(bpt, min, max);
    ghost var hits;
    rows, hits := RunScan(iter, out);
    FirstHit(bpt.Index(), r, bpt.heap.Content(), bpt.keyCol, bpt.heap.schema[bpt.keyCol], min, max, row);
    OneHit(hits, r, rows, row, bpt.heap.Content(), Met(min, row[bpt.keyCol], max));
  }

  /** src/bin/test_lab2.cc with one record: a new table, a new index, the record inserted into both, and a scan,
      which returns it exactly if its value is between the bounds and its key between their keys. */
  method FirstRecord(frameCount: nat, schema: Schema, keyCol: nat, record: Row, min: Value,
                     max: Value) returns (rows: seq<Row>)
    requires frameCount >= 4 && keyCol < |schema| && HasSchema(record, schema) && |Enc(record)| + 4 <= SIZE - 8
    requires TypeOf(min) == TypeOf(max) == schema[keyCol]
    ensures rows == if Met(min, record[keyCol], max) then [record] else []
  {
    hide Inv, Unpinned, PoolModel.View, TreeOk, Entries, LeavesOf, HasSchema, HeapOf, Balanced, Lookup, Met, Enc;
    hide Indexed;
    hide BufferManager.Abs, BufferManager.View;
    SchemaSize(record, schema);
    var bpt := CreateIndexed(frameCount, schema, keyCol);
    NewPins();
    ghost var p0 := bpt.heap.pool.Abs();
    ghost var r := InsertFirst(bpt, record);
    UnpinnedBalanced(p0, bpt.heap.pool.Abs());
    rows := ScanOne(bpt, min, max, r, record);
  }

  lemma SchemaSize(row: Row, ts: Schema)
    requires HasSchema(row, ts)
    ensures |row| == |ts|
  {
  }

  lemma NewPins()
    ensures Pins(NEW_TREE) == 1
  {
    assert PinsAll([Leaf(0)][1..]) == 0;
  }

  lemma FirstHit(es: seq<Rec>, r: Rec, h: Heap, col: nat, t: DataType, min: Value, max: Value, row: Row)
    requires es == [r] && Indexed(es, h, col, t) && Lookup(h, r.rid) == Some(row) && col < |row|
    ensures forall e :: e in es && IndexModel.Hit(e, h, col, Some(MinRecord(min)), min, max) <==>
              e == r && Met(min, row[col], max)
  {
    hide Between, Lookup, KeyOf, RecLess, MinRecord, MaxRecord;
    assert IndexedOne(es[0], h, col, t);
    if Matches(r, h, col, min, max) {
      HitCutKeys(r, h, col, t, min, max);
    }
  }
}
