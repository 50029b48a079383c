/** Filling a new index from its table (src/system/catalog.cc:270-275): a scan of the heap file goes on while
    the index it feeds changes other pages of the same pool. */
module IndexFills {
  import opened Bytes
  import opened Values
  import opened Pages
  import opened PoolModel
  import opened BufferManagers
  import opened HeapFilePages
  import opened HeapModel
  import opened HeapFileIters
  import opened BPlusTreeModel
  import opened BPlusTreeNodes
  import opened BPlusTreePages
  import opened BPlusTrees
  import opened TreeInsertions
  import opened IndexModel
  import opened Indexes
  import opened Tables

  /** The index and the scan stand on the same heap file, and both are in order. */
  ghost predicate Filling(bpt: BPlusTree, iter: HeapFileIter, out: Record)
    reads bpt, iter, bpt.recordBuf, out, bpt.heap.pool.Repr(), iter.heap.pool.Repr()
  {
    && iter.heap == bpt.heap && bpt.Valid() && iter.Valid() && iter.out == out && out != bpt.recordBuf
    && HasSchema(out.values, bpt.heap.schema) && HasSchema(bpt.recordBuf.values, bpt.heap.schema)
  }

  /** Every entry returned so far has an index record. */
  ghost predicate AllIndexed(es: seq<Rec>, done: seq<Entry>) {
    forall i :: 0 <= i < |done| ==> HasRid(es, done[i].rid)
  }

  lemma AllIndexedMore(es: seq<Rec>, es': seq<Rec>, done: seq<Entry>, e: Entry, n: nat, r: Rec)
    requires AllIndexed(es, done) && InsertedAt(es, es', n, r) && r.rid == e.rid
    ensures AllIndexed(es', done + [e])
  {
    assert es'[n] == r;
    forall i | 0 <= i < |done| ensures HasRid(es', done[i].rid) {
      assert HasRid(es, done[i].rid);
      var k :| 0 <= k < |es| && es[k].rid == done[i].rid;
      assert es'[if k < n then k else k + 1].rid == done[i].rid;
    }
  }

  /** After a whole scan, that is every live record. */
  lemma AllIndexedComplete(es: seq<Rec>, done: seq<Entry>, h: Heap)
    requires Narrow(h) && done == Scan(h) && AllIndexed(es, done)
    ensures Complete(es, h)
  {
    hide Lookup;
    ScanExact(h);
    forall rid: RID | Lookup(h, rid).Some? ensures HasRid(es, rid) {
      assert Entry(rid, Lookup(h, rid).value) in done;
    }
  }

  lemma ReleasedBelow(p: Pool, f: nat, k: nat)
    requires f < |p.frames| && p.frames[f].pins > 0 && k < |p.frames|
    ensures Released(p, f).frames[k].pid == p.frames[k].pid && Released(p, f).frames[k].pins <= p.frames[k].pins
    ensures k != f ==> Released(p, f).frames[k] == p.frames[k]
  {
  }

  /** The root of the index is held, without the pin of the scan. */
  lemma RootOfRest(bpt: BPlusTree, iter: HeapFileIter)
    requires bpt.Valid() && iter.Valid() && iter.heap == bpt.heap
    ensures var p, k := iter.Rest(), bpt.rootFrame;
            k < |p.frames| && p.frames[k].pid == PageId(bpt.dirFile, 0) && p.frames[k].pins > 0
  {
    hide Inv, Unpinned, PoolModel.View, HeapLaid, HeapOf, Narrow, TreeOk, Entries, LeavesOf, HasSchema;
    hide BufferManager.Abs, BufferManager.View;
    var pool, k := bpt.heap.pool, bpt.rootFrame;
    pool.AbsOfHeld(bpt.root.page, k, PageId(bpt.dirFile, 0));
    if iter.currentPage.Some? {
      pool.AbsOfHeld(iter.currentPage.value.page, iter.frame, PageId(bpt.heap.fileId, iter.currentPageNumber));
      ReleasedBelow(pool.Abs(), iter.frame, k);
    }
  }

  /** And the other way round. */
  lemma RootFromRest(bpt: BPlusTree, iter: HeapFileIter)
    requires iter.Valid() && iter.heap == bpt.heap
    requires var pool, k := bpt.heap.pool, bpt.rootFrame; k < |pool.frames| && pool.frames[k] == bpt.root.page
    requires var p, k := iter.Rest(), bpt.rootFrame;
             k < |p.frames| && p.frames[k].pid == PageId(bpt.dirFile, 0) && p.frames[k].pins > 0
    ensures bpt.heap.pool.Holds(bpt.root.page, bpt.rootFrame, PageId(bpt.dirFile, 0))
  {
    hide Inv, Unpinned, PoolModel.View, HeapLaid, HeapOf, Narrow;
    hide BufferManager.Abs, BufferManager.View;
    var pool, k := bpt.heap.pool, bpt.rootFrame;
    if iter.currentPage.Some? {
      pool.AbsOfHeld(iter.currentPage.value.page, iter.frame, PageId(bpt.heap.fileId, iter.currentPageNumber));
      ReleasedBelow(pool.Abs(), iter.frame, k);
    }
    pool.HoldsByAbs(bpt.root.page, k, PageId(bpt.dirFile, 0));
  }

  /** The next record of the scan. */
  method NextEntry(bpt: BPlusTree, iter: HeapFileIter, out: Record) returns (found: bool)
    requires Filling(bpt, iter, out) && Unpinned(iter.Rest()) > 1
    modifies iter, out, bpt.heap.pool.Repr()
    ensures Filling(bpt, iter, out) && Balanced(old(iter.Rest()), iter.Rest())
    ensures bpt.Index() == old(bpt.Index()) && bpt.heap.pool.View() == old(bpt.heap.pool.View())
    ensures bpt.heap.Content() == old(bpt.heap.Content())
    ensures found ==> -1 <= iter.currentPageRecordPos < SIZE && iter.currentPageNumber < MAX_PAGES
    ensures found ==> old(iter.Remaining()) == [Entry(iter.CurrentRID(), out.values)] + iter.Remaining()
    ensures !found ==> old(iter.Remaining()) == [] == iter.Remaining()
  {
    hide Inv, Unpinned, PoolModel.View, Balanced, HeapLaid, HeapOf, Narrow, TreeOk, Entries, LeavesOf, HasSchema;
    hide ScanFrom, SameTree, Released;
    hide BufferManager.Abs, BufferManager.View, HeapFileIter.Rest, HeapFileIter.Remaining;
    ghost var v, p0 := bpt.heap.pool.View(), iter.Rest();
    RootOfRest(bpt, iter);
    found := iter.Next();
    BalancedKeeps(p0, iter.Rest(), bpt.rootFrame);
    RootFromRest(bpt, iter);
    bpt.ValidAfter(v);
  }

  /** The scan's identifier goes to the index, under the pool that holds the scan's page. */
  method IndexEntry(bpt: BPlusTree, iter: HeapFileIter, out: Record, rid: RID)
    returns (o: LeafOutcome, ghost r: Rec, ghost n: nat)
    requires Filling(bpt, iter, out) && Unpinned(iter.Rest()) > Pins(bpt.tree)
    requires Lookup(bpt.heap.Content(), rid).Some?
    modifies bpt.recordBuf, bpt.heap.pool.Repr()
    ensures Filling(bpt, iter, out) && Balanced(old(iter.Rest()), iter.Rest())
    ensures bpt.heap.Content() == old(bpt.heap.Content()) && iter.Remaining() == old(iter.Remaining())
    ensures OnlyChanged(old(bpt.heap.pool.View()), bpt.heap.pool.View(), {bpt.leafFile})
    ensures r == RecOf(Lookup(bpt.heap.Content(), rid).value, rid, bpt.keyCol)
    ensures IndexGained(old(bpt.Index()), bpt.Index(), n, r, o)
    ensures IndexOffered(bpt.tree, old(bpt.heap.pool.View()), bpt.heap.pool.View(), bpt.dirFile, bpt.leafFile, r)
    ensures Indexed(old(bpt.Index()), bpt.heap.Content(), bpt.keyCol, bpt.heap.schema[bpt.keyCol]) ==>
              Indexed(bpt.Index(), bpt.heap.Content(), bpt.keyCol, bpt.heap.schema[bpt.keyCol])
  {
    hide Inv, Unpinned, PoolModel.View, Balanced, HeapLaid, HeapOf, Narrow, TreeOk, Entries, LeavesOf, HasSchema;
    hide ScanFrom, SameTree, Released, Acquired, Indexed, IndexGained, Lookup, Refused, LeafRecs, Pins, OnlyChanged;
    hide IndexOffered, RecOf;
    hide BufferManager.Abs, BufferManager.View, BPlusTree.LeafFor;
    ghost var pool, p0, p1, k := bpt.heap.pool, iter.Rest(), bpt.heap.pool.Abs(), iter.frame;
    ghost var pid := PageId(bpt.heap.fileId, iter.currentPageNumber);
    UnpinnedRest(iter);
    o, r, n := bpt.InsertRecord(rid);
    if iter.currentPage.Some? {
      AcquiredThenBalanced(p0, p1, pool.Abs(), k, pid);
      AcquiredHolds(p0, pool.Abs(), k, pid);
      pool.HoldsByAbs(iter.currentPage.value.page, k, pid);
      ReleaseBalances(p0, pool.Abs(), k, pid);
    }
  }

  /** The page of the scan takes at most one frame. */
  lemma UnpinnedRest(iter: HeapFileIter)
    requires iter.Valid()
    ensures Unpinned(iter.heap.pool.Abs()) >= Unpinned(iter.Rest()) - 1
    ensures iter.currentPage.Some? ==>
              Acquired(iter.Rest(), iter.heap.pool.Abs(), iter.frame, PageId(iter.heap.fileId, iter.currentPageNumber))
  {
    hide Inv, Unpinned, PoolModel.View, HeapLaid, HeapOf, Narrow, Released, Acquired;
    hide BufferManager.Abs, BufferManager.View;
    var pool, p1, k := iter.heap.pool, iter.heap.pool.Abs(), iter.frame;
    if iter.currentPage.Some? {
      var pid := PageId(iter.heap.fileId, iter.currentPageNumber);
      pool.AbsOfHeld(iter.currentPage.value.page, k, pid);
      AcquiredLast(p1, k);
      UnpinnedAcquired(iter.Rest(), p1, k, pid);
    }
  }

  lemma RemainingLive(iter: HeapFileIter, e: Entry)
    requires iter.Valid() && e in iter.Remaining()
    ensures Lookup(iter.heap.Content(), e.rid) == Some(e.row)
  {
    hide Inv, Unpinned, PoolModel.View, HeapLaid, HeapOf, Narrow, Lookup;
    hide BufferManager.Abs, BufferManager.View;
    ScanFromExact(iter.heap.Content(), iter.currentPageNumber, iter.currentPageRecordPos + 1, iter.totalPages, e);
  }

  /** What one pass of the loop does to the index and to what is left of the scan. */
  ghost predicate Fed(due: seq<Entry>, due': seq<Entry>, es: seq<Rec>, es': seq<Rec>, e: Entry, o: LeafOutcome,
                      r: Rec, n: nat) {
    due == [e] + due' && r.rid == e.rid && IndexGained(es, es', n, r, o)
  }

  /** One pass of the loop. */
  method FeedOne(bpt: BPlusTree, iter: HeapFileIter, out: Record)
    returns (found: bool, ghost e: Entry, ghost o: LeafOutcome, ghost r: Rec, ghost n: nat)
    requires Filling(bpt, iter, out) && Unpinned(iter.Rest()) > 1 && Unpinned(iter.Rest()) > Pins(bpt.tree)
    requires Indexed(bpt.Index(), bpt.heap.Content(), bpt.keyCol, bpt.heap.schema[bpt.keyCol])
    modifies iter, out, bpt.recordBuf, bpt.heap.pool.Repr()
    ensures Filling(bpt, iter, out) && Balanced(old(iter.Rest()), iter.Rest())
    ensures bpt.heap.Content() == old(bpt.heap.Content())
    ensures OnlyChanged(old(bpt.heap.pool.View()), bpt.heap.pool.View(), {bpt.leafFile})
    ensures Indexed(bpt.Index(), bpt.heap.Content(), bpt.keyCol, bpt.heap.schema[bpt.keyCol])
    ensures found ==> Fed(old(iter.Remaining()), iter.Remaining(), old(bpt.Index()), bpt.Index(), e, o, r, n)
    ensures found ==> r == RecOf(e.row, e.rid, bpt.keyCol)
    ensures found ==>
      IndexOffered(bpt.tree, old(bpt.heap.pool.View()), bpt.heap.pool.View(), bpt.dirFile, bpt.leafFile, r)
    ensures !found ==> old(iter.Remaining()) == [] == iter.Remaining()
    ensures !found ==> bpt.Index() == old(bpt.Index()) && bpt.heap.pool.View() == old(bpt.heap.pool.View())
  {
    hide Inv, Unpinned, PoolModel.View, Balanced, HeapLaid, HeapOf, Narrow, TreeOk, Entries, LeavesOf, HasSchema;
    hide ScanFrom, Released, Indexed, IndexGained, Lookup, Pins, OnlyChanged, IndexOffered, RecOf;
    hide BufferManager.Abs, BufferManager.View, HeapFileIter.Rest, HeapFileIter.Remaining;
    ghost var p0, v0, h := iter.Rest(), bpt.heap.pool.View(), bpt.heap.Content();
    forall d | d in iter.Remaining() ensures Lookup(h, d.rid) == Some(d.row) {
      RemainingLive(iter, d);
    }
    ghost var due := iter.Remaining();
    NothingChanged(v0, {bpt.leafFile});
    e, o, r, n := Entry(RID(0, 0), []), Duplicate, Rec(0, RID(0, 0)), 0;
    found := NextEntry(bpt, iter, out);
    if found {
      var rid := iter.CurrentRID();
      e := Entry(rid, out.values);
      assert e in due;
      ghost var p1 := iter.Rest();
      UnpinnedBalanced(p0, p1);
      o, r, n := IndexEntry(bpt, iter, out, rid);
      BalancedTransitive(p0, p1, iter.Rest());
    }
  }

  lemma NothingChanged(v: Files, fs: set<FileId>)
    ensures OnlyChanged(v, v, fs)
  {
  }

  /** The entry just fed is indexed too, if its leaf took it. */
  lemma FedMore(due: seq<Entry>, done: seq<Entry>, rest: seq<Entry>, rest': seq<Entry>, es: seq<Rec>, es': seq<Rec>,
                e: Entry, o: LeafOutcome, r: Rec, n: nat)
    requires due == done + rest && Fed(rest, rest', es, es', e, o, r, n)
    ensures due == (done + [e]) + rest'
    ensures o.Accepted? && AllIndexed(es, done) ==> AllIndexed(es', done + [e])
  {
    hide AllIndexed, InsertedAt;
    Associative(done, [e], rest');
    if o.Accepted? && AllIndexed(es, done) {
      AllIndexedMore(es, es', done, e, n, r);
    }
  }

  /** The leaves of all these entries have records. */
  ghost predicate AllTaken(t: Tree, dirs: seq<Block>, leaves: seq<Block>, done: seq<Entry>, col: nat) {
    forall i :: 0 <= i < |done| ==> HasTaken(t, dirs, leaves, RecOf(done[i].row, done[i].rid, col))
  }

  /** The one index record of a tree of one leaf that was empty. */
  function FirstOnly(done: seq<Entry>, col: nat): seq<Rec> {
    if done == [] then [] else [RecOf(done[0].row, done[0].rid, col)]
  }

  /** The index records of these entries. */
  function RecsOf(done: seq<Entry>, col: nat): (rs: seq<Rec>)
    ensures |rs| == |done|
  {
    seq(|done|, i requires 0 <= i < |done| => RecOf(done[i].row, done[i].rid, col))
  }

  lemma RecsOfMore(done: seq<Entry>, e: Entry, col: nat)
    ensures RecsOf(done + [e], col) == RecsOf(done, col) + [RecOf(e.row, e.rid, col)]
  {
  }

  /** What the loop has done to the index, between the states v and w of the files, with the entries done: each leaf
      without records has taken the first record routed to it, and nothing else has changed. */
  ghost predicate FedAll(t: Tree, v: Files, w: Files, d: FileId, l: FileId, done: seq<Entry>, col: nat) {
    && d in v && l in v && l in w && FirstCome(t, v[d], v[l], w[l], RecsOf(done, col))
    && Kept(v[l], w[l]) && AllTaken(t, v[d], w[l], done, col)
    && (|LeavesOf(t)| == 1 && Entries(LeavesOf(t), v[l]) == [] ==> Entries(LeavesOf(t), w[l]) == FirstOnly(done, col))
  }

  lemma FedNone(t: Tree, v: Files, d: FileId, l: FileId, col: nat)
    requires d in v && l in v
    ensures FedAll(t, v, v, d, l, [], col)
  {
    hide LeafRecs, LeafAt, LeavesOf, Entries;
  }

  lemma FedOneMore(t: Tree, v: Files, u: Files, w: Files, d: FileId, l: FileId, done: seq<Entry>, e: Entry, col: nat)
    requires FedAll(t, v, u, d, l, done, col) && d in u && u[d] == v[d]
    requires IndexOffered(t, u, w, d, l, RecOf(e.row, e.rid, col))
    ensures FedAll(t, v, w, d, l, done + [e], col)
  {
    hide LeafRecs, LeafAt, LeavesOf, Entries, Offered, HasTaken, EntriesOffered, RecOf, Kept, FirstCome, RecsOf;
    var r := RecOf(e.row, e.rid, col);
    FirstComeMore(t, v[d], v[l], u[l], w[l], RecsOf(done, col), r);
    RecsOfMore(done, e, col);
    OfferedKept(t, u[d], u[l], w[l], r);
    KeptBoth(v[l], u[l], w[l]);
    forall i | 0 <= i < |done| ensures HasTaken(t, v[d], w[l], RecOf(done[i].row, done[i].rid, col)) {
      KeptTaken(t, v[d], u[l], w[l], RecOf(done[i].row, done[i].rid, col));
    }
    if |LeavesOf(t)| == 1 {
      OneLeafOffered(t, u[d], u[l], w[l], r);
    }
  }

  lemma KeptBoth(u: seq<Block>, v: seq<Block>, w: seq<Block>)
    requires Kept(u, v) && Kept(v, w)
    ensures Kept(u, w)
  {
    hide LeafRecs, LeafAt;
  }

  /** The loop of create_index. The scan is used up, the table is untouched, and the index keeps naming its records.
      Every record of the table has been offered: its leaf has records now, and no leaf that had some has changed;
      in a new index, the first record of the table is the one that stays. If the index gained as many records as
      there are, every record of the table is in it. */
  method FillIndex(bpt: BPlusTree, iter: HeapFileIter, out: Record)
    requires Filling(bpt, iter, out) && Unpinned(iter.Rest()) > 1 && Unpinned(iter.Rest()) > Pins(bpt.tree)
    requires Narrow(bpt.heap.Content()) && iter.Remaining() == Scan(bpt.heap.Content())
    requires Indexed(bpt.Index(), bpt.heap.Content(), bpt.keyCol, bpt.heap.schema[bpt.keyCol])
    modifies iter, out, bpt.recordBuf, bpt.heap.pool.Repr()
    ensures Filling(bpt, iter, out) && Balanced(old(iter.Rest()), iter.Rest())
    ensures bpt.heap.Content() == old(bpt.heap.Content()) && iter.Remaining() == []
    ensures OnlyChanged(old(bpt.heap.pool.View()), bpt.heap.pool.View(), {bpt.leafFile})
    ensures Indexed(bpt.Index(), bpt.heap.Content(), bpt.keyCol, bpt.heap.schema[bpt.keyCol])
    ensures FedAll(bpt.tree, old(bpt.heap.pool.View()), bpt.heap.pool.View(), bpt.dirFile, bpt.leafFile,
                   Scan(old(bpt.heap.Content())), bpt.keyCol)
    ensures |LeavesOf(bpt.tree)| == 1 && old(bpt.Index()) == [] ==>
              bpt.Index() == FirstOnly(Scan(bpt.heap.Content()), bpt.keyCol)
    ensures |old(bpt.Index())| <= |bpt.Index()| <= |old(bpt.Index())| + |old(iter.Remaining())|
    ensures |bpt.Index()| == |old(bpt.Index())| + |old(iter.Remaining())| ==> Complete(bpt.Index(), bpt.heap.Content())
  {
    hide Inv, Unpinned, PoolModel.View, Balanced, HeapLaid, HeapOf, Narrow, TreeOk, Entries, LeavesOf, HasSchema;
    hide ScanFrom, Released, Indexed, IndexGained, Lookup, Pins, OnlyChanged, AllIndexed, Complete, Fed, FedAll;
    hide IndexOffered, RecOf, FirstOnly;
    hide BufferManager.Abs, BufferManager.View, HeapFileIter.Rest, HeapFileIter.Remaining;
    ghost var p0, v0, h, due := iter.Rest(), bpt.heap.pool.View(), bpt.heap.Content(), iter.Remaining();
    ghost var done: seq<Entry>, count, es0 := [], |bpt.Index()|, bpt.Index();
    BalancedReflexive(p0);
    NothingChanged(v0, {bpt.leafFile});
    NoneIndexed(bpt.Index());
    TreeFiles(bpt.tree, v0, bpt.dirFile, bpt.leafFile);
    FedNone(bpt.tree, v0, bpt.dirFile, bpt.leafFile, bpt.keyCol);
    var found := true;
    while found
      invariant Filling(bpt, iter, out) && Balanced(p0, iter.Rest()) && bpt.heap.Content() == h
      invariant OnlyChanged(v0, bpt.heap.pool.View(), {bpt.leafFile})
      invariant Indexed(bpt.Index(), h, bpt.keyCol, bpt.heap.schema[bpt.keyCol])
      invariant due == done + iter.Remaining() && (!found ==> iter.Remaining() == [])
      invariant FedAll(bpt.tree, v0, bpt.heap.pool.View(), bpt.dirFile, bpt.leafFile, done, bpt.keyCol)
      invariant count <= |bpt.Index()| <= count + |done|
      invariant |bpt.Index()| == count + |done| ==> AllIndexed(bpt.Index(), done)
      decreases |iter.Remaining()|, found
    {
      ghost var p1, v1, es, rest := iter.Rest(), bpt.heap.pool.View(), bpt.Index(), iter.Remaining();
      UnpinnedBalanced(p0, p1);
      ghost var e, o, r, n;
      found, e, o, r, n := FeedOne(bpt, iter, out);
      BalancedTransitive(p0, p1, iter.Rest());
      OnlyChangedBoth(v0, v1, bpt.heap.pool.View(), {bpt.leafFile}, {bpt.leafFile});
      assert {bpt.leafFile} + {bpt.leafFile} == {bpt.leafFile};
      if found {
        FedMore(due, done, rest, iter.Remaining(), es, bpt.Index(), e, o, r, n);
        FedCounts(rest, iter.Remaining(), es, bpt.Index(), e, o, r, n);
        NotDir(v0, v1, bpt.dirFile, bpt.leafFile);
        FedOneMore(bpt.tree, v0, v1, bpt.heap.pool.View(), bpt.dirFile, bpt.leafFile, done, e, bpt.keyCol);
        done := done + [e];
      }
    }
    assert due == done + [] == done;
    if |bpt.Index()| == count + |done| {
      AllIndexedComplete(bpt.Index(), done, h);
    }
    FedFirst(bpt.tree, v0, bpt.heap.pool.View(), bpt.dirFile, bpt.leafFile, done, bpt.keyCol);
  }

  lemma NotDir(v: Files, w: Files, d: FileId, l: FileId)
    requires OnlyChanged(v, w, {l}) && d in v && d != l
    ensures d in w && w[d] == v[d]
  {
  }

  lemma FedFirst(t: Tree, v: Files, w: Files, d: FileId, l: FileId, done: seq<Entry>, col: nat)
    requires FedAll(t, v, w, d, l, done, col)
    ensures l in v && l in w
    ensures |LeavesOf(t)| == 1 && Entries(LeavesOf(t), v[l]) == [] ==>
              Entries(LeavesOf(t), w[l]) == FirstOnly(done, col)
  {
    hide LeavesOf, Entries, AllTaken, Kept, FirstCome, RecsOf;
  }

  lemma FedCounts(due: seq<Entry>, due': seq<Entry>, es: seq<Rec>, es': seq<Rec>, e: Entry, o: LeafOutcome, r: Rec,
                  n: nat)
    requires Fed(due, due', es, es', e, o, r, n)
    ensures |due'| < |due| && |es'| == |es| + if o.Accepted? then 1 else 0
  {
  }

  lemma NoneIndexed(es: seq<Rec>)
    ensures AllIndexed(es, [])
  {
  }
}
