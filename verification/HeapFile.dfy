/** The heap file and its scan over the buffer pool (src/storage/heap_file/heap_file.cc,
    src/storage/heap_file/heap_file_iter.cc). */
module HeapFiles {
  import opened Bytes
  import opened Values
  import opened Pages
  import opened PoolModel
  import opened BufferManagers
  import opened SlottedPages
  import opened HeapFilePages
  import opened HeapModel

  /** Opening page n changes nothing, or adds page n to the end of the file, as a page without records. */
  predicate Opened(v: Files, w: Files, file: FileId, n: nat)
    requires file in v
  {
    if n < |v[file]| then w == v
    else
      && n == |v[file]| && file in w && |w[file]| == n + 1 && Blank(w[file][n])
      && w == v[file := v[file] + [w[file][n]]]
  }

  lemma OpenedOld(v: Files, file: FileId, n: nat, b: Block, ts: Schema)
    requires file in v && n < |v[file]| && Layout(v[file][n], ts) && b == v[file][n]
    ensures !(DirCount(b) == 0 && FreeSpace(b) == 0)
    ensures Extend(v, PageId(file, n)) == v && Store(v, PageId(file, n), b) == v
  {
    StoreSame(v, PageId(file, n), b);
  }

  lemma ZeroPage()
    ensures DirCount(ZeroBlock()) == 0 && FreeSpace(ZeroBlock()) == 0
  {
    assert ZeroBlock()[0..4] == [0, 0, 0, 0] && ZeroBlock()[4..8] == [0, 0, 0, 0];
    assert Unsigned([0, 0, 0, 0]) == 0 by {
      assert [0, 0, 0, 0][1..] == [0, 0, 0] && [0, 0, 0][1..] == [0, 0] && [0, 0][1..] == [0] && [0][1..] == [];
      assert Unsigned([0]) == 0 && Unsigned([0, 0]) == 0 && Unsigned([0, 0, 0]) == 0;
    }
  }

  lemma OpenedNew(v: Files, file: FileId, n: nat, b: Block)
    requires file in v && n == |v[file]| && Blank(b)
    ensures var w := Store(Extend(v, PageId(file, n)), PageId(file, n), b);
            Opened(v, w, file, n) && w[file][n] == b
  {
    hide Blank;
    var pid := PageId(file, n);
    var e := Extend(v, pid);
    var w := Store(e, pid, b);
    assert e[file] == v[file] + [ZeroBlock()];
    assert w[file] == v[file] + [b];
    assert w == v[file := v[file] + [w[file][n]]];
  }

  lemma LaidAt(pages: seq<Block>, n: nat, ts: Schema)
    requires HeapLaid(pages, ts) && n < |pages|
    ensures Layout(pages[n], ts)
  {
  }

  /** Both cases together. */
  lemma OpenedIs(v: Files, file: FileId, n: nat, b: Block, ts: Schema)
    requires file in v && n <= |v[file]| && HeapLaid(v[file], ts)
    requires var a := Extend(v, PageId(file, n))[file][n];
             if DirCount(a) == 0 && FreeSpace(a) == 0 then Blank(b) else b == a
    ensures Opened(v, Store(Extend(v, PageId(file, n)), PageId(file, n), b), file, n)
  {
    hide Layout, DirCount, FreeSpace, Opened;
    if n < |v[file]| {
      OpenedOld(v, file, n, v[file][n], ts);
      OpenedSame(v, file, n);
    } else {
      ZeroPage();
      OpenedNew(v, file, n, b);
    }
  }

  lemma OpenedSame(v: Files, file: FileId, n: nat)
    requires file in v && n < |v[file]|
    ensures Opened(v, v, file, n)
  {
  }

  lemma OpenedLaid(v: Files, w: Files, file: FileId, n: nat, ts: Schema)
    requires file in v && Opened(v, w, file, n) && HeapLaid(v[file], ts)
    ensures file in w && n < |w[file]| && HeapLaid(w[file], ts)
  {
    hide Layout, Blank;
    if n == |v[file]| {
      BlankLayout(w[file][n], ts);
    }
  }

  /** What the constructor of a heap file page does to the page it holds. */
  method InitialiseHeld(pool: BufferManager, hp: HeapFilePage, ghost k: nat, ghost pid: PageId, ghost p0: Pool)
    requires pool.Holds(hp.page, k, pid) && Acquired(p0, pool.Abs(), k, pid)
    modifies hp.page`dirty, hp.page.bytes
    ensures pool.Holds(hp.page, k, pid) && Acquired(p0, pool.Abs(), k, pid)
    ensures hp.page.Ok() && OnDisk(old(pool.View()), pid) && pool.View() == Store(old(pool.View()), pid, hp.page.Data())
    ensures var b := old(pool.View()[pid.file][pid.number]);
            if DirCount(b) == 0 && FreeSpace(b) == 0 then Blank(hp.page.Data()) else hp.page.Data() == b
  {
    hide Inv, Acquired, Store, Blank, Put, Get32;
    hide BufferManager.Abs, BufferManager.View;
    pool.HeldData(hp.page, k, pid);
    ghost var p1 := pool.Abs();
    label L:
    hp.Initialise();
    pool.WrittenHeld@L(k);
    AcquiredRewritten(p0, p1, pool.Abs(), k, pid);
  }

  /** HeapFilePage(file_id, page_number): the page, pinned, made a heap page if it is new. */
  method OpenPage(pool: BufferManager, file: FileId, n: nat, ghost ts: Schema) returns (hp: HeapFilePage, ghost k: nat)
    requires pool.Valid() && file in pool.View() && n <= |pool.View()[file]| && n < MAX_PAGES
    requires HeapLaid(pool.View()[file], ts) && pool.CanGet(PageId(file, n))
    modifies pool.Repr()
    ensures pool.Holds(hp.page, k, PageId(file, n)) && Acquired(old(pool.Abs()), pool.Abs(), k, PageId(file, n))
    ensures Opened(old(pool.View()), pool.View(), file, n)
    ensures file in pool.View() && n < |pool.View()[file]| && HeapLaid(pool.View()[file], ts)
    ensures hp.page.Ok() && hp.page.Data() == pool.View()[file][n] && hp.Laid(ts)
  {
    hide Layout, Blank, Inv, Extend, Store, DirCount, FreeSpace, Acquired, Opened, HeapLaid, Served;
    hide BufferManager.Abs, BufferManager.View;
    UnpinnedHas(pool.Abs());
    ghost var v, p0 := pool.View(), pool.Abs();
    var page;
    page, k := pool.GetPage(file, n);
    pool.HeldData(page, k, PageId(file, n));
    hp := HeapFilePage(page);
    InitialiseHeld(pool, hp, k, PageId(file, n), p0);
    OpenedIs(v, file, n, page.Data(), ts);
    OpenedLaid(v, pool.View(), file, n, ts);
    pool.HeldData(page, k, PageId(file, n));
    LaidAt(pool.View()[file], n, ts);
  }

  /** Opens page n and then releases page m, which the caller holds. p0 is the pool before the caller's pin. */
  method SwitchPage(pool: BufferManager, hp: HeapFilePage, ghost k: nat, ghost m: nat, file: FileId, n: nat,
                    ghost ts: Schema, ghost p0: Pool) returns (hp': HeapFilePage, ghost k': nat)
    requires pool.Holds(hp.page, k, PageId(file, m)) && Acquired(p0, pool.Abs(), k, PageId(file, m))
    requires file in pool.View() && n <= |pool.View()[file]| && n < MAX_PAGES
    requires HeapLaid(pool.View()[file], ts) && Unpinned(p0) > 1
    modifies pool.Repr()
    ensures pool.Holds(hp'.page, k', PageId(file, n)) && Acquired(p0, pool.Abs(), k', PageId(file, n))
    ensures Opened(old(pool.View()), pool.View(), file, n)
    ensures file in pool.View() && n < |pool.View()[file]| && HeapLaid(pool.View()[file], ts)
    ensures hp'.page.Data() == pool.View()[file][n] && hp'.Laid(ts)
  {
    hide Layout, Blank, Inv, PoolModel.View, Acquired, Opened, HeapLaid, Released;
    hide BufferManager.Abs, BufferManager.View;
    ghost var p1 := pool.Abs();
    UnpinnedAcquired(p0, p1, k, PageId(file, m));
    hp', k' := OpenPage(pool, file, n, ts);
    Handover(p0, p1, k, PageId(file, m), pool.Abs(), k', PageId(file, n));
    pool.HoldsByAbs(hp.page, k, PageId(file, m));
    pool.Unpin(hp.page, k, PageId(file, m));
    AcquiredHolds(p0, pool.Abs(), k', PageId(file, n));
    pool.HoldsByAbs(hp'.page, k', PageId(file, n));
  }

  /** try_insert_record on a held page, as the pool sees it. */
  method TryInsertHeld(pool: BufferManager, hp: HeapFilePage, ghost k: nat, ghost pid: PageId, record: Row,
                       ghost ts: Schema, ghost p0: Pool) returns (ok: bool, dirPos: nat)
    requires pool.Holds(hp.page, k, pid) && Acquired(p0, pool.Abs(), k, pid)
    requires hp.Laid(ts) && HasSchema(record, ts) && ts != []
    modifies hp.page`dirty, hp.page.bytes
    ensures pool.Holds(hp.page, k, pid) && Acquired(p0, pool.Abs(), k, pid)
    ensures OnDisk(old(pool.View()), pid) && pool.View() == Store(old(pool.View()), pid, hp.page.Data())
    ensures hp.Laid(ts) && ok == Fits(old(hp.page.Data()), ts, |Enc(record)|)
    ensures dirPos < SIZE
    ensures !ok ==> hp.page.Data() == old(hp.page.Data()) && pool.View() == old(pool.View())
    ensures ok ==> var t := TableOf(old(hp.page.Data()), ts);
                   dirPos == FreeSlot(t) && TableOf(hp.page.Data(), ts) == WithRow(t, dirPos, record)
  {
    hide Layout, Inv, Unpinned, PoolModel.View, Acquired, Store, TableOf, FreeSlot, WithRow, Fits, Enc;
    hide BufferManager.Abs, BufferManager.View;
    pool.HeldData(hp.page, k, pid);
    ghost var p1 := pool.Abs();
    label L:
    ok, dirPos := hp.TryInsertRecord(record, ts);
    pool.WrittenHeld@L(k);
    AcquiredRewritten(p0, p1, pool.Abs(), k, pid);
    if !ok {
      StoreSame(old(pool.View()), pid, hp.page.Data());
    }
  }

  /** The files before and after storing row in slot s of page p of one of them. */
  predicate FileInserted(v: Files, w: Files, file: FileId, ts: Schema, p: nat, s: nat, row: Row) {
    && file in v && w.Keys == v.Keys
    && Inserted(HeapOf(v[file], ts), HeapOf(w[file], ts), p, s, row)
    && forall f :: f in v && f != file ==> w[f] == v[f]
  }

  /** The last page opened, with the record stored in it, is the whole effect of an insertion. */
  lemma InsertDone(v: Files, w: Files, file: FileId, n: nat, b: Block, ts: Schema, s: nat, row: Row)
    requires file in v && Opened(v, w, file, n) && file in w && n < |w[file]| && HeapLaid(w[file], ts)
    requires s == FreeSlot(TableOf(w[file][n], ts)) && TableOf(b, ts) == WithRow(TableOf(w[file][n], ts), s, row)
    requires Layout(b, ts)
    ensures var u := Store(w, PageId(file, n), b);
            file in u && n < |u[file]| && HeapLaid(u[file], ts) && FileInserted(v, u, file, ts, n, s, row)
  {
    hide Layout, TableOf, WithRow;
    var u := Store(w, PageId(file, n), b);
    var h, h' := HeapOf(v[file], ts), HeapOf(u[file], ts);
    if n < |v[file]| {
      assert h' == h[n := WithRow(h[n], s, row)];
    } else {
      BlankLayout(w[file][n], ts);
      BlankInsert(w[file][n], ts, s, row);
      assert h' == h + [[Some(row)]];
    }
  }

  lemma BlankInsert(b: Block, ts: Schema, s: nat, row: Row)
    requires Blank(b) && s == FreeSlot(TableOf(b, ts))
    ensures s == 0 && WithRow(TableOf(b, ts), s, row) == [Some(row)]
  {
    BlankLayout(b, ts);
  }

  /** The files before and after the table of page p of one of them became t. */
  predicate PageReplaced(v: Files, w: Files, file: FileId, ts: Schema, p: nat, t: Table) {
    && file in v && p < |v[file]| && w.Keys == v.Keys
    && HeapOf(w[file], ts) == HeapOf(v[file], ts)[p := t]
    && forall f :: f in v && f != file ==> w[f] == v[f]
  }

  lemma StoreReplaces(v: Files, file: FileId, p: nat, b: Block, ts: Schema)
    requires file in v && p < |v[file]| && HeapLaid(v[file], ts) && Layout(b, ts)
    ensures var w := Store(v, PageId(file, p), b);
            file in w && HeapLaid(w[file], ts) && PageReplaced(v, w, file, ts, p, TableOf(b, ts))
  {
    hide Layout, TableOf;
    var w := Store(v, PageId(file, p), b);
    assert HeapOf(w[file], ts) == HeapOf(v[file], ts)[p := TableOf(b, ts)];
  }

  lemma OpenedExisting(v: Files, w: Files, file: FileId, n: nat)
    requires file in v && n < |v[file]| && Opened(v, w, file, n)
    ensures w == v
  {
  }

  method DeleteHeld(pool: BufferManager, hp: HeapFilePage, ghost k: nat, ghost pid: PageId, dirPos: nat,
                    ghost ts: Schema, ghost p0: Pool)
    requires pool.Holds(hp.page, k, pid) && Acquired(p0, pool.Abs(), k, pid)
    requires hp.Laid(ts) && dirPos < DirCount(hp.page.Data())
    modifies hp.page`dirty, hp.page.bytes
    ensures pool.Holds(hp.page, k, pid) && Acquired(p0, pool.Abs(), k, pid)
    ensures OnDisk(old(pool.View()), pid) && pool.View() == Store(old(pool.View()), pid, hp.page.Data())
    ensures hp.Laid(ts) && |TableOf(old(hp.page.Data()), ts)| == DirCount(old(hp.page.Data()))
    ensures TableOf(hp.page.Data(), ts) == TableOf(old(hp.page.Data()), ts)[dirPos := None]
  {
    hide Layout, Inv, Acquired, Store, TableOf, DirCount;
    hide BufferManager.Abs, BufferManager.View;
    pool.HeldData(hp.page, k, pid);
    LayoutBounds(hp.page.Data(), ts);
    ghost var p1 := pool.Abs();
    label L:
    hp.DeleteRecord(dirPos, ts);
    pool.WrittenHeld@L(k);
    AcquiredRewritten(p0, p1, pool.Abs(), k, pid);
  }

  method ReadHeld(pool: BufferManager, hp: HeapFilePage, ghost k: nat, ghost pid: PageId, dirPos: nat, out: Record,
                  ghost ts: Schema) returns (found: bool)
    requires pool.Holds(hp.page, k, pid) && hp.Laid(ts) && HasSchema(out.values, ts)
    requires dirPos < DirCount(hp.page.Data()) && dirPos < |TableOf(hp.page.Data(), ts)|
    modifies out
    ensures pool.Holds(hp.page, k, pid) && pool.Abs() == old(pool.Abs()) && pool.View() == old(pool.View())
    ensures HasSchema(out.values, ts)
    ensures var o := TableOf(old(hp.page.Data()), ts)[dirPos];
            found == o.Some? && out.values == if found then o.value else old(out.values)
  {
    hide Layout, Inv, TableOf, DirCount, RowAt, HasSchema;
    hide BufferManager.Abs, BufferManager.View;
    pool.HeldData(hp.page, k, pid);
    LayoutBounds(hp.page.Data(), ts);
    TableOfAt(hp.page.Data(), ts, dirPos);
    found := hp.GetRecord(dirPos, out, ts);
  }

  method VacuumHeld(pool: BufferManager, hp: HeapFilePage, ghost k: nat, ghost pid: PageId, ts: Schema, ghost p0: Pool)
    requires pool.Holds(hp.page, k, pid) && Acquired(p0, pool.Abs(), k, pid)
    requires hp.Laid(ts) && ts != []
    modifies hp.page`dirty, hp.page.bytes
    ensures pool.Holds(hp.page, k, pid) && Acquired(p0, pool.Abs(), k, pid)
    ensures OnDisk(old(pool.View()), pid) && pool.View() == Store(old(pool.View()), pid, hp.page.Data())
    ensures hp.Laid(ts) && TableOf(hp.page.Data(), ts) == Full(Live(TableOf(old(hp.page.Data()), ts)))
    ensures FreeSpace(hp.page.Data()) >= FreeSpace(old(hp.page.Data()))
  {
    hide Layout, Inv, Acquired, Store, TableOf, Live, Full, RowsSize, FreeSpace;
    hide BufferManager.Abs, BufferManager.View;
    pool.HeldData(hp.page, k, pid);
    ghost var p1 := pool.Abs();
    label L:
    hp.Vacuum(ts);
    pool.WrittenHeld@L(k);
    AcquiredRewritten(p0, p1, pool.Abs(), k, pid);
  }

  /** The first i pages vacuumed, the others and the other files untouched. */
  predicate PartlyVacuumed(v: Files, w: Files, file: FileId, ts: Schema, i: nat) {
    && file in v && w.Keys == v.Keys && |w[file]| == |v[file]|
    && (forall p :: 0 <= p < |v[file]| ==>
          HeapOf(w[file], ts)[p] == if p < i then Full(Live(HeapOf(v[file], ts)[p])) else HeapOf(v[file], ts)[p])
    && forall f :: f in v && f != file ==> w[f] == v[f]
  }

  lemma VacuumStep(v: Files, w: Files, u: Files, file: FileId, ts: Schema, i: nat)
    requires PartlyVacuumed(v, w, file, ts, i) && i < |v[file]|
    requires PageReplaced(w, u, file, ts, i, Full(Live(HeapOf(w[file], ts)[i])))
    ensures PartlyVacuumed(v, u, file, ts, i + 1) && |u[file]| == |w[file]|
  {
    hide TableOf, Live;
    assert |HeapOf(u[file], ts)| == |u[file]|;
  }

  lemma VacuumEnd(v: Files, w: Files, file: FileId, ts: Schema)
    requires file in v && PartlyVacuumed(v, w, file, ts, |v[file]|)
    ensures HeapOf(w[file], ts) == Vacuumed(HeapOf(v[file], ts))
    ensures w.Keys == v.Keys && forall f :: f in v && f != file ==> w[f] == v[f]
  {
    hide TableOf, Live;
  }

  class HeapFile {
    const pool: BufferManager
    const schema: Schema
    const fileId: FileId
    var lastInsertPage: nat

    constructor (pool: BufferManager, schema: Schema, fileId: FileId)
      requires pool.Valid() && schema != [] && fileId in pool.View() && HeapLaid(pool.View()[fileId], schema)
      ensures this.pool == pool && this.schema == schema && this.fileId == fileId && Valid() && lastInsertPage == 0
      ensures pool.Abs() == old(pool.Abs()) && pool.View() == old(pool.View())
    {
      hide PoolModel.View, Inv, HeapLaid;
      this.pool, this.schema, this.fileId, lastInsertPage := pool, schema, fileId, 0;
      new;
      assert pool.Shape();
      assert pool.Frames() == old(pool.Frames());
      assert pool.Abs() == old(pool.Abs());
      assert pool.Valid();
      assert pool.View() == old(pool.View());
    }

    ghost predicate Sound()
      reads pool.Repr()
    {
      pool.Valid() && schema != [] && fileId in pool.View() && HeapLaid(pool.View()[fileId], schema)
    }

    ghost predicate Valid()
      reads this, pool.Repr()
    {
      Sound() && lastInsertPage <= |pool.View()[fileId]|
    }

    /** The file's pages. */
    ghost function Blocks(): seq<Block>
      requires Sound()
      reads pool.Repr()
    {
      pool.View()[fileId]
    }

    ghost function Content(): Heap
      requires Sound()
      reads pool.Repr()
    {
      HeapOf(pool.View()[fileId], schema)
    }

    /** What an insertion needs of the pool and the disk: the first page it looks at; a second frame if that page
        has no room; and one more page in the file if no page has. */
    ghost predicate Room(size: nat)
      requires Valid()
      reads this, pool.Repr()
    {
      && pool.CanGet(PageId(fileId, lastInsertPage))
      && (lastInsertPage < |Blocks()| && !Fits(Blocks()[lastInsertPage], schema, size) ==> Unpinned(pool.Abs()) > 1)
      && (NoneFits(Blocks(), lastInsertPage, |Blocks()|, schema, size) ==> |Blocks()| < MAX_PAGES)
    }

    /** Two frames and one more page are always enough. */
    lemma RoomEnough(size: nat)
      requires Valid() && Unpinned(pool.Abs()) > 1 && |Blocks()| < MAX_PAGES
      ensures Room(size)
    {
    }

    /** Stores the record on the first page with room from the last insertion on; the file grows if there is none. */
    method InsertRecord(record: Row) returns (rid: RID)
      requires Valid() && HasSchema(record, schema) && |Enc(record)| + 4 <= SIZE - 8
      requires Room(|Enc(record)|)
      modifies pool.Repr(), this`lastInsertPage
      ensures Valid() && Balanced(old(pool.Abs()), pool.Abs())
      ensures rid.page >= 0 && rid.slot >= 0 && rid.page == lastInsertPage >= old(lastInsertPage)
      ensures FileInserted(old(pool.View()), pool.View(), fileId, schema, rid.page, rid.slot, record)
      ensures rid.page <= |old(Blocks())|
      ensures NoneFits(old(Blocks()), old(lastInsertPage), rid.page, schema, |Enc(record)|)
      ensures rid.page < |old(Blocks())| ==> Fits(old(Blocks())[rid.page], schema, |Enc(record)|)
    {
      hide Layout, Inv, Unpinned, PoolModel.View, Acquired, Store, TableOf, FreeSlot, WithRow, Fits, Enc, Blank;
      hide Opened, FileInserted, Balanced, HeapLaid, NoneFits, Searching;
      hide BufferManager.Abs, BufferManager.View;
      ghost var p0, v0 := pool.Abs(), pool.View();
      ghost var n0 := lastInsertPage;
      pool.Bounded();
      NoneFitsNothing(v0[fileId], n0, schema, |Enc(record)|);
      var current;
      ghost var k;
      current, k := OpenLastPage();
      while true
        invariant Searching(current, k, p0, v0)
        invariant n0 <= lastInsertPage <= |v0[fileId]| && lastInsertPage < MAX_PAGES
        invariant NoneFits(v0[fileId], n0, lastInsertPage, schema, |Enc(record)|)
        decreases |v0[fileId]| - lastInsertPage
      {
        var ok;
        ok, rid := TryHere(current, k, record, p0, v0, n0);
        if ok {
          return;
        }
        RoomGoesOn(v0[fileId], n0, lastInsertPage, schema, |Enc(record)|, Unpinned(p0));
        current, k := MoveToNextPage(current, k, p0, v0);
      }
    }

    /** Marks the slot of a record deleted. */
    method DeleteRecord(rid: RID)
      requires Valid() && 0 <= rid.page < |Content()| && 0 <= rid.slot < |Content()[rid.page]|
      requires pool.CanGet(PageId(fileId, rid.page))
      modifies pool.Repr()
      ensures Valid() && Balanced(old(pool.Abs()), pool.Abs())
      ensures PageReplaced(old(pool.View()), pool.View(), fileId, schema, rid.page,
                old(Content())[rid.page][rid.slot := None])
    {
      hide Layout, Inv, Unpinned, PoolModel.View, Acquired, Store, TableOf, Opened, Balanced, HeapLaid, PageReplaced;
      hide DirCount;
      hide BufferManager.Abs, BufferManager.View;
      ghost var p0, v0 := pool.Abs(), pool.View();
      pool.Bounded();
      ghost var pid := PageId(fileId, rid.page);
      var page;
      ghost var k;
      page, k := OpenPage(pool, fileId, rid.page, schema);
      OpenedExisting(v0, pool.View(), fileId, rid.page);
      LayoutBounds(page.page.Data(), schema);
      DeleteHeld(pool, page, k, pid, rid.slot, schema, p0);
      StoreReplaces(v0, fileId, rid.page, page.page.Data(), schema);
      ReleaseBalances(p0, pool.Abs(), k, pid);
      pool.Unpin(page.page, k, pid);
    }

    /** Reads the record into out; out is untouched if there is no such record any more. */
    method GetRecord(rid: RID, out: Record)
      requires Sound() && 0 <= rid.page < |Content()| && 0 <= rid.slot < |Content()[rid.page]|
      requires pool.CanGet(PageId(fileId, rid.page)) && HasSchema(out.values, schema)
      modifies pool.Repr(), out
      ensures Sound() && Balanced(old(pool.Abs()), pool.Abs()) && pool.View() == old(pool.View())
      ensures HasSchema(out.values, schema)
      ensures var o := Lookup(Content(), rid); out.values == if o.Some? then o.value else old(out.values)
    {
      hide Layout, Inv, Unpinned, PoolModel.View, Acquired, TableOf, Opened, Balanced, HeapLaid, DirCount, RowAt;
      hide HasSchema;
      hide BufferManager.Abs, BufferManager.View;
      ghost var p0, v0 := pool.Abs(), pool.View();
      pool.Bounded();
      ghost var pid := PageId(fileId, rid.page);
      var page;
      ghost var k;
      page, k := OpenPage(pool, fileId, rid.page, schema);
      OpenedExisting(v0, pool.View(), fileId, rid.page);
      LayoutBounds(page.page.Data(), schema);
      var _ := ReadHeld(pool, page, k, pid, rid.slot, out, schema);
      ReleaseBalances(p0, pool.Abs(), k, pid);
      pool.Unpin(page.page, k, pid);
    }

    /** Compacts page i. */
    method VacuumPage(i: nat)
      requires Sound() && i < |Blocks()| && pool.CanGet(PageId(fileId, i))
      modifies pool.Repr()
      ensures Sound() && Balanced(old(pool.Abs()), pool.Abs())
      ensures PageReplaced(old(pool.View()), pool.View(), fileId, schema, i, Full(Live(old(Content())[i])))
    {
      hide Layout, Inv, Unpinned, PoolModel.View, Acquired, Store, TableOf, Opened, Balanced, HeapLaid, PageReplaced;
      hide FreeSpace, Full, Live;
      hide BufferManager.Abs, BufferManager.View;
      ghost var p0, v0 := pool.Abs(), pool.View();
      pool.Bounded();
      ghost var pid := PageId(fileId, i);
      var page;
      ghost var k;
      page, k := OpenPage(pool, fileId, i, schema);
      OpenedExisting(v0, pool.View(), fileId, i);
      VacuumHeld(pool, page, k, pid, schema, p0);
      StoreReplaces(v0, fileId, i, page.page.Data(), schema);
      ReleaseBalances(p0, pool.Abs(), k, pid);
      pool.Unpin(page.page, k, pid);
    }

    /** Compacts every page. */
    method Vacuum()
      requires Valid() && Unpinned(pool.Abs()) > 0
      modifies pool.Repr(), this`lastInsertPage
      ensures Valid() && Balanced(old(pool.Abs()), pool.Abs()) && lastInsertPage == 0
      ensures Content() == Vacuumed(old(Content()))
      ensures pool.View().Keys == old(pool.View()).Keys
      ensures forall f :: f in old(pool.View()) && f != fileId ==> pool.View()[f] == old(pool.View())[f]
    {
      hide Inv, Unpinned, PoolModel.View, Balanced, HeapLaid, PageReplaced, Full, Live, HeapOf;
      hide BufferManager.Abs, BufferManager.View;
      ghost var p0, v0 := pool.Abs(), pool.View();
      ghost var h0 := Content();
      BalancedReflexive(p0);
      pool.CountIs(fileId);
      var totalPages := pool.fileMgr.CountPages(fileId);
      for i := 0 to totalPages
        invariant Sound() && Balanced(p0, pool.Abs()) && totalPages == |v0[fileId]| == |pool.View()[fileId]|
        invariant PartlyVacuumed(v0, pool.View(), fileId, schema, i)
      {
        UnpinnedBalanced(p0, pool.Abs());
        ghost var p1, v1 := pool.Abs(), pool.View();
        VacuumPage(i);
        BalancedTransitive(p0, p1, pool.Abs());
        VacuumStep(v0, v1, pool.View(), fileId, schema, i);
      }
      VacuumEnd(v0, pool.View(), fileId, schema);
      lastInsertPage := 0;
    }

    /** An insertion under way: the file as it was, apart from at most one new page, with page
        lastInsertPage held. */
    ghost predicate Searching(current: HeapFilePage, k: nat, p0: Pool, v0: Files)
      requires fileId in v0
      reads this, pool.Repr(), current.page, current.page.bytes
    {
      && pool.Holds(current.page, k, PageId(fileId, lastInsertPage))
      && Acquired(p0, pool.Abs(), k, PageId(fileId, lastInsertPage))
      && Opened(v0, pool.View(), fileId, lastInsertPage)
      && fileId in pool.View() && lastInsertPage < |pool.View()[fileId]| && HeapLaid(pool.View()[fileId], schema)
      && current.Laid(schema) && current.page.Data() == pool.View()[fileId][lastInsertPage]
    }

    /** The page an insertion looks at first. */
    method OpenLastPage() returns (current: HeapFilePage, ghost k: nat)
      requires Valid() && lastInsertPage < MAX_PAGES && pool.CanGet(PageId(fileId, lastInsertPage))
      modifies pool.Repr()
      ensures Searching(current, k, old(pool.Abs()), old(pool.View())) && lastInsertPage == old(lastInsertPage)
    {
      hide Layout, Inv, Unpinned, PoolModel.View, Acquired, Opened, HeapLaid;
      hide BufferManager.Abs, BufferManager.View;
      current, k := OpenPage(pool, fileId, lastInsertPage, schema);
    }

    /** One pass of the loop: the page held takes the record, or there is none on it for the record. */
    method TryHere(current: HeapFilePage, ghost k: nat, record: Row, ghost p0: Pool, ghost v0: Files, ghost n0: nat)
      returns (ok: bool, rid: RID)
      requires fileId in v0 && Searching(current, k, p0, v0) && HasSchema(record, schema)
      requires |Enc(record)| + 4 <= SIZE - 8
      requires schema != [] && n0 <= lastInsertPage <= |v0[fileId]| && lastInsertPage < MAX_PAGES
      requires NoneFits(v0[fileId], n0, lastInsertPage, schema, |Enc(record)|)
      modifies pool.Repr()
      ensures lastInsertPage == old(lastInsertPage)
      ensures ok ==> Sound() && lastInsertPage < |Blocks()| && Balanced(p0, pool.Abs())
      ensures ok ==> rid.slot >= 0 && rid.page == lastInsertPage
      ensures ok ==> FileInserted(v0, pool.View(), fileId, schema, lastInsertPage, rid.slot, record)
      ensures ok && lastInsertPage < |v0[fileId]| ==> Fits(v0[fileId][lastInsertPage], schema, |Enc(record)|)
      ensures !ok ==> lastInsertPage < |v0[fileId]| && Searching(current, k, p0, v0) && pool.View() == v0
      ensures !ok ==> NoneFits(v0[fileId], n0, lastInsertPage + 1, schema, |Enc(record)|)
    {
      hide Layout, Inv, Unpinned, PoolModel.View, Acquired, Store, TableOf, FreeSlot, WithRow, Fits, Enc, Blank;
      hide Opened, FileInserted, Balanced, HeapLaid, NoneFits;
      hide BufferManager.Abs, BufferManager.View;
      ghost var w := pool.View();
      pool.HeldData(current.page, k, PageId(fileId, lastInsertPage));
      var slot;
      ok, slot := TryInsertHeld(pool, current, k, PageId(fileId, lastInsertPage), record, schema, p0);
      rid := RID(lastInsertPage, slot);
      if lastInsertPage < |v0[fileId]| {
        OpenedExisting(v0, w, fileId, lastInsertPage);
      }
      if ok {
        FinishInsert(current, k, p0, v0, w, record, slot);
      } else {
        NoRoom(v0, w, fileId, n0, lastInsertPage, schema, |Enc(record)|);
      }
    }

    /** The record is on the page held: release it. w is the view before the record was written. */
    method FinishInsert(current: HeapFilePage, ghost k: nat, ghost p0: Pool, ghost v0: Files, ghost w: Files,
                        ghost row: Row, ghost slot: nat)
      requires fileId in v0 && schema != [] && lastInsertPage < MAX_PAGES
      requires pool.Holds(current.page, k, PageId(fileId, lastInsertPage))
      requires Acquired(p0, pool.Abs(), k, PageId(fileId, lastInsertPage))
      requires Opened(v0, w, fileId, lastInsertPage) && fileId in w && lastInsertPage < |w[fileId]|
      requires HeapLaid(w[fileId], schema)
      requires current.Laid(schema) && pool.View() == Store(w, PageId(fileId, lastInsertPage), current.page.Data())
      requires slot == FreeSlot(TableOf(w[fileId][lastInsertPage], schema))
      requires TableOf(current.page.Data(), schema) == WithRow(TableOf(w[fileId][lastInsertPage], schema), slot, row)
      modifies current.page`pins
      ensures Sound() && lastInsertPage < |Blocks()| && Balanced(p0, pool.Abs())
      ensures FileInserted(v0, pool.View(), fileId, schema, lastInsertPage, slot, row)
    {
      hide Layout, Inv, Unpinned, PoolModel.View, Acquired, Store, TableOf, FreeSlot, WithRow, Blank, Opened;
      hide FileInserted, Balanced, HeapLaid;
      hide BufferManager.Abs, BufferManager.View;
      InsertDone(v0, w, fileId, lastInsertPage, current.page.Data(), schema, slot, row);
      ReleaseBalances(p0, pool.Abs(), k, PageId(fileId, lastInsertPage));
      pool.Unpin(current.page, k, PageId(fileId, lastInsertPage));
    }

    /** last_insert_page++, and the next page takes the place of the current one. */
    method MoveToNextPage(current: HeapFilePage, ghost k: nat, ghost p0: Pool, ghost v0: Files)
      returns (next: HeapFilePage, ghost k': nat)
      requires fileId in v0 && Searching(current, k, p0, v0) && pool.View() == v0 && Unpinned(p0) > 1
      requires lastInsertPage + 1 < MAX_PAGES
      modifies pool.Repr(), this`lastInsertPage
      ensures lastInsertPage == old(lastInsertPage) + 1 && Searching(next, k', p0, v0)
    {
      hide Layout, Inv, Unpinned, PoolModel.View, Acquired, Opened, HeapLaid;
      hide BufferManager.Abs, BufferManager.View;
      next, k' := SwitchPage(pool, current, k, lastInsertPage, fileId, lastInsertPage + 1, schema, p0);
      lastInsertPage := lastInsertPage + 1;
    }
  }

  /** No page from lo on, and below hi, has room for a record of the given size. */
  predicate NoneFits(pages: seq<Block>, lo: nat, hi: nat, ts: Schema, size: nat)
    requires hi <= |pages|
  {
    forall q :: lo <= q < hi ==> !Fits(pages[q], ts, size)
  }

  /** What an insertion needs after the first page, if page n had no room. */
  lemma RoomGoesOn(pages: seq<Block>, n0: nat, n: nat, ts: Schema, size: nat, frames: nat)
    requires n0 <= n < |pages| <= MAX_PAGES && NoneFits(pages, n0, n + 1, ts, size)
    requires !Fits(pages[n0], ts, size) ==> frames > 1
    requires NoneFits(pages, n0, |pages|, ts, size) ==> |pages| < MAX_PAGES
    ensures frames > 1 && n + 1 < MAX_PAGES
  {
    hide Fits;
    assert !Fits(pages[n0], ts, size);
  }

  lemma NoneFitsNothing(pages: seq<Block>, n: nat, ts: Schema, size: nat)
    requires n <= |pages|
    ensures NoneFits(pages, n, n, ts, size)
  {
  }

  /** The search for a page ends exactly for records that fit a page without others: a longer one fits no page
      of the file, wherever the search starts, and no page added to it. */
  lemma SearchEnds(pages: seq<Block>, ts: Schema, size: nat, added: Block)
    requires HeapLaid(pages, ts) && Blank(added)
    ensures Fits(added, ts, size) <==> size + 4 <= SIZE - 8
    ensures size + 4 > SIZE - 8 ==> NoneFits(pages + [added], 0, |pages| + 1, ts, size) && HeapLaid(pages + [added], ts)
  {
    hide Layout, Fits, Blank;
    BlankFits(added, ts, size);
    BlankLayout(added, ts);
    if size + 4 > SIZE - 8 {
      forall q | 0 <= q < |pages| + 1 ensures !Fits((pages + [added])[q], ts, size) {
        TooLong(if q < |pages| then pages[q] else added, ts, size);
      }
    }
  }

  lemma NoRoom(v: Files, w: Files, file: FileId, lo: nat, n: nat, ts: Schema, size: nat)
    requires file in v && Opened(v, w, file, n) && file in w && n < |w[file]| && size + 4 <= SIZE - 8
    requires !Fits(w[file][n], ts, size)
    requires n <= |v[file]| && NoneFits(v[file], lo, n, ts, size)
    ensures n < |v[file]| && w == v && NoneFits(v[file], lo, n + 1, ts, size)
  {
    if n >= |v[file]| {
      BlankFits(w[file][n], ts, size);
    }
  }
}
