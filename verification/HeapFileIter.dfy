/** The scan of a heap file (src/storage/heap_file/heap_file_iter.cc). It keeps the page it is on pinned
    between calls. Remaining() is what it has still to return. */
module HeapFileIters {
  import opened Bytes
  import opened Values
  import opened Pages
  import opened PoolModel
  import opened BufferManagers
  import opened SlottedPages
  import opened HeapFilePages
  import opened HeapModel
  import opened HeapFiles

  datatype Step = Skipped | Found | Ended

  /** Heap files are narrow enough for record identifiers. */
  lemma LaidNarrow(pages: seq<Block>, ts: Schema)
    requires HeapLaid(pages, ts) && |pages| <= MAX_PAGES
    ensures Narrow(HeapOf(pages, ts))
  {
    hide Layout, TableOf;
    forall p | 0 <= p < |pages| ensures |TableOf(pages[p], ts)| < SIZE {
      LayoutBounds(pages[p], ts);
      assert Bounds(pages[p]);
    }
  }

  predicate NoneLive(t: Table, s: nat) {
    forall k :: s <= k < |t| ==> t[k].None?
  }

  class HeapFileIter {
    const heap: HeapFile
    var out: Record?
    var currentPage: Option<HeapFilePage>
    var totalPages: nat
    var currentPageNumber: nat
    var currentPageRecordPos: int
    ghost var frame: nat

    /** The pages of the file have not gone away, and the current one is held. */
    ghost predicate Valid()
      reads this, heap.pool.Repr()
    {
      && heap.Sound() && 1 <= totalPages <= |heap.Blocks()| <= MAX_PAGES
      && Narrow(heap.Content())
      && -1 <= currentPageRecordPos
      && (currentPage.Some? ==>
            && currentPageNumber < totalPages
            && heap.pool.Holds(currentPage.value.page, frame, PageId(heap.fileId, currentPageNumber)))
    }

    ghost function Remaining(): seq<Entry>
      requires Valid()
      reads this, heap.pool.Repr()
    {
      if currentPage.None? then []
      else ScanFrom(heap.Content(), currentPageNumber, currentPageRecordPos + 1, totalPages)
    }

    /** The pool without the iterator's own pin. */
    ghost function Rest(): Pool
      requires Valid()
      reads this, heap.pool.Repr()
    {
      if currentPage.None? then heap.pool.Abs() else
        heap.pool.AbsOfHeld(currentPage.value.page, frame, PageId(heap.fileId, currentPageNumber));
        Released(heap.pool.Abs(), frame)
    }

    /** The next record, if any, is not on the current page, and there is a next page: it will be opened while the
        current one is held. */
    ghost predicate MustMove()
      requires Valid()
      reads this, heap.pool.Repr()
    {
      && currentPage.Some? && currentPageNumber + 1 < totalPages
      && NoneLive(heap.Content()[currentPageNumber], currentPageRecordPos + 1)
    }

    function CurrentRID(): RID
      requires currentPageNumber < MAX_PAGES && -1 <= currentPageRecordPos < SIZE
      reads this
    {
      RID(currentPageNumber, currentPageRecordPos)
    }

    /** Sets the cursor; the pool is not involved. */
    method Place(page: Option<HeapFilePage>, ghost k: nat, number: nat, pos: int, total: nat)
      requires heap.Sound()
      modifies this
      ensures currentPage == page && frame == k && currentPageNumber == number && currentPageRecordPos == pos
      ensures totalPages == total
      ensures out == old(out) && heap.Sound() && heap.pool.Abs() == old(heap.pool.Abs())
      ensures heap.pool.View() == old(heap.pool.View())
      ensures page.Some? && old(heap.pool.Holds(page.value.page, k, PageId(heap.fileId, number))) ==>
                heap.pool.Holds(page.value.page, k, PageId(heap.fileId, number))
    {
      hide Inv, Unpinned, PoolModel.View, HeapLaid;
      currentPage, frame, currentPageNumber, currentPageRecordPos, totalPages := page, k, number, pos, total;
      heap.pool.Undisturbed();
    }

    /** Starts on page 0, which is created if the file is empty, and counts the pages. */
    constructor (heap: HeapFile)
      requires heap.Sound() && Unpinned(heap.pool.Abs()) > 0
      modifies heap.pool.Repr()
      ensures this.heap == heap && Valid() && currentPage.Some? && out == null && totalPages == |heap.Blocks()|
      ensures Balanced(old(heap.pool.Abs()), Rest()) && Opened(old(heap.pool.View()), heap.pool.View(), heap.fileId, 0)
      ensures Remaining() == Scan(heap.Content())
    {
      hide Inv, Unpinned, PoolModel.View, HeapLaid, Balanced, Opened, Narrow, HeapOf;
      hide BufferManager.Abs, BufferManager.View;
      this.heap := heap;
      currentPageRecordPos, currentPageNumber, currentPage := -1, 0, None;
      out, totalPages, frame := null, 0, 0;
      new;
      heap.pool.Undisturbed();
      Start();
    }

    /** file_mgr.count_pages(heap_file.file_id) */
    method CountPages() returns (n: nat)
      requires heap.Sound()
      ensures heap.Sound() && n == |heap.Blocks()| <= MAX_PAGES
      ensures heap.pool.Abs() == old(heap.pool.Abs()) && heap.pool.View() == old(heap.pool.View())
    {
      hide Inv, Unpinned, PoolModel.View, HeapLaid;
      hide BufferManager.Abs, BufferManager.View;
      heap.pool.CountIs(heap.fileId);
      n := heap.pool.fileMgr.CountPages(heap.fileId);
      heap.pool.Undisturbed();
      heap.pool.Bounded();
    }

    method Start()
      requires heap.Sound() && Unpinned(heap.pool.Abs()) > 0
      modifies this, heap.pool.Repr()
      ensures Valid() && currentPage.Some? && out == old(out) && totalPages == |heap.Blocks()|
      ensures Balanced(old(heap.pool.Abs()), Rest()) && Opened(old(heap.pool.View()), heap.pool.View(), heap.fileId, 0)
      ensures Remaining() == Scan(heap.Content())
    {
      hide Inv, Unpinned, PoolModel.View, Acquired, Opened, Balanced, HeapLaid, HeapOf, Narrow, Layout;
      hide BufferManager.Abs, BufferManager.View;
      ghost var p0 := heap.pool.Abs();
      var page;
      ghost var k;
      page, k := OpenPage(heap.pool, heap.fileId, 0, heap.schema);
      heap.pool.AbsOfHeld(page.page, k, PageId(heap.fileId, 0));
      ReleaseBalances(p0, heap.pool.Abs(), k, PageId(heap.fileId, 0));
      var n := CountPages();
      LaidNarrow(heap.Blocks(), heap.schema);
      Place(Some(page), k, 0, -1, n);
    }

    /** The current page is exhausted, and there is a next one: it takes its place. */
    method OpenNextPage()
      requires Valid() && currentPage.Some? && currentPageRecordPos + 1 >= |heap.Content()[currentPageNumber]|
      requires currentPageNumber + 1 < totalPages && Unpinned(Rest()) > 1
      modifies this, heap.pool.Repr()
      ensures Valid() && Balanced(old(Rest()), Rest()) && out == old(out) && totalPages == old(totalPages)
      ensures heap.pool.View() == old(heap.pool.View()) && Remaining() == old(Remaining())
      ensures currentPage.Some? && currentPageNumber == old(currentPageNumber) + 1 && currentPageRecordPos == -1
    {
      hide Inv, Unpinned, PoolModel.View, Acquired, Opened, Balanced, HeapLaid, HeapOf, Narrow, Layout, Released;
      hide ScanFrom;
      hide BufferManager.Abs, BufferManager.View;
      ghost var p0, v0 := Rest(), heap.pool.View();
      ghost var m, k := currentPageNumber, frame;
      var page := currentPage.value;
      ScanSkipsPage(heap.Content(), m, currentPageRecordPos + 1, totalPages);
      heap.pool.AbsOfHeld(page.page, k, PageId(heap.fileId, m));
      AcquiredLast(heap.pool.Abs(), k);
      var next;
      ghost var k';
      next, k' := SwitchPage(heap.pool, page, k, m, heap.fileId, currentPageNumber + 1, heap.schema, p0);
      OpenedExisting(v0, heap.pool.View(), heap.fileId, m + 1);
      ReleaseBalances(p0, heap.pool.Abs(), k', PageId(heap.fileId, m + 1));
      heap.pool.AbsOfHeld(next.page, k', PageId(heap.fileId, m + 1));
      Place(Some(next), k', currentPageNumber + 1, -1, totalPages);
    }

    /** The last page is exhausted: it is released, and the scan is over. */
    method Finish()
      requires Valid() && currentPage.Some? && currentPageRecordPos + 1 >= |heap.Content()[currentPageNumber]|
      requires currentPageNumber + 1 == totalPages
      modifies this, heap.pool.Repr()
      ensures Valid() && Rest() == old(Rest()) && out == old(out) && totalPages == old(totalPages)
      ensures heap.pool.View() == old(heap.pool.View()) && old(Remaining()) == [] && currentPage.None?
    {
      hide Inv, Unpinned, PoolModel.View, Acquired, HeapLaid, HeapOf, Narrow, Layout, Released;
      hide BufferManager.Abs, BufferManager.View;
      ScanSkipsPage(heap.Content(), currentPageNumber, currentPageRecordPos + 1, totalPages);
      heap.pool.Unpin(currentPage.value.page, frame, PageId(heap.fileId, currentPageNumber));
      Place(None, 0, currentPageNumber + 1, -1, totalPages);
    }

    /** Looks at the next slot of the current page; a record there is read into out. */
    method ReadNextSlot() returns (found: bool)
      requires Valid() && currentPage.Some? && currentPageRecordPos + 1 < |heap.Content()[currentPageNumber]|
      requires out != null && HasSchema(out.values, heap.schema)
      modifies this, out
      ensures Valid() && Rest() == old(Rest()) && out == old(out) && HasSchema(out.values, heap.schema)
      ensures heap.pool.View() == old(heap.pool.View()) && currentPage == old(currentPage)
      ensures totalPages == old(totalPages) && currentPageNumber == old(currentPageNumber)
      ensures currentPageRecordPos == old(currentPageRecordPos) + 1 < SIZE && currentPageNumber < MAX_PAGES
      ensures old(Remaining()) == (if found then [Entry(CurrentRID(), out.values)] else []) + Remaining()
      ensures heap.Content() == old(heap.Content()) && currentPageRecordPos < |heap.Content()[currentPageNumber]|
      ensures found == heap.Content()[currentPageNumber][currentPageRecordPos].Some?
    {
      hide Inv, Unpinned, PoolModel.View, HeapLaid, Narrow, Layout, Released, TableOf, HasSchema, ScanFrom, HeapOf;
      hide DirCount, Get32;
      hide BufferManager.Abs, BufferManager.View;
      ghost var pid := PageId(heap.fileId, currentPageNumber);
      heap.pool.HeldData(currentPage.value.page, frame, pid);
      LaidAt(heap.Blocks(), currentPageNumber, heap.schema);
      LayoutBounds(currentPage.value.page.Data(), heap.schema);
      ScanSlot(heap.Content(), currentPageNumber, currentPageRecordPos + 1, totalPages);
      var o, page := out, currentPage.value;
      Place(currentPage, frame, currentPageNumber, currentPageRecordPos + 1, totalPages);
      found := ReadHeld(heap.pool, page, frame, pid, currentPageRecordPos, o, heap.schema);
    }

    method Begin(out: Record)
      requires Valid()
      modifies `out
      ensures this.out == out && Valid() && Rest() == old(Rest()) && Remaining() == old(Remaining())
      ensures heap.pool.View() == old(heap.pool.View()) && totalPages == old(totalPages)
    {
      hide Inv, Unpinned, PoolModel.View, HeapLaid, Narrow, Released, ScanFrom;
      hide BufferManager.Abs, BufferManager.View;
      this.out := out;
      heap.pool.Undisturbed();
    }

    /** How much of the scan is left, for termination. */
    ghost function SlotsLeft(): nat
      requires Valid()
      reads this, heap.pool.Repr()
    {
      if currentPage.None? || currentPageRecordPos >= |heap.Content()[currentPageNumber]| then 0
      else |heap.Content()[currentPageNumber]| - currentPageRecordPos
    }

    method DirCountHere() returns (n: int)
      requires Valid() && currentPage.Some?
      ensures Valid() && n == |heap.Content()[currentPageNumber]| && heap.pool.View() == old(heap.pool.View())
      ensures Rest() == old(Rest()) && Remaining() == old(Remaining()) && SlotsLeft() == old(SlotsLeft())
    {
      hide Inv, Unpinned, PoolModel.View, HeapLaid, Narrow, Layout;
      hide BufferManager.Abs, BufferManager.View;
      heap.pool.HeldData(currentPage.value.page, frame, PageId(heap.fileId, currentPageNumber));
      LaidAt(heap.Blocks(), currentPageNumber, heap.schema);
      LayoutBounds(heap.Blocks()[currentPageNumber], heap.schema);
      n := currentPage.value.GetDirCount();
      heap.pool.Undisturbed();
    }

    /** One pass of the loop of next: a page boundary or a slot. */
    method Pass() returns (s: Step)
      requires Valid() && currentPage.Some? && (MustMove() ==> Unpinned(Rest()) > 1)
      requires out != null && HasSchema(out.values, heap.schema)
      modifies this, out, heap.pool.Repr()
      ensures Valid() && Balanced(old(Rest()), Rest()) && out == old(out) && HasSchema(out.values, heap.schema)
      ensures heap.pool.View() == old(heap.pool.View()) && totalPages == old(totalPages)
      ensures s == Skipped ==> currentPage.Some? && Remaining() == old(Remaining())
      ensures s == Skipped && !old(MustMove()) ==> !MustMove()
      ensures s == Skipped ==>
        || currentPageNumber > old(currentPageNumber)
        || (currentPageNumber == old(currentPageNumber) && SlotsLeft() < old(SlotsLeft()))
      ensures s == Found ==> -1 <= currentPageRecordPos < SIZE && currentPageNumber < MAX_PAGES
      ensures s == Found ==> old(Remaining()) == [Entry(CurrentRID(), out.values)] + Remaining()
      ensures s == Ended ==> old(Remaining()) == [] && currentPage.None?
    {
      hide Inv, Unpinned, PoolModel.View, HeapLaid, Narrow, Layout, Released, TableOf, HasSchema, Balanced, ScanFrom;
      hide BufferManager.Abs, BufferManager.View;
      BalancedReflexive(Rest());
      var dirCount := DirCountHere();
      if currentPageRecordPos + 1 < dirCount {
        var found := ReadNextSlot();
        s := if found then Found else Skipped;
      } else if currentPageNumber + 1 < totalPages {
        OpenNextPage();
        s := Skipped;
      } else {
        Finish();
        s := Ended;
      }
    }

    /** The next live record goes to out, or false: there is none. Deleted slots and pages without records are
        passed over. */
    method Next() returns (found: bool)
      requires Valid() && (MustMove() ==> Unpinned(Rest()) > 1)
      requires out != null && HasSchema(out.values, heap.schema)
      modifies this, out, heap.pool.Repr()
      ensures Valid() && Balanced(old(Rest()), Rest()) && out == old(out) && HasSchema(out.values, heap.schema)
      ensures heap.pool.View() == old(heap.pool.View()) && totalPages == old(totalPages)
      ensures found ==> -1 <= currentPageRecordPos < SIZE && currentPageNumber < MAX_PAGES
      ensures found ==> old(Remaining()) == [Entry(CurrentRID(), out.values)] + Remaining()
      ensures !found ==> old(Remaining()) == [] == Remaining()
    {
      hide Inv, Unpinned, PoolModel.View, HeapLaid, Narrow, Layout, Released, TableOf, HasSchema, Balanced, ScanFrom;
      hide BufferManager.Holds, SlotsLeft;
      hide BufferManager.Abs, BufferManager.View;
      ghost var p0, v0, es := Rest(), heap.pool.View(), Remaining();
      BalancedReflexive(p0);
      while currentPage.Some?
        invariant Valid() && out == old(out) && HasSchema(out.values, heap.schema)
        invariant MustMove() ==> Unpinned(p0) > 1
        invariant Balanced(p0, Rest()) && heap.pool.View() == v0 && Remaining() == es && totalPages == old(totalPages)
        decreases if currentPage.Some? then totalPages - currentPageNumber else 0, SlotsLeft()
      {
        ghost var p1 := Rest();
        UnpinnedBalanced(p0, p1);
        var s := Pass();
        BalancedTransitive(p0, p1, Rest());
        match s {
          case Found => return true;
          case Ended => return false;
          case Skipped =>
        }
      }
      found := false;
    }

    /** Back to page 0. The number of pages is not counted again: pages added since are not part of the scan. */
    method Reset()
      requires Valid() && Unpinned(Rest()) > (if currentPage.Some? then 1 else 0)
      modifies this, heap.pool.Repr()
      ensures Valid() && Balanced(old(Rest()), Rest()) && out == old(out) && totalPages == old(totalPages)
      ensures heap.pool.View() == old(heap.pool.View())
      ensures Remaining() == ScanFrom(heap.Content(), 0, 0, totalPages)
    {
      hide Inv, Unpinned, PoolModel.View, Acquired, Opened, Balanced, HeapLaid, HeapOf, Narrow, Layout, Released;
      hide ScanFrom;
      hide BufferManager.Abs, BufferManager.View;
      ghost var p0, v0 := Rest(), heap.pool.View();
      var page;
      ghost var k;
      if currentPage.Some? {
        ghost var pid := PageId(heap.fileId, currentPageNumber);
        heap.pool.AbsOfHeld(currentPage.value.page, frame, pid);
        AcquiredLast(heap.pool.Abs(), frame);
        page, k := SwitchPage(heap.pool, currentPage.value, frame, currentPageNumber, heap.fileId, 0, heap.schema, p0);
      } else {
        page, k := OpenPage(heap.pool, heap.fileId, 0, heap.schema);
      }
      OpenedExisting(v0, heap.pool.View(), heap.fileId, 0);
      ReleaseBalances(p0, heap.pool.Abs(), k, PageId(heap.fileId, 0));
      heap.pool.AbsOfHeld(page.page, k, PageId(heap.fileId, 0));
      Place(Some(page), k, 0, -1, totalPages);
    }
  }

  /** Running a scan to its end, as src/bin/print_table.cc does: every live record of the file is returned once,
      in the order of the identifiers, and each goes with its own. */
  method RunScan(iter: HeapFileIter, out: Record) returns (entries: seq<Entry>)
    requires iter.Valid() && iter.Remaining() == Scan(iter.heap.Content())
    requires Unpinned(iter.Rest()) > 1 && HasSchema(out.values, iter.heap.schema)
    modifies iter, out, iter.heap.pool.Repr()
    ensures iter.Valid() && Balanced(old(iter.Rest()), iter.Rest())
    ensures iter.heap.pool.View() == old(iter.heap.pool.View())
    ensures InOrder(entries) && forall e :: e in entries <==> Lookup(iter.heap.Content(), e.rid) == Some(e.row)
  {
    hide Inv, Unpinned, PoolModel.View, HeapLaid, Narrow, HeapOf, Released, HasSchema, Balanced, ScanFrom, Lookup;
    hide InOrder;
    hide BufferManager.Abs, BufferManager.View, HeapFileIter.Rest, HeapFileIter.Remaining;
    ghost var p0, v0, due := iter.Rest(), iter.heap.pool.View(), iter.Remaining();
    ScanOfHeap(iter.heap.Content());
    iter.Begin(out);
    BalancedReflexive(p0);
    entries := [];
    var found := true;
    while found
      invariant iter.Valid() && iter.out == out && HasSchema(out.values, iter.heap.schema)
      invariant Balanced(p0, iter.Rest()) && iter.heap.pool.View() == v0
      invariant due == entries + iter.Remaining() && (!found ==> iter.Remaining() == [])
      decreases |iter.Remaining()|, found
    {
      ghost var p1 := iter.Rest();
      UnpinnedBalanced(p0, p1);
      found := iter.Next();
      BalancedTransitive(p0, p1, iter.Rest());
      if found {
        var e := Entry(iter.CurrentRID(), out.values);
        Associative(entries, [e], iter.Remaining());
        entries := entries + [e];
      }
    }
    assert due == entries + [] == entries;
  }

  lemma ScanOfHeap(h: Heap)
    requires Narrow(h)
    ensures InOrder(Scan(h)) && forall e :: e in Scan(h) <==> Lookup(h, e.rid) == Some(e.row)
  {
    ScanExact(h);
  }
}
