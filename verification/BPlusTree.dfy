/** The B+ tree over the buffer pool: descending to a leaf, and the root absorbing a split
    (src/storage/b_plus_tree/b_plus_tree_dir.cc, b_plus_tree.cc). */
module BPlusTrees {
  import opened Bytes
  import opened Values
  import opened Pages
  import opened PoolModel
  import opened BufferManagers
  import opened HeapModel
  import opened BPlusTreeNodes
  import opened Routing
  import opened BPlusTreeModel
  import opened BPlusTreePages
  import opened TreeInsertions

  /** The tree in file leafFile and the other files reads the same in v and w: the leaf file may only have
      grown by zero pages. */
  ghost predicate SameTree(v: Files, w: Files, leafFile: FileId) {
    && leafFile in v && w.Keys == v.Keys
    && (forall f :: f in v && f != leafFile ==> w[f] == v[f])
    && forall p: nat :: LeafAt(w[leafFile], p) == LeafAt(v[leafFile], p)
  }

  lemma SameTreeTransitive(u: Files, v: Files, w: Files, leafFile: FileId)
    requires SameTree(u, v, leafFile) && SameTree(v, w, leafFile)
    ensures SameTree(u, w, leafFile)
  {
    hide LeafAt;
  }

  lemma ExtendSameTree(v: Files, leafFile: FileId, p: nat)
    requires leafFile in v
    ensures SameTree(v, Extend(v, PageId(leafFile, p)), leafFile)
    ensures Extend(v, PageId(leafFile, p))[leafFile][p] == LeafAt(v[leafFile], p)
  {
    var w := Extend(v, PageId(leafFile, p));
    forall q: nat ensures LeafAt(w[leafFile], q) == LeafAt(v[leafFile], q) {
      if q < |v[leafFile]| {
        assert w[leafFile][q] == v[leafFile][q];
      }
    }
  }

  /** What a leaf's search returns, also for a leaf without records. */
  function SearchPos(b: Block, r: Rec): nat {
    if LeafRecs(b) == [] then (if RecLess(LeafSlots(b)[0], r) then 1 else 0) else LowerBound(LeafRecs(b), r)
  }

  /** A leaf of zeros, where a search answers 1 although there are no records: the slot it looks at reads as
      key 0 at record (0, 0). */
  lemma EmptyLeafSearch()
    ensures LeafOk(ZeroBlock()) && LeafRecs(ZeroBlock()) == []
    ensures SearchPos(ZeroBlock(), Rec(1, RID(0, 0))) == 1 && SearchPos(ZeroBlock(), Rec(0, RID(0, 0))) == 0
  {
    var z := ZeroBlock();
    UnsignedOfZeros(z[0..4]);
    UnsignedOfZeros(z[4..8]);
    UnsignedOfZeros(z[8..16]);
    UnsignedOfZeros(z[16..20]);
    UnsignedOfZeros(z[20..24]);
    assert LeafSlots(z)[0] == Rec(0, RID(0, 0));
  }

  lemma RootFacts(t: Tree, dirs: seq<Block>, leaves: seq<Block>, lo: Option<Rec>, hi: Option<Rec>)
    requires t.Dir? && Good(t, dirs, leaves, lo, hi)
    ensures t.page < |dirs| && t.page < MAX_PAGES && DirOk(dirs[t.page]) && NodeOk(NodeOf(dirs[t.page]))
    ensures |NodeOf(dirs[t.page]).kids| == |t.kids| <= MAX_CHILDREN
    ensures GoodAll(t.kids, NodeOf(dirs[t.page]).seps, dirs, leaves, lo, hi)
  {
    hide AllIn, RecLess, GoodAll, Routing.Sorted;
    GoodSorted(t.kids, NodeOf(dirs[t.page]).seps, dirs, leaves, lo, hi);
  }

  lemma PointerAt(t: Tree, dirs: seq<Block>, leaves: seq<Block>, lo: Option<Rec>, hi: Option<Rec>, c: nat)
    requires t.Dir? && Good(t, dirs, leaves, lo, hi) && c < |t.kids|
    ensures t.page < |dirs| && c < MAX_CHILDREN && Kids(dirs[t.page])[c] == Pointer(t.kids[c])
  {
    hide AllIn, RecLess, GoodAll;
    var n := NodeOf(dirs[t.page]);
    assert n.kids[c] == Pointers(t.kids)[c];
  }

  lemma PageBounds(t: Tree, dirs: seq<Block>, leaves: seq<Block>, lo: Option<Rec>, hi: Option<Rec>)
    requires Good(t, dirs, leaves, lo, hi)
    ensures t.page < MAX_PAGES && (t.Dir? ==> t.page < |dirs|)
    ensures t.Leaf? ==> LeafOk(LeafAt(leaves, t.page))
  {
    hide GoodAll;
  }

  /** The child a directory takes for a record, and where the record's leaf is among that child's leaves. */
  lemma ChildFacts(t: Tree, dirs: seq<Block>, leaves: seq<Block>, lo: Option<Rec>, hi: Option<Rec>, r: Rec, c: nat)
    requires t.Dir? && Good(t, dirs, leaves, lo, hi) && t.page < |dirs| && DirOk(dirs[t.page])
    requires c == Rank(NodeOf(dirs[t.page]).seps, r)
    ensures c < |t.kids| && c < MAX_CHILDREN && Kids(dirs[t.page])[c] == Pointer(t.kids[c])
    ensures var seps := NodeOf(dirs[t.page]).seps;
            Good(t.kids[c], dirs, leaves, LowOf(seps, c, lo), HighOf(seps, c, hi))
    ensures t.kids[c].Dir? ==> t.kids[c].page > 0
    ensures FindIdx(t.kids[c], dirs, r) < |LeavesOf(t.kids[c])| && FindIdx(t, dirs, r) < |LeavesOf(t)|
    ensures LeavesOf(t)[FindIdx(t, dirs, r)] == LeavesOf(t.kids[c])[FindIdx(t.kids[c], dirs, r)]
    ensures Pins(t) >= 1 + Pins(t.kids[c])
  {
    hide AllIn, Brackets, RecLess, LeafOk, DirOk, Rank, Good, GoodAll, NodeOf;
    var seps := NodeOf(dirs[t.page]).seps;
    RootFacts(t, dirs, leaves, lo, hi);
    PointerAt(t, dirs, leaves, lo, hi, c);
    GoodChild(t.kids, seps, dirs, leaves, lo, hi, c);
    FindInside(t.kids[c], dirs, leaves, LowOf(seps, c, lo), HighOf(seps, c, hi), r);
    PinsOfChild(t.kids, c);
    FindIsRank(t.kids, seps, dirs, leaves, lo, hi, r);
    IndexInAll(t.kids, c, FindIdx(t.kids[c], dirs, r));
  }

  lemma IndexInAll(ts: seq<Tree>, c: nat, i: nat)
    requires c < |ts| && i < |LeavesOf(ts[c])|
    ensures |LeavesOfAll(ts[..c])| + i < |LeavesOfAll(ts)|
    ensures LeavesOfAll(ts)[|LeavesOfAll(ts[..c])| + i] == LeavesOf(ts[c])[i]
  {
    hide LeavesOfAll, LeavesOf;
    LeavesOfAllAt(ts, c);
  }

  lemma FindInside(t: Tree, dirs: seq<Block>, leaves: seq<Block>, lo: Option<Rec>, hi: Option<Rec>, r: Rec)
    requires Good(t, dirs, leaves, lo, hi)
    ensures FindIdx(t, dirs, r) < |LeavesOf(t)|
  {
    FindBrackets(t, dirs, leaves, lo, hi, r);
  }

  /** BPlusTreeLeaf(bpt, page_num), search_index, and the release of the leaf. */
  method SearchInLeaf(pool: BufferManager, leafFile: FileId, p: nat, record: Rec) returns (pos: nat)
    requires pool.Valid() && leafFile in pool.View() && p < MAX_PAGES && Unpinned(pool.Abs()) > 0
    requires LeafOk(LeafAt(pool.View()[leafFile], p))
    modifies pool.Repr()
    ensures pool.Valid() && Balanced(old(pool.Abs()), pool.Abs()) && SameTree(old(pool.View()), pool.View(), leafFile)
    ensures pos == SearchPos(LeafAt(old(pool.View())[leafFile], p), record)
  {
    hide Inv, Unpinned, PoolModel.View, Acquired, Balanced, SameTree, LeafAt, LeafOk, LeafRecs, LowerBound, RecLess;
    hide Released, Extend, Served;
    hide BufferManager.Abs, BufferManager.View;
    UnpinnedHas(pool.Abs());
    ExtendSameTree(pool.View(), leafFile, p);
    var page;
    ghost var k;
    page, k := pool.GetPage(leafFile, p);
    pool.HeldData(page, k, PageId(leafFile, p));
    var leaf := BPlusTreeLeaf(page);
    ghost var probed;
    pos, probed := leaf.SearchIndex(record);
    ReleaseBalances(old(pool.Abs()), pool.Abs(), k, PageId(leafFile, p));
    pool.Unpin(page, k, PageId(leafFile, p));
  }

  /** The search answers for the tree under t: the page of the leaf, and the position in it. */
  ghost predicate LeafFound(t: Tree, v: Files, dirFile: FileId, leafFile: FileId, r: Rec, leaf: nat, pos: nat)
    requires dirFile in v && leafFile in v
  {
    && FindIdx(t, v[dirFile], r) < |LeavesOf(t)|
    && leaf == LeavesOf(t)[FindIdx(t, v[dirFile], r)]
    && pos == SearchPos(LeafAt(v[leafFile], leaf), r)
  }

  lemma LeafFoundUp(t: Tree, v: Files, w: Files, dirFile: FileId, leafFile: FileId, lo: Option<Rec>, hi: Option<Rec>,
                    r: Rec, c: nat, leaf: nat, pos: nat)
    requires dirFile in v && leafFile in v && dirFile != leafFile && SameTree(v, w, leafFile)
    requires t.Dir? && Good(t, v[dirFile], v[leafFile], lo, hi) && t.page < |v[dirFile]| && DirOk(v[dirFile][t.page])
    requires c == Rank(NodeOf(v[dirFile][t.page]).seps, r) && c < |t.kids|
    requires LeafFound(t.kids[c], w, dirFile, leafFile, r, leaf, pos)
    ensures LeafFound(t, v, dirFile, leafFile, r, leaf, pos)
  {
    hide Good, LeafAt, SearchPos, Rank, NodeOf, DirOk;
    ChildFacts(t, v[dirFile], v[leafFile], lo, hi, r, c);
  }

  lemma LeafFoundHere(p: nat, v: Files, dirFile: FileId, leafFile: FileId, r: Rec)
    requires dirFile in v && leafFile in v
    ensures LeafFound(Leaf(p), v, dirFile, leafFile, r, p, SearchPos(LeafAt(v[leafFile], p), r))
  {
    hide SearchPos, LeafAt;
  }

  /** search_leaf: from a directory the caller holds down to the leaf the record belongs to. */
  method SearchLeaf(pool: BufferManager, dirFile: FileId, leafFile: FileId, dir: BPlusTreeDir, ghost k: nat,
                    record: Rec,
                    ghost t: Tree, ghost lo: Option<Rec>, ghost hi: Option<Rec>) returns (leaf: nat, pos: nat)
    requires t.Dir? && pool.Holds(dir.page, k, PageId(dirFile, t.page)) && Unpinned(pool.Abs()) >= Pins(t)
    requires dirFile in pool.View() && leafFile in pool.View() && dirFile != leafFile
    requires Good(t, pool.View()[dirFile], pool.View()[leafFile], lo, hi)
    modifies pool.Repr()
    ensures pool.Valid() && Balanced(old(pool.Abs()), pool.Abs()) && SameTree(old(pool.View()), pool.View(), leafFile)
    ensures LeafFound(t, old(pool.View()), dirFile, leafFile, record, leaf, pos) && leaf < MAX_PAGES
    decreases t, 0
  {
    hide Inv, Unpinned, PoolModel.View, Balanced, SameTree, LeafAt, Good, GoodAll, LeafFound, Pins, Rank, RecLess;
    hide NodeOf, Kids, SearchPos;
    hide BufferManager.Abs, BufferManager.View;
    ghost var v := pool.View();
    RootFacts(t, v[dirFile], v[leafFile], lo, hi);
    pool.HeldData(dir.page, k, PageId(dirFile, t.page));
    label L:
    var idx := dir.SearchChildIdx(record);
    ChildFacts(t, v[dirFile], v[leafFile], lo, hi, record, idx);
    var pageNum := dir.GetChild(idx);
    pool.Undisturbed@L();
    ghost var child := t.kids[idx];
    ghost var seps := NodeOf(v[dirFile][t.page]).seps;
    PageBounds(child, v[dirFile], v[leafFile], LowOf(seps, idx, lo), HighOf(seps, idx, hi));
    if pageNum < 0 {
      leaf, pos := SearchBelow(pool, dirFile, leafFile, -pageNum, record, child,
                               LowOf(seps, idx, lo), HighOf(seps, idx, hi));
    } else {
      leaf := pageNum;
      pos := SearchInLeaf(pool, leafFile, pageNum, record);
      LeafFoundHere(leaf, v, dirFile, leafFile, record);
    }
    SameTreeReflexive(v, leafFile);
    LeafFoundUp(t, v, v, dirFile, leafFile, lo, hi, record, idx, leaf, pos);
  }

  lemma SameTreeReflexive(v: Files, leafFile: FileId)
    requires leafFile in v
    ensures SameTree(v, v, leafFile)
  {
  }

  /** BPlusTreeDir(bpt, -page_num), its search_leaf, and its release. */
  method SearchBelow(pool: BufferManager, dirFile: FileId, leafFile: FileId, p: int, record: Rec,
                     ghost t: Tree, ghost lo: Option<Rec>, ghost hi: Option<Rec>) returns (leaf: nat, pos: nat)
    requires pool.Valid() && t.Dir? && p == t.page && Unpinned(pool.Abs()) >= 1 + Pins(t)
    requires dirFile in pool.View() && leafFile in pool.View() && dirFile != leafFile
    requires Good(t, pool.View()[dirFile], pool.View()[leafFile], lo, hi)
    modifies pool.Repr()
    ensures pool.Valid() && Balanced(old(pool.Abs()), pool.Abs()) && SameTree(old(pool.View()), pool.View(), leafFile)
    ensures LeafFound(t, old(pool.View()), dirFile, leafFile, record, leaf, pos) && leaf < MAX_PAGES
    decreases t, 1
  {
    hide Inv, Unpinned, PoolModel.View, Balanced, Acquired, SameTree, LeafAt, Good, GoodAll, LeafFound, Pins, RecLess;
    hide Served;
    hide BufferManager.Abs, BufferManager.View;
    ghost var v, p0 := pool.View(), pool.Abs();
    ghost var pid := PageId(dirFile, p);
    PageBounds(t, v[dirFile], v[leafFile], lo, hi);
    UnpinnedHas(p0);
    var page;
    ghost var k;
    page, k := pool.GetPage(dirFile, p);
    ghost var p1 := pool.Abs();
    UnpinnedAcquired(p0, p1, k, pid);
    leaf, pos := SearchLeaf(pool, dirFile, leafFile, BPlusTreeDir(page), k, record, t, lo, hi);
    AcquiredThenBalanced(p0, p1, pool.Abs(), k, pid);
    AcquiredHolds(p0, pool.Abs(), k, pid);
    pool.HoldsByAbs(page, k, pid);
    ReleaseBalances(p0, pool.Abs(), k, pid);
    pool.Unpin(page, k, pid);
  }

  // ---------- inserting into a leaf ----------

  /** What an insertion into leaf page p does: a leaf without records takes the record, any other leaf is left
      alone. */
  ghost predicate LeafInserted(v: Files, w: Files, leafFile: FileId, p: nat, r: Rec, o: LeafOutcome) {
    && leafFile in v
    && var b := LeafAt(v[leafFile], p);
       if LeafRecs(b) == [] then
         && o == Accepted && w.Keys == v.Keys && (forall f :: f in v && f != leafFile ==> w[f] == v[f])
         && Filled(v[leafFile], w[leafFile], p, r) && NextLeaf(LeafAt(w[leafFile], p)) == NextLeaf(b)
       else
         SameTree(v, w, leafFile) && o == Refused(b, r)
  }

  /** Why a leaf with records does not take one, and where it would belong. */
  function Refused(b: Block, r: Rec): LeafOutcome {
    if TakenForDuplicate(b, r) then Duplicate
    else if RecordCount(b) < LEAF_MAX then NeedsRoom(LowerBound(LeafRecs(b), r))
    else NeedsSplit(LowerBound(LeafRecs(b), r))
  }

  lemma LeafInsertedViews(v: Files, leafFile: FileId, p: nat, r: Rec, o: LeafOutcome, b': Block)
    requires leafFile in v && LeafOk(b')
    requires var b := LeafAt(v[leafFile], p);
             if LeafRecs(b) == [] then o == Accepted && LeafRecs(b') == [r] && NextLeaf(b') == NextLeaf(b)
             else b' == b && o == Refused(b, r)
    ensures LeafInserted(v, Store(Extend(v, PageId(leafFile, p)), PageId(leafFile, p), b'), leafFile, p, r, o)
  {
    hide LeafRecs, LeafOk, NextLeaf, Refused;
    var e := Extend(v, PageId(leafFile, p));
    ExtendSameTree(v, leafFile, p);
    if LeafRecs(LeafAt(v[leafFile], p)) == [] {
      var w := Store(e, PageId(leafFile, p), b');
      forall q: nat | q != p ensures LeafAt(w[leafFile], q) == LeafAt(v[leafFile], q) {
        assert LeafAt(e[leafFile], q) == LeafAt(v[leafFile], q);
      }
    } else {
      StoreSame(e, PageId(leafFile, p), b');
    }
  }

  method InsertHeld(pool: BufferManager, leaf: BPlusTreeLeaf, ghost k: nat, ghost pid: PageId, record: Rec,
                    ghost p0: Pool)
    returns (o: LeafOutcome)
    requires pool.Holds(leaf.page, k, pid) && Acquired(p0, pool.Abs(), k, pid) && leaf.page.Ok()
    requires LeafOk(leaf.page.Data())
    modifies leaf.page`dirty, leaf.page.bytes
    ensures pool.Holds(leaf.page, k, pid) && Acquired(p0, pool.Abs(), k, pid)
    ensures OnDisk(old(pool.View()), pid) && leaf.page.Ok()
    ensures pool.View() == Store(old(pool.View()), pid, leaf.page.Data())
    ensures LeafOk(leaf.page.Data())
    ensures var b := old(leaf.page.Data());
            if LeafRecs(b) == [] then
              o == Accepted && LeafRecs(leaf.page.Data()) == [record] && NextLeaf(leaf.page.Data()) == NextLeaf(b)
            else
              leaf.page.Data() == b && o == Refused(b, record)
  {
    hide Inv, Acquired, Store, LeafRecs, LeafOk, NextLeaf, LowerBound, TakenForDuplicate, RecordCount;
    hide BufferManager.Abs, BufferManager.View;
    pool.HeldData(leaf.page, k, pid);
    ghost var p1 := pool.Abs();
    label L:
    o := leaf.InsertRecord(record);
    pool.WrittenHeld@L(k);
    AcquiredRewritten(p0, p1, pool.Abs(), k, pid);
  }

  /** BPlusTreeLeaf(bpt, p), its insert_record, and its release. */
  method InsertInLeaf(pool: BufferManager, leafFile: FileId, p: nat, record: Rec) returns (o: LeafOutcome)
    requires pool.Valid() && leafFile in pool.View() && p < MAX_PAGES && Unpinned(pool.Abs()) > 0
    requires LeafOk(LeafAt(pool.View()[leafFile], p))
    modifies pool.Repr()
    ensures pool.Valid() && Balanced(old(pool.Abs()), pool.Abs())
    ensures LeafInserted(old(pool.View()), pool.View(), leafFile, p, record, o)
  {
    hide Inv, Unpinned, PoolModel.View, Acquired, Balanced, LeafInserted, LeafAt, LeafOk, LeafRecs, NextLeaf, Refused;
    hide Released, Extend, Store, Served;
    hide BufferManager.Abs, BufferManager.View;
    ghost var v, p0 := pool.View(), pool.Abs();
    UnpinnedHas(p0);
    ExtendSameTree(v, leafFile, p);
    var page;
    ghost var k;
    page, k := pool.GetPage(leafFile, p);
    pool.HeldData(page, k, PageId(leafFile, p));
    o := InsertHeld(pool, BPlusTreeLeaf(page), k, PageId(leafFile, p), record, p0);
    LeafInsertedViews(v, leafFile, p, record, o, page.Data());
    ReleaseBalances(p0, pool.Abs(), k, PageId(leafFile, p));
    pool.Unpin(page, k, PageId(leafFile, p));
  }

  /** An insertion into the tree under t went to the leaf its record is routed to. */
  ghost predicate TreeInserted(t: Tree, v: Files, w: Files, dirFile: FileId, leafFile: FileId, r: Rec, o: LeafOutcome) {
    && dirFile in v && FindIdx(t, v[dirFile], r) < |LeavesOf(t)|
    && LeafInserted(v, w, leafFile, LeavesOf(t)[FindIdx(t, v[dirFile], r)], r, o)
  }

  lemma TreeInsertedHere(p: nat, v: Files, w: Files, dirFile: FileId, leafFile: FileId, r: Rec, o: LeafOutcome)
    requires dirFile in v && LeafInserted(v, w, leafFile, p, r, o)
    ensures TreeInserted(Leaf(p), v, w, dirFile, leafFile, r, o)
  {
    hide LeafInserted;
  }

  lemma TreeInsertedUp(t: Tree, v: Files, w: Files, dirFile: FileId, leafFile: FileId, lo: Option<Rec>, hi: Option<Rec>,
                       r: Rec, c: nat, o: LeafOutcome)
    requires dirFile in v && leafFile in v
    requires t.Dir? && Good(t, v[dirFile], v[leafFile], lo, hi) && t.page < |v[dirFile]| && DirOk(v[dirFile][t.page])
    requires c == Rank(NodeOf(v[dirFile][t.page]).seps, r) && c < |t.kids|
    requires TreeInserted(t.kids[c], v, w, dirFile, leafFile, r, o)
    ensures TreeInserted(t, v, w, dirFile, leafFile, r, o)
  {
    hide Good, LeafInserted, Rank, NodeOf, DirOk;
    ChildFacts(t, v[dirFile], v[leafFile], lo, hi, r, c);
  }

  /** insert_record up to line 105: down to a leaf, from a directory the caller holds. */
  method InsertInDir(pool: BufferManager, dirFile: FileId, leafFile: FileId, dir: BPlusTreeDir, ghost k: nat,
                     record: Rec,
                     ghost t: Tree, ghost lo: Option<Rec>, ghost hi: Option<Rec>) returns (o: LeafOutcome)
    requires t.Dir? && pool.Holds(dir.page, k, PageId(dirFile, t.page)) && Unpinned(pool.Abs()) >= Pins(t)
    requires dirFile in pool.View() && leafFile in pool.View() && dirFile != leafFile
    requires Good(t, pool.View()[dirFile], pool.View()[leafFile], lo, hi)
    modifies pool.Repr()
    ensures pool.Valid() && Balanced(old(pool.Abs()), pool.Abs())
    ensures TreeInserted(t, old(pool.View()), pool.View(), dirFile, leafFile, record, o)
    decreases t, 0
  {
    hide Inv, Unpinned, PoolModel.View, Balanced, TreeInserted, LeafAt, Good, GoodAll, Pins, Rank, RecLess, NodeOf;
    hide Kids;
    hide BufferManager.Abs, BufferManager.View;
    ghost var v := pool.View();
    RootFacts(t, v[dirFile], v[leafFile], lo, hi);
    pool.HeldData(dir.page, k, PageId(dirFile, t.page));
    label L:
    var idx := ChildIdx(dir, record);
    ChildFacts(t, v[dirFile], v[leafFile], lo, hi, record, idx);
    var pagePointer := dir.GetChild(idx);
    pool.Undisturbed@L();
    ghost var child := t.kids[idx];
    ghost var seps := NodeOf(v[dirFile][t.page]).seps;
    PageBounds(child, v[dirFile], v[leafFile], LowOf(seps, idx, lo), HighOf(seps, idx, hi));
    if pagePointer < 0 {
      o := InsertBelow(pool, dirFile, leafFile, -pagePointer, record, child,
                       LowOf(seps, idx, lo), HighOf(seps, idx, hi));
    } else {
      o := InsertInLeaf(pool, leafFile, pagePointer, record);
      TreeInsertedHere(pagePointer, v, pool.View(), dirFile, leafFile, record, o);
    }
    TreeInsertedUp(t, v, pool.View(), dirFile, leafFile, lo, hi, record, idx, o);
  }

  /** record_count > 0 ? search_child_idx(record) : 0 */
  method ChildIdx(dir: BPlusTreeDir, record: Rec) returns (idx: nat)
    requires dir.Ok()
    ensures idx == Rank(NodeOf(dir.page.Data()).seps, record)
  {
    hide Rank, Seps, Kids;
    var childCount := dir.GetChildCount();
    idx := 0;
    if childCount - 1 > 0 {
      idx := dir.SearchChildIdx(record);
    } else {
      RankNothing(NodeOf(dir.page.Data()), record);
    }
  }

  lemma RankNothing(n: Node, r: Rec)
    requires |n.kids| == |n.seps| + 1 && |n.kids| <= 1
    ensures Rank(n.seps, r) == 0
  {
  }

  /** BPlusTreeDir(bpt, -page_pointer), its insert_record, and its release. */
  method InsertBelow(pool: BufferManager, dirFile: FileId, leafFile: FileId, p: int, record: Rec,
                     ghost t: Tree, ghost lo: Option<Rec>, ghost hi: Option<Rec>) returns (o: LeafOutcome)
    requires pool.Valid() && t.Dir? && p == t.page && Unpinned(pool.Abs()) >= 1 + Pins(t)
    requires dirFile in pool.View() && leafFile in pool.View() && dirFile != leafFile
    requires Good(t, pool.View()[dirFile], pool.View()[leafFile], lo, hi)
    modifies pool.Repr()
    ensures pool.Valid() && Balanced(old(pool.Abs()), pool.Abs())
    ensures TreeInserted(t, old(pool.View()), pool.View(), dirFile, leafFile, record, o)
    decreases t, 1
  {
    hide Inv, Unpinned, PoolModel.View, Balanced, Acquired, TreeInserted, LeafAt, Good, GoodAll, Pins, RecLess;
    hide Served;
    hide BufferManager.Abs, BufferManager.View;
    ghost var v, p0 := pool.View(), pool.Abs();
    ghost var pid := PageId(dirFile, p);
    PageBounds(t, v[dirFile], v[leafFile], lo, hi);
    UnpinnedHas(p0);
    var page;
    ghost var k;
    page, k := pool.GetPage(dirFile, p);
    ghost var p1 := pool.Abs();
    UnpinnedAcquired(p0, p1, k, pid);
    o := InsertInDir(pool, dirFile, leafFile, BPlusTreeDir(page), k, record, t, lo, hi);
    AcquiredThenBalanced(p0, p1, pool.Abs(), k, pid);
    AcquiredHolds(p0, pool.Abs(), k, pid);
    pool.HoldsByAbs(page, k, pid);
    ReleaseBalances(p0, pool.Abs(), k, pid);
    pool.Unpin(page, k, pid);
  }

  // ---------- the root absorbs a split ----------

  /** Case 1 on a page the caller holds. */
  method AbsorbHeld(pool: BufferManager, dir: BPlusTreeDir, ghost k: nat, ghost pid: PageId, split: Split)
    requires pool.Holds(dir.page, k, pid) && dir.Ok() && ChildCount(dir.page.Data()) < MAX_CHILDREN
    modifies dir.page`dirty, dir.page.bytes
    ensures pool.Holds(dir.page, k, pid) && Balanced(old(pool.Abs()), pool.Abs()) && dir.Ok()
    ensures OnDisk(old(pool.View()), pid) && pool.View() == Store(old(pool.View()), pid, dir.page.Data())
    ensures var n := NodeOf(old(dir.page.Data()));
            NodeOf(dir.page.Data()) == Absorb(n, Rank(n.seps, split.record), split.record, split.page)
  {
    hide Inv, Store, NodeOf, Absorb, Rank, NodeOk, Balanced;
    hide BufferManager.Abs, BufferManager.View;
    pool.HeldData(dir.page, k, pid);
    label L:
    dir.AbsorbInPlace(split);
    pool.WrittenHeld@L(k);
    RewrittenBalanced(old(pool.Abs()), pool.Abs(), k);
  }

  /** The first part of case 3 on a page the caller holds. */
  method OverflowHeld(pool: BufferManager, dir: BPlusTreeDir, ghost k: nat, ghost pid: PageId, split: Split)
    returns (lastRecord: Rec, lastChild: int32)
    requires pool.Holds(dir.page, k, pid) && dir.Ok() && ChildCount(dir.page.Data()) == MAX_CHILDREN
    modifies dir.page`dirty, dir.page.bytes
    ensures pool.Holds(dir.page, k, pid) && Balanced(old(pool.Abs()), pool.Abs())
    ensures OnDisk(old(pool.View()), pid) && dir.page.Ok()
    ensures pool.View() == Store(old(pool.View()), pid, dir.page.Data())
    ensures var n := NodeOf(old(dir.page.Data()));
            var i := Rank(n.seps, split.record);
            var seps, kids := InsertAt(n.seps, i, split.record), InsertAt(n.kids, i + 1, split.page);
            && Seps(dir.page.Data()) == seps[..MAX_RECORDS] && lastRecord == seps[MAX_RECORDS]
            && Kids(dir.page.Data()) == kids[..MAX_CHILDREN] && lastChild == kids[MAX_CHILDREN]
  {
    hide Inv, Store, InsertAt, Rank, NodeOk, Balanced, Seps, Kids;
    hide BufferManager.Abs, BufferManager.View;
    pool.HeldData(dir.page, k, pid);
    label L:
    lastRecord, lastChild := dir.AbsorbOverflowing(split);
    pool.WrittenHeld@L(k);
    RewrittenBalanced(old(pool.Abs()), pool.Abs(), k);
  }

  method FillLeftHeld(pool: BufferManager, root: BPlusTreeDir, ghost kr: nat, ghost rid: PageId,
                      lhs: BPlusTreeDir, ghost k: nat, ghost pid: PageId)
    requires pool.Holds(root.page, kr, rid) && pool.Holds(lhs.page, k, pid) && rid != pid
    modifies lhs.page`dirty, lhs.page.bytes
    ensures pool.Holds(root.page, kr, rid) && pool.Holds(lhs.page, k, pid) && Balanced(old(pool.Abs()), pool.Abs())
    ensures OnDisk(old(pool.View()), pid) && lhs.page.Ok()
    ensures pool.View() == Store(old(pool.View()), pid, lhs.page.Data())
    ensures root.page.Ok() && root.page.Data() == old(root.page.Data()) && DirOk(lhs.page.Data())
    ensures NodeOf(lhs.page.Data()) == Node(Seps(root.page.Data())[..102], Kids(root.page.Data())[..103])
  {
    hide Inv, Store, NodeOf, Balanced, Seps, Kids, DirOk;
    hide BufferManager.Abs, BufferManager.View;
    pool.HeldData(root.page, kr, rid);
    pool.HeldData(lhs.page, k, pid);
    pool.HeldApart(root.page, kr, rid, lhs.page, k, pid);
    pool.AbsOfHeld(root.page, kr, rid);
    label L:
    root.FillLeft(lhs);
    pool.WrittenHeld@L(k);
    RewrittenBalanced(old(pool.Abs()), pool.Abs(), k);
    pool.HoldsByAbs(root.page, kr, rid);
  }

  method FillRightHeld(pool: BufferManager, root: BPlusTreeDir, ghost kr: nat, ghost rid: PageId,
                       rhs: BPlusTreeDir, ghost k: nat, ghost pid: PageId, lastRecord: Rec, lastChild: int32)
    requires pool.Holds(root.page, kr, rid) && pool.Holds(rhs.page, k, pid) && rid != pid
    modifies rhs.page`dirty, rhs.page.bytes
    ensures pool.Holds(root.page, kr, rid) && pool.Holds(rhs.page, k, pid) && Balanced(old(pool.Abs()), pool.Abs())
    ensures OnDisk(old(pool.View()), pid) && rhs.page.Ok()
    ensures pool.View() == Store(old(pool.View()), pid, rhs.page.Data())
    ensures root.page.Ok() && root.page.Data() == old(root.page.Data()) && DirOk(rhs.page.Data())
    ensures NodeOf(rhs.page.Data()) ==
      Node(Seps(root.page.Data())[103..] + [lastRecord], Kids(root.page.Data())[103..] + [lastChild])
  {
    hide Inv, Store, NodeOf, Balanced, Seps, Kids, DirOk;
    hide BufferManager.Abs, BufferManager.View;
    pool.HeldData(root.page, kr, rid);
    pool.HeldData(rhs.page, k, pid);
    pool.HeldApart(root.page, kr, rid, rhs.page, k, pid);
    pool.AbsOfHeld(root.page, kr, rid);
    label L:
    root.FillRight(rhs, lastRecord, lastChild);
    pool.WrittenHeld@L(k);
    RewrittenBalanced(old(pool.Abs()), pool.Abs(), k);
    pool.HoldsByAbs(root.page, kr, rid);
  }

  method BecomeParentHeld(pool: BufferManager, root: BPlusTreeDir, ghost k: nat, ghost pid: PageId, lhs: int,
                          rhs: int, record: Rec)
    requires pool.Holds(root.page, k, pid) && 0 < lhs < 0x8000_0000 && 0 < rhs < 0x8000_0000
    modifies root.page`dirty, root.page.bytes
    ensures pool.Holds(root.page, k, pid) && Balanced(old(pool.Abs()), pool.Abs())
    ensures OnDisk(old(pool.View()), pid) && root.page.Ok()
    ensures pool.View() == Store(old(pool.View()), pid, root.page.Data())
    ensures DirOk(root.page.Data()) && NodeOf(root.page.Data()) == Node([record], [-lhs, -rhs])
  {
    hide Inv, Store, NodeOf, Balanced, DirOk;
    hide BufferManager.Abs, BufferManager.View;
    pool.HeldData(root.page, k, pid);
    label L:
    root.BecomeParent(lhs, rhs, record);
    pool.WrittenHeld@L(k);
    RewrittenBalanced(old(pool.Abs()), pool.Abs(), k);
  }

  /** The directory file before and after splitting the root, where n is the directory the root would have
      become with room for one more child: the root is page 0 as ever, and two pages are new at the end. */
  ghost predicate RootSplit(v: Files, w: Files, d: FileId, n: Node)
    requires |n.kids| == |n.seps| + 1 && |n.seps| == MAX_RECORDS + 1
  {
    && d in v && w.Keys == v.Keys && 0 < |v[d]| <= MAX_PAGES - 2 && |w[d]| == |v[d]| + 2
    && (forall f :: f in v && f != d ==> w[f] == v[f])
    && (forall p :: 0 < p < |v[d]| ==> w[d][p] == v[d][p])
    && DirOk(w[d][0]) && NodeOf(w[d][0]) == Node([n.seps[102]], [-|v[d]|, -(|v[d]| + 1)])
    && DirOk(w[d][|v[d]|]) && NodeOf(w[d][|v[d]|]) == LeftHalf(n, 102)
    && DirOk(w[d][|v[d]| + 1]) && NodeOf(w[d][|v[d]| + 1]) == RightHalf(n, 102)
  }

  function Grown(v: Files, d: FileId): Files
    requires d in v
  {
    v[d := v[d] + [ZeroBlock()]]
  }

  lemma RootSplitViews(v: Files, d: FileId, n: Node, lb: Block, rb: Block, b: Block)
    requires |n.kids| == |n.seps| + 1 && |n.seps| == MAX_RECORDS + 1
    requires d in v && 0 < |v[d]| <= MAX_PAGES - 2
    requires DirOk(b) && NodeOf(b) == Node([n.seps[102]], [-|v[d]|, -(|v[d]| + 1)])
    requires DirOk(lb) && NodeOf(lb) == LeftHalf(n, 102) && DirOk(rb) && NodeOf(rb) == RightHalf(n, 102)
    ensures var v2 := Grown(Grown(v, d), d);
            var v3 := Store(v2, PageId(d, |v[d]|), lb);
            var v4 := Store(v3, PageId(d, |v[d]| + 1), rb);
            RootSplit(v, Store(v4, PageId(d, 0), b), d, n)
  {
    hide NodeOf, DirOk, LeftHalf, RightHalf;
  }

  lemma HalvesByArrays(n: Node, seps: seq<Rec>, kids: seq<int32>, lastRecord: Rec, lastChild: int32)
    requires |n.kids| == |n.seps| + 1 && |n.seps| == MAX_RECORDS + 1
    requires seps == n.seps[..MAX_RECORDS] && lastRecord == n.seps[MAX_RECORDS]
    requires kids == n.kids[..MAX_CHILDREN] && lastChild == n.kids[MAX_CHILDREN]
    ensures Node(seps[..102], kids[..103]) == LeftHalf(n, 102)
    ensures Node(seps[103..] + [lastRecord], kids[103..] + [lastChild]) == RightHalf(n, 102)
    ensures seps[102] == n.seps[102]
  {
  }

  /** Case 3, second part: the two new directories take the halves, and the root becomes their parent. */
  method SplitRoot(pool: BufferManager, d: FileId, root: BPlusTreeDir, ghost k: nat, lastRecord: Rec,
                   lastChild: int32, ghost n: Node)
    requires pool.Holds(root.page, k, PageId(d, 0)) && d in pool.View() && Unpinned(pool.Abs()) > 1
    requires 0 < |pool.View()[d]| <= MAX_PAGES - 2
    requires |n.kids| == |n.seps| + 1 && |n.seps| == MAX_RECORDS + 1 && root.page.Ok()
    requires Seps(root.page.Data()) == n.seps[..MAX_RECORDS] && lastRecord == n.seps[MAX_RECORDS]
    requires Kids(root.page.Data()) == n.kids[..MAX_CHILDREN] && lastChild == n.kids[MAX_CHILDREN]
    modifies pool.Repr()
    ensures pool.Holds(root.page, k, PageId(d, 0)) && Balanced(old(pool.Abs()), pool.Abs())
    ensures RootSplit(old(pool.View()), pool.View(), d, n)
  {
    hide Inv, Unpinned, PoolModel.View, Acquired, Balanced, RootSplit, Seps, Kids;
    hide BufferManager.Abs, BufferManager.View;
    ghost var p0, v := pool.Abs(), pool.View();
    ghost var pid := PageId(d, |v[d]|);
    UnpinnedHas(p0);
    pool.HeldData(root.page, k, PageId(d, 0));
    pool.AbsOfHeld(root.page, k, PageId(d, 0));
    var page;
    ghost var kl;
    page, kl := pool.AppendPage(d);
    ghost var p1 := pool.Abs();
    AcquiredKeeps(p0, p1, kl, pid, k);
    pool.HoldsByAbs(root.page, k, PageId(d, 0));
    pool.HeldData(root.page, k, PageId(d, 0));
    UnpinnedAcquired(p0, p1, kl, pid);
    SplitRootInto(pool, d, root, k, BPlusTreeDir(page), kl, lastRecord, lastChild, n, v);
    AcquiredThenBalanced(p0, p1, pool.Abs(), kl, pid);
    AcquiredHolds(p0, pool.Abs(), kl, pid);
    pool.HoldsByAbs(page, kl, pid);
    ReleaseBalances(p0, pool.Abs(), kl, pid);
    pool.Unpin(page, kl, pid);
    BalancedKeeps(p0, pool.Abs(), k);
    pool.HoldsByAbs(root.page, k, PageId(d, 0));
  }

  method SplitRootInto(pool: BufferManager, d: FileId, root: BPlusTreeDir, ghost k: nat, lhs: BPlusTreeDir,
                       ghost kl: nat,
                       lastRecord: Rec, lastChild: int32, ghost n: Node, ghost v: Files)
    requires d in v && 0 < |v[d]| <= MAX_PAGES - 2 && pool.Holds(root.page, k, PageId(d, 0))
    requires pool.Holds(lhs.page, kl, PageId(d, |v[d]|)) && pool.View() == Grown(v, d) && Unpinned(pool.Abs()) > 0
    requires |n.kids| == |n.seps| + 1 && |n.seps| == MAX_RECORDS + 1 && root.page.Ok()
    requires Seps(root.page.Data()) == n.seps[..MAX_RECORDS] && lastRecord == n.seps[MAX_RECORDS]
    requires Kids(root.page.Data()) == n.kids[..MAX_CHILDREN] && lastChild == n.kids[MAX_CHILDREN]
    modifies pool.Repr()
    ensures pool.Valid() && Balanced(old(pool.Abs()), pool.Abs()) && RootSplit(v, pool.View(), d, n)
  {
    hide Inv, Unpinned, PoolModel.View, Acquired, Balanced, RootSplit, Seps, Kids, Store, NodeOf, DirOk, LeftHalf;
    hide RightHalf;
    hide BufferManager.Abs, BufferManager.View;
    ghost var p1 := pool.Abs();
    ghost var rid, lid, pid := PageId(d, 0), PageId(d, |v[d]|), PageId(d, |v[d]| + 1);
    UnpinnedHas(p1);
    pool.HeldData(root.page, k, rid);
    pool.AbsOfHeld(root.page, k, rid);
    pool.AbsOfHeld(lhs.page, kl, lid);
    var page;
    ghost var kr;
    page, kr := pool.AppendPage(d);
    ghost var p2 := pool.Abs();
    AcquiredKeeps(p1, p2, kr, pid, k);
    AcquiredKeeps(p1, p2, kr, pid, kl);
    pool.HoldsByAbs(root.page, k, rid);
    pool.HoldsByAbs(lhs.page, kl, lid);
    pool.HeldData(root.page, k, rid);
    HalvesByArrays(n, Seps(root.page.Data()), Kids(root.page.Data()), lastRecord, lastChild);
    FillSplit(pool, d, root, k, lhs, kl, BPlusTreeDir(page), kr, lastRecord, lastChild, n, v);
    AcquiredThenBalanced(p1, p2, pool.Abs(), kr, pid);
    AcquiredHolds(p1, pool.Abs(), kr, pid);
    pool.HoldsByAbs(page, kr, pid);
    ReleaseBalances(p1, pool.Abs(), kr, pid);
    pool.Unpin(page, kr, pid);
  }

  /** The writes to the three pages. */
  method FillSplit(pool: BufferManager, d: FileId, root: BPlusTreeDir, ghost k: nat, lhs: BPlusTreeDir, ghost kl: nat,
                   rhs: BPlusTreeDir, ghost kr: nat, lastRecord: Rec, lastChild: int32, ghost n: Node, ghost v: Files)
    requires pool.Holds(root.page, k, PageId(d, 0)) && root.page.Ok()
    requires d in v && 0 < |v[d]| <= MAX_PAGES - 2 && pool.View() == Grown(Grown(v, d), d)
    requires pool.Holds(lhs.page, kl, PageId(d, |v[d]|)) && pool.Holds(rhs.page, kr, PageId(d, |v[d]| + 1))
    requires |n.kids| == |n.seps| + 1 && |n.seps| == MAX_RECORDS + 1
    requires var seps, kids := Seps(root.page.Data()), Kids(root.page.Data());
             && Node(seps[..102], kids[..103]) == LeftHalf(n, 102) && seps[102] == n.seps[102]
             && Node(seps[103..] + [lastRecord], kids[103..] + [lastChild]) == RightHalf(n, 102)
    modifies pool.Repr()
    ensures pool.Valid() && Balanced(old(pool.Abs()), pool.Abs()) && RootSplit(v, pool.View(), d, n)
  {
    hide Inv, Unpinned, PoolModel.View, Balanced, RootSplit, Seps, Kids, Store, NodeOf, DirOk, LeftHalf, RightHalf;
    hide BufferManager.Abs, BufferManager.View;
    ghost var rid := PageId(d, 0);
    pool.HeldData(root.page, k, rid);
    var lhsNumber, rhsNumber := lhs.page.pageId.number, rhs.page.pageId.number;
    var splitRecord;
    ghost var lb, rb;
    splitRecord, lb, rb := FillHalves(pool, d, root, k, lhs, kl, rhs, kr, lastRecord, lastChild, |v[d]|);
    ghost var p3 := pool.Abs();
    pool.HeldData(root.page, k, rid);
    BecomeParentHeld(pool, root, k, rid, lhsNumber, rhsNumber, splitRecord);
    BalancedTransitive(old(pool.Abs()), p3, pool.Abs());
    RootSplitViews(v, d, n, lb, rb, root.page.Data());
  }

  method FillHalves(pool: BufferManager, d: FileId, root: BPlusTreeDir, ghost k: nat, lhs: BPlusTreeDir, ghost kl: nat,
                    rhs: BPlusTreeDir, ghost kr: nat, lastRecord: Rec, lastChild: int32, ghost p: nat)
    returns (splitRecord: Rec, ghost lb: Block, ghost rb: Block)
    requires pool.Holds(root.page, k, PageId(d, 0)) && root.page.Ok() && p > 0
    requires pool.Holds(lhs.page, kl, PageId(d, p)) && pool.Holds(rhs.page, kr, PageId(d, p + 1))
    modifies pool.Repr()
    ensures pool.Holds(root.page, k, PageId(d, 0)) && Balanced(old(pool.Abs()), pool.Abs())
    ensures d in old(pool.View()) && p + 1 < |old(pool.View())[d]|
    ensures pool.View() == Store(Store(old(pool.View()), PageId(d, p), lb), PageId(d, p + 1), rb)
    ensures var seps, kids := Seps(old(root.page.Data())), Kids(old(root.page.Data()));
            && splitRecord == seps[102] && DirOk(lb) && DirOk(rb)
            && NodeOf(lb) == Node(seps[..102], kids[..103])
            && NodeOf(rb) == Node(seps[103..] + [lastRecord], kids[103..] + [lastChild])
  {
    hide Inv, Unpinned, PoolModel.View, Balanced, Seps, Kids, Store, NodeOf, DirOk;
    hide BufferManager.Abs, BufferManager.View;
    ghost var p2 := pool.Abs();
    ghost var rid, lid, pid := PageId(d, 0), PageId(d, p), PageId(d, p + 1);
    pool.HeldData(lhs.page, kl, lid);
    pool.HeldData(rhs.page, kr, pid);
    pool.HeldData(root.page, k, rid);
    pool.AbsOfHeld(rhs.page, kr, pid);
    FillLeftHeld(pool, root, k, rid, lhs, kl, lid);
    lb := lhs.page.Data();
    ghost var p3 := pool.Abs();
    BalancedKeeps(p2, p3, kr);
    pool.HoldsByAbs(rhs.page, kr, pid);
    label L:
    splitRecord := root.GetRecord(102);
    pool.Undisturbed@L();
    FillRightHeld(pool, root, k, rid, rhs, kr, pid, lastRecord, lastChild);
    rb := rhs.page.Data();
    BalancedTransitive(p2, p3, pool.Abs());
  }

  /** A child of the root, number c, has split into l and r, and everything else under the root is in order. */
  ghost predicate ChildSplit(v: Files, d: FileId, leafFile: FileId, ts: seq<Tree>, c: nat, l: Tree, r: Tree,
                             split: Split) {
    && d in v && leafFile in v && d != leafFile && 0 < |v[d]| && DirOk(v[d][0]) && c < |ts|
    && NodeOf(v[d][0]).kids == Pointers(ts)
    && GoodAllBut(ts, NodeOf(v[d][0]).seps, c, v[d], v[leafFile], None, None)
    && GoodSplit(l, r, split.record, v[d], v[leafFile],
                 LowOf(NodeOf(v[d][0]).seps, c, None), HighOf(NodeOf(v[d][0]).seps, c, None))
    && Pointer(l) == Pointer(ts[c]) && Pointer(r) == split.page
  }

  /** The directory the root becomes, room or no room: its separators are sorted, it is found where the split
      is absorbed, and it is good over the two halves and the other children. */
  lemma AbsorbedRoot(v: Files, d: FileId, leafFile: FileId, ts: seq<Tree>, c: nat, l: Tree, r: Tree, split: Split)
    requires ChildSplit(v, d, leafFile, ts, c, l, r, split)
    ensures var n := NodeOf(v[d][0]);
            var m := Absorb(n, Rank(n.seps, split.record), split.record, split.page);
            && NodeOk(n) && Rank(n.seps, split.record) == c && m.kids == Pointers(SplitKids(ts, c, l, r))
            && GoodAll(SplitKids(ts, c, l, r), m.seps, v[d], v[leafFile], None, None)
  {
    hide Good, GoodAll, Inside, Rank, RecLess, Routing.Sorted;
    var n := NodeOf(v[d][0]);
    GoodAllButSorted(ts, n.seps, c, v[d], v[leafFile], None, None);
    RankOfSplit(n.seps, c, split.record, None, None);
    PointersOfSplit(ts, c, l, r);
    AbsorbGood(ts, n.seps, c, l, r, split.record, v[d], v[leafFile], None, None);
  }

  /** The same for a directory of any level with room: once the split is on its page, it is good over the two
      halves and the other children, for the range it had. */
  lemma AbsorbedDir(p: nat, n: Node, ts: seq<Tree>, c: nat, l: Tree, r: Tree, split: Split,
                    dirs: seq<Block>, leaves: seq<Block>, lo: Option<Rec>, hi: Option<Rec>)
    requires p < |dirs| && p < MAX_PAGES && DirOk(dirs[p]) && n.kids == Pointers(ts)
    requires GoodAllBut(ts, n.seps, c, dirs, leaves, lo, hi)
    requires GoodSplit(l, r, split.record, dirs, leaves, LowOf(n.seps, c, lo), HighOf(n.seps, c, hi))
    requires Pointer(l) == Pointer(ts[c]) && Pointer(r) == split.page
    requires NodeOf(dirs[p]) == Absorb(n, Rank(n.seps, split.record), split.record, split.page)
    ensures Rank(n.seps, split.record) == c && Good(Dir(p, SplitKids(ts, c, l, r)), dirs, leaves, lo, hi)
  {
    hide Good, GoodAll, Inside, Rank, RecLess, Routing.Sorted, DirOk, NodeOf;
    GoodAllButSorted(ts, n.seps, c, dirs, leaves, lo, hi);
    RankOfSplit(n.seps, c, split.record, lo, hi);
    PointersOfSplit(ts, c, l, r);
    AbsorbGood(ts, n.seps, c, l, r, split.record, dirs, leaves, lo, hi);
    GoodDir(Dir(p, SplitKids(ts, c, l, r)), dirs, leaves, lo, hi);
  }

  lemma RoomyRoot(v: Files, d: FileId, leafFile: FileId, ts: seq<Tree>, m: Node, b: Block)
    requires d in v && leafFile in v && d != leafFile && 0 < |v[d]| && DirOk(b) && NodeOf(b) == m
    requires m.kids == Pointers(ts) && GoodAll(ts, m.seps, v[d], v[leafFile], None, None)
    ensures var w := Store(v, PageId(d, 0), b);
            && w.Keys == v.Keys && (forall f :: f in v && f != d ==> w[f] == v[f]) && |w[d]| == |v[d]|
            && Good(Dir(0, ts), w[d], w[leafFile], None, None)
  {
    hide GoodAll, NodeOf, DirOk;
    var w := Store(v, PageId(d, 0), b);
    GoodAllFrame(ts, m.seps, v[d], w[d], v[leafFile], None, None);
  }

  /** The tree after a root split: the root over two directories, which share the children between them. */
  function SplitTree(ts: seq<Tree>, p: nat): Tree
    requires |ts| > 103
  {
    Dir(0, [Dir(p, ts[..103]), Dir(p + 1, ts[103..])])
  }

  lemma SplitTreeLeaves(ts: seq<Tree>, p: nat)
    requires |ts| > 103
    ensures LeavesOf(SplitTree(ts, p)) == LeavesOfAll(ts)
  {
    assert ts == ts[..103] + ts[103..];
    LeavesOfAllConcat(ts[..103], ts[103..]);
    var a, b := Dir(p, ts[..103]), Dir(p + 1, ts[103..]);
    assert [a, b][1..] == [b] && [b][1..] == [];
    assert LeavesOf(a) == LeavesOfAll(ts[..103]) && LeavesOf(b) == LeavesOfAll(ts[103..]);
    assert LeavesOfAll([b]) == LeavesOf(b) + LeavesOfAll([b][1..]) == LeavesOf(b);
    assert LeavesOfAll([a, b]) == LeavesOf(a) + LeavesOfAll([a, b][1..]);
  }

  lemma FullRoot(v: Files, d: FileId, leafFile: FileId, ts: seq<Tree>, m: Node, w: Files)
    requires d in v && leafFile in v && d != leafFile
    requires |m.kids| == |m.seps| + 1 && |m.seps| == MAX_RECORDS + 1 && RootSplit(v, w, d, m)
    requires m.kids == Pointers(ts) && GoodAll(ts, m.seps, v[d], v[leafFile], None, None)
    ensures Good(SplitTree(ts, |v[d]|), w[d], w[leafFile], None, None)
  {
    hide Good, GoodAll, DirOk, NodeOf, Inside;
    var p, s := |v[d]|, Some(m.seps[102]);
    CutGood(ts, m.seps, 102, v[d], v[leafFile], None, None);
    GoodAllFrame(ts[..103], m.seps[..102], v[d], w[d], v[leafFile], None, s);
    GoodAllFrame(ts[103..], m.seps[103..], v[d], w[d], v[leafFile], s, None);
    assert Pointers(ts[..103]) == m.kids[..103] && Pointers(ts[103..]) == m.kids[103..];
    var a, b := Dir(p, ts[..103]), Dir(p + 1, ts[103..]);
    GoodDir(a, w[d], w[leafFile], None, s);
    GoodDir(b, w[d], w[leafFile], s, None);
    GoodTwo(a, b, m.seps[102], w[d], w[leafFile]);
    assert Pointers([a, b]) == [-p, -(p + 1)];
    GoodDir(SplitTree(ts, p), w[d], w[leafFile], None, None);
  }

  lemma GoodDir(t: Tree, dirs: seq<Block>, leaves: seq<Block>, lo: Option<Rec>, hi: Option<Rec>)
    requires t.Dir? && t.page < |dirs| && t.page < MAX_PAGES && DirOk(dirs[t.page])
    requires NodeOf(dirs[t.page]).kids == Pointers(t.kids)
    requires GoodAll(t.kids, NodeOf(dirs[t.page]).seps, dirs, leaves, lo, hi)
    ensures Good(t, dirs, leaves, lo, hi)
  {
  }

  lemma GoodTwo(a: Tree, b: Tree, s: Rec, dirs: seq<Block>, leaves: seq<Block>)
    requires Good(a, dirs, leaves, None, Some(s)) && Good(b, dirs, leaves, Some(s), None) && a.page > 0 && b.page > 0
    ensures GoodAll([a, b], [s], dirs, leaves, None, None)
  {
    hide Good;
    assert [a, b][1..] == [b] && [s][1..] == [];
  }

  lemma SplitFacts(v: Files, d: FileId, leafFile: FileId, ts: seq<Tree>, c: nat, l: Tree, r: Tree, split: Split)
    requires ChildSplit(v, d, leafFile, ts, c, l, r, split)
    ensures d in v && leafFile in v && d != leafFile && 0 < |v[d]| && DirOk(v[d][0])
    ensures c < |ts| == ChildCount(v[d][0]) <= MAX_CHILDREN
  {
    hide GoodAllBut, GoodSplit;
  }

  /** Case 3 as a whole. */
  method AbsorbFull(pool: BufferManager, d: FileId, leafFile: FileId, root: BPlusTreeDir, ghost k: nat, split: Split,
                    ghost ts: seq<Tree>, ghost m: Node) returns (ghost t: Tree)
    requires pool.Holds(root.page, k, PageId(d, 0)) && root.Ok() && ChildCount(root.page.Data()) == MAX_CHILDREN
    requires d in pool.View() && leafFile in pool.View() && d != leafFile && 0 < |pool.View()[d]| <= MAX_PAGES - 2
    requires Unpinned(pool.Abs()) > 1
    requires var n := NodeOf(root.page.Data()); m == Absorb(n, Rank(n.seps, split.record), split.record, split.page)
    requires m.kids == Pointers(ts) && GoodAll(ts, m.seps, pool.View()[d], pool.View()[leafFile], None, None)
    modifies pool.Repr()
    ensures pool.Holds(root.page, k, PageId(d, 0)) && Balanced(old(pool.Abs()), pool.Abs())
    ensures pool.View().Keys == old(pool.View()).Keys
    ensures forall f :: f in old(pool.View()) && f != d ==> pool.View()[f] == old(pool.View())[f]
    ensures |ts| == MAX_CHILDREN + 1 && t == SplitTree(ts, |old(pool.View())[d]|)
    ensures Good(t, pool.View()[d], pool.View()[leafFile], None, None)
  {
    hide Inv, Unpinned, PoolModel.View, Balanced, Rank, RecLess, Seps, Kids, Store, DirOk, GoodAll, Good, RootSplit;
    hide InsertAt;
    hide BufferManager.Abs, BufferManager.View;
    ghost var v, p0 := pool.View(), pool.Abs();
    pool.HeldData(root.page, k, PageId(d, 0));
    var lastRecord, lastChild := OverflowHeld(pool, root, k, PageId(d, 0), split);
    ghost var v1, p1 := pool.View(), pool.Abs();
    StoreFrame(v, d, root.page.Data());
    UnpinnedBalanced(p0, p1);
    SplitRoot(pool, d, root, k, lastRecord, lastChild, m);
    BalancedTransitive(p0, p1, pool.Abs());
    GoodAllFrame(ts, m.seps, v[d], v1[d], v[leafFile], None, None);
    FullRoot(v1, d, leafFile, ts, m, pool.View());
    RootSplitFrame(v1, pool.View(), d, m);
    t := SplitTree(ts, |v[d]|);
  }

  lemma StoreFrame(v: Files, d: FileId, b: Block)
    requires d in v && 0 < |v[d]|
    ensures var w := Store(v, PageId(d, 0), b);
            && w.Keys == v.Keys && |w[d]| == |v[d]| && (forall f :: f in v && f != d ==> w[f] == v[f])
            && forall p :: 0 < p < |v[d]| ==> w[d][p] == v[d][p]
  {
  }

  lemma RootSplitFrame(v: Files, w: Files, d: FileId, m: Node)
    requires |m.kids| == |m.seps| + 1 && |m.seps| == MAX_RECORDS + 1 && RootSplit(v, w, d, m)
    ensures d in v && w.Keys == v.Keys && forall f :: f in v && f != d ==> w[f] == v[f]
  {
  }

  /** insert_record from line 107 on, in the root: a child of the root has split, and the root absorbs the
      split in place or, if it is full, splits itself into two directories below it. Either way the tree is
      good again, over the leaves it had with those of the two halves in the place of those of the child. */
  method AbsorbSplit(pool: BufferManager, d: FileId, leafFile: FileId, root: BPlusTreeDir, ghost k: nat, split: Split,
                     ghost ts: seq<Tree>, ghost c: nat, ghost l: Tree, ghost r: Tree) returns (ghost t: Tree)
    requires pool.Holds(root.page, k, PageId(d, 0)) && ChildSplit(pool.View(), d, leafFile, ts, c, l, r, split)
    requires |ts| == MAX_CHILDREN ==> d in pool.View() && |pool.View()[d]| <= MAX_PAGES - 2 && Unpinned(pool.Abs()) > 1
    modifies pool.Repr()
    ensures pool.Holds(root.page, k, PageId(d, 0)) && Balanced(old(pool.Abs()), pool.Abs())
    ensures pool.View().Keys == old(pool.View()).Keys
    ensures forall f :: f in old(pool.View()) && f != d ==> pool.View()[f] == old(pool.View())[f]
    ensures c < |ts| && Good(t, pool.View()[d], pool.View()[leafFile], None, None)
    ensures LeavesOf(t) == LeavesOfAll(ts[..c]) + (LeavesOf(l) + LeavesOf(r)) + LeavesOfAll(ts[c + 1..])
    ensures t == if |ts| < MAX_CHILDREN then Dir(0, SplitKids(ts, c, l, r))
              else SplitTree(SplitKids(ts, c, l, r), |old(pool.View())[d]|)
  {
    hide Inv, Unpinned, PoolModel.View, Balanced, Rank, RecLess, Seps, Kids, Store, Absorb, DirOk, GoodAll, Good;
    hide RootSplit, NodeOk, ChildSplit;
    hide BufferManager.Abs, BufferManager.View;
    ghost var v, p0 := pool.View(), pool.Abs();
    SplitFacts(v, d, leafFile, ts, c, l, r, split);
    ghost var ts' := SplitKids(ts, c, l, r);
    ghost var n := NodeOf(v[d][0]);
    ghost var m := Absorb(n, Rank(n.seps, split.record), split.record, split.page);
    AbsorbedRoot(v, d, leafFile, ts, c, l, r, split);
    SplitLeaves(ts, c, l, r);
    pool.HeldData(root.page, k, PageId(d, 0));
    label L:
    var childCount := root.GetChildCount();
    pool.Undisturbed@L();
    if childCount < MAX_CHILDREN {
      AbsorbHeld(pool, root, k, PageId(d, 0), split);
      RoomyRoot(v, d, leafFile, ts', m, root.page.Data());
      t := Dir(0, ts');
    } else {
      t := AbsorbFull(pool, d, leafFile, root, k, split, ts', m);
      SplitTreeLeaves(ts', |v[d]|);
    }
  }
}
