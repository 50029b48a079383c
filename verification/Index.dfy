/** The index over a heap file and its range scan (src/storage/b_plus_tree/b_plus_tree.cc,
    src/storage/b_plus_tree/b_plus_tree_iter.cc). */
module Indexes {
  import opened Bytes
  import opened Values
  import opened Pages
  import opened PoolModel
  import opened BufferManagers
  import opened HeapFilePages
  import opened HeapModel
  import opened HeapFiles
  import opened StringKeys
  import opened BPlusTreeNodes
  import opened Routing
  import opened BPlusTreeModel
  import opened BPlusTreePages
  import opened BPlusTrees
  import opened IndexModel
  import opened TreeInsertions

  /** A tree over all records with page 0 of its directory file for a root, and its leaves chained. */
  ghost predicate TreeOk(t: Tree, v: Files, d: FileId, l: FileId) {
    && d in v && l in v && d != l && t.Dir? && t.page == 0
    && Good(t, v[d], v[l], None, None) && Linked(LeavesOf(t), v[l])
  }

  /** A root over two leaves: what the pages have to say for it to be a tree. */
  lemma TwoLeaves(v: Files, d: FileId, l: FileId, p: nat, q: nat, r: Rec)
    requires d in v && l in v && d != l && 0 < |v[d]| && DirOk(v[d][0]) && NodeOf(v[d][0]).seps == [r]
    ensures TreeOk(Dir(0, [Leaf(p), Leaf(q)]), v, d, l) <==>
              var a, b := LeafAt(v[l], p), LeafAt(v[l], q);
              && NodeOf(v[d][0]).kids == [p, q] && p < MAX_PAGES && 0 < q < MAX_PAGES
              && NextLeaf(a) == q && NextLeaf(b) == 0 && LeafOk(a) && LeafOk(b)
              && (forall i :: 0 <= i < |LeafRecs(a)| ==> RecLess(LeafRecs(a)[i], r))
              && forall i :: 0 <= i < |LeafRecs(b)| ==> !RecLess(LeafRecs(b)[i], r)
  {
    hide NodeOf, DirOk, LeafAt, LeafOk, LeafRecs, NextLeaf, RecLess, Linked;
    var a, b := Leaf(p), Leaf(q);
    var dirs, leaves := v[d], v[l];
    assert [a, b][1..] == [b] && [r][1..] == [];
    assert Inside(r, None, None);
    assert GoodAll([b], [], dirs, leaves, Some(r), None) <==> Good(b, dirs, leaves, Some(r), None);
    assert GoodAll([a, b], [r], dirs, leaves, None, None) <==>
      Good(a, dirs, leaves, None, Some(r)) && GoodAll([a, b][1..], [r][1..], dirs, leaves, Some(r), None);
    LeafGood(p, dirs, leaves, None, Some(r));
    LeafGood(q, dirs, leaves, Some(r), None);
    assert Pointers([a, b]) == [p, q];
    assert LeavesOf(Dir(0, [a, b])) == [p, q] by {
      assert LeavesOfAll([b]) == LeavesOf(b) + LeavesOfAll([b][1..]) == [q];
      assert LeavesOfAll([a, b]) == LeavesOf(a) + LeavesOfAll([a, b][1..]);
    }
    LinkedTwo(v[l], p, q);
  }

  lemma LeafGood(p: nat, dirs: seq<Block>, leaves: seq<Block>, lo: Option<Rec>, hi: Option<Rec>)
    ensures var b := LeafAt(leaves, p);
            Good(Leaf(p), dirs, leaves, lo, hi) <==>
              && p < MAX_PAGES && LeafOk(b)
              && (lo.Some? ==> forall i :: 0 <= i < |LeafRecs(b)| ==> !RecLess(LeafRecs(b)[i], lo.value))
              && (hi.Some? ==> forall i :: 0 <= i < |LeafRecs(b)| ==> RecLess(LeafRecs(b)[i], hi.value))
  {
    hide LeafAt, LeafOk, LeafRecs, RecLess;
  }

  lemma LinkedTwo(leaves: seq<Block>, p: nat, q: nat)
    ensures Linked([p, q], leaves) <==> NextLeaf(LeafAt(leaves, p)) == q && NextLeaf(LeafAt(leaves, q)) == 0 && 0 < q
  {
    hide LeafAt, NextLeaf;
    if Linked([p, q], leaves) {
      assert LinkedOne([p, q], leaves, 0) && LinkedOne([p, q], leaves, 1);
    }
  }

  lemma TreeOkSame(t: Tree, v: Files, w: Files, d: FileId, l: FileId)
    requires TreeOk(t, v, d, l) && SameTree(v, w, l)
    ensures TreeOk(t, w, d, l) && Entries(LeavesOf(t), w[l]) == Entries(LeavesOf(t), v[l])
  {
    hide Good, Linked, LeafAt, Entries, LeavesOf;
    GoodLeavesSame(t, v[d], v[l], w[l], None, None);
    LinkedSame(LeavesOf(t), v[l], w[l]);
    EntriesSame(LeavesOf(t), v[l], w[l]);
  }

  lemma TreeFiles(t: Tree, v: Files, d: FileId, l: FileId)
    requires TreeOk(t, v, d, l)
    ensures d in v && l in v && d != l && v[d] != []
  {
    PageBounds(t, v[d], v[l], None, None);
  }

  /** Every leaf of a good tree is a good leaf. */
  lemma {:induction false} GoodLeaf(t: Tree, dirs: seq<Block>, leaves: seq<Block>, lo: Option<Rec>, hi: Option<Rec>,
                                    i: nat)
    requires Good(t, dirs, leaves, lo, hi) && i < |LeavesOf(t)|
    ensures LeavesOf(t)[i] < MAX_PAGES && LeafOk(LeafAt(leaves, LeavesOf(t)[i]))
    decreases t, 1
  {
    hide AllIn, LeafAt, LeafRecs, LeafOk, DirOk;
    match t
    case Leaf(p) =>
    case Dir(p, kids) => GoodAllLeaf(kids, NodeOf(dirs[p]).seps, dirs, leaves, lo, hi, i);
  }

  lemma {:induction false} GoodAllLeaf(ts: seq<Tree>, seps: seq<Rec>, dirs: seq<Block>, leaves: seq<Block>,
                                       lo: Option<Rec>, hi: Option<Rec>, i: nat)
    requires GoodAll(ts, seps, dirs, leaves, lo, hi) && i < |LeavesOfAll(ts)|
    ensures LeavesOfAll(ts)[i] < MAX_PAGES && LeafOk(LeafAt(leaves, LeavesOfAll(ts)[i]))
    decreases ts, 0
  {
    hide Good, LeafAt, LeafOk, Inside;
    var n := |LeavesOf(ts[0])|;
    if i < n {
      GoodLeaf(ts[0], dirs, leaves, lo, if seps == [] then hi else Some(seps[0]), i);
    } else {
      GoodAllLeaf(ts[1..], seps[1..], dirs, leaves, Some(seps[0]), hi, i - n);
    }
  }

  // ---------- a new index ----------

  lemma ZeroDir()
    ensures ChildCount(ZeroBlock()) == 0 && Kids(ZeroBlock())[0] == 0
  {
    assert ZeroBlock()[0..4] == [0, 0, 0, 0] && ZeroBlock()[4..8] == [0, 0, 0, 0];
    ZeroWord();
  }

  lemma ZeroWord()
    ensures Dec32([0, 0, 0, 0]) == 0
  {
    assert [0, 0, 0, 0][1..] == [0, 0, 0] && [0, 0, 0][1..] == [0, 0] && [0, 0][1..] == [0] && [0][1..] == [];
    assert Unsigned([0]) == 0 && Unsigned([0, 0]) == 0 && Unsigned([0, 0, 0]) == 0;
  }

  lemma ZeroLeaf()
    ensures LeafOk(ZeroBlock()) && LeafRecs(ZeroBlock()) == [] && NextLeaf(ZeroBlock()) == 0
  {
    hide LeafSlots;
    assert ZeroBlock()[0..4] == [0, 0, 0, 0] && ZeroBlock()[4..8] == [0, 0, 0, 0];
    ZeroWord();
  }

  /** Page 0 of the directory file as the constructor leaves it, where b is what it found there. */
  predicate RootMade(b: Block, b': Block) {
    if ChildCount(b) == 0 then ChildCount(b') == 1 && Kids(b') == Kids(b) else b' == b
  }

  /** BPlusTreeDir(bpt, 0), made a directory with one child if it had none. */
  method OpenRoot(pool: BufferManager, d: FileId) returns (root: BPlusTreeDir, ghost k: nat)
    requires pool.Valid() && d in pool.View() && Unpinned(pool.Abs()) > 0
    modifies pool.Repr()
    ensures pool.Holds(root.page, k, PageId(d, 0)) && Acquired(old(pool.Abs()), pool.Abs(), k, PageId(d, 0))
    ensures root.page.Ok() && RootMade(Extend(old(pool.View()), PageId(d, 0))[d][0], root.page.Data())
    ensures pool.View() == Store(Extend(old(pool.View()), PageId(d, 0)), PageId(d, 0), root.page.Data())
  {
    hide Inv, Unpinned, PoolModel.View, Acquired, Extend, Store, RootMade, Served;
    hide BufferManager.Abs, BufferManager.View;
    UnpinnedHas(pool.Abs());
    ghost var p0 := pool.Abs();
    var page;
    page, k := pool.GetPage(d, 0);
    pool.HeldData(page, k, PageId(d, 0));
    root := BPlusTreeDir(page);
    InitRootHeld(pool, root, k, PageId(d, 0), p0);
  }

  method InitRootHeld(pool: BufferManager, root: BPlusTreeDir, ghost k: nat, ghost pid: PageId, ghost p0: Pool)
    requires pool.Holds(root.page, k, pid) && Acquired(p0, pool.Abs(), k, pid)
    modifies root.page`dirty, root.page.bytes
    ensures pool.Holds(root.page, k, pid) && Acquired(p0, pool.Abs(), k, pid)
    ensures root.page.Ok() && OnDisk(old(pool.View()), pid)
    ensures pool.View() == Store(old(pool.View()), pid, root.page.Data())
    ensures RootMade(old(pool.View()[pid.file][pid.number]), root.page.Data())
  {
    hide Inv, Acquired, Store, Kids, Seps, ChildCount;
    hide BufferManager.Abs, BufferManager.View;
    pool.HeldData(root.page, k, pid);
    ghost var p1 := pool.Abs();
    label L:
    var n := root.GetChildCount();
    if n == 0 {
      root.SetChildCount(1);
    }
    pool.WrittenHeld@L(k);
    AcquiredRewritten(p0, p1, pool.Abs(), k, pid);
  }

  /** The tree of a new index: a root over one leaf, page 0 of a leaf file without pages. */
  const NEW_TREE := Dir(0, [Leaf(0)])

  lemma NewTree(v: Files, d: FileId, l: FileId, b: Block)
    requires d in v && l in v && d != l && v[d] == v[l] == []
    requires RootMade(Extend(v, PageId(d, 0))[d][0], b)
    ensures var w := Store(Extend(v, PageId(d, 0)), PageId(d, 0), b);
            && TreeOk(NEW_TREE, w, d, l) && Entries(LeavesOf(NEW_TREE), w[l]) == []
            && OnlyChanged(v, w, {d})
  {
    hide LeafOk, LeafRecs, NextLeaf, ChildCount, Kids, DirOk, NodeOf, Good, LeavesOf, Entries;
    ZeroDir();
    ZeroLeaf();
    NewFiles(v, d, b);
    var w := Store(Extend(v, PageId(d, 0)), PageId(d, 0), b);
    assert LeafAt(w[l], 0) == ZeroBlock();
    OneLeafNode(b);
    OneLeaf();
    EntriesOne(0, w[l]);
    NewGood(w[d], w[l]);
  }

  lemma NewFiles(v: Files, d: FileId, b: Block)
    requires d in v && v[d] == []
    ensures Extend(v, PageId(d, 0))[d][0] == ZeroBlock()
    ensures Store(Extend(v, PageId(d, 0)), PageId(d, 0), b) == v[d := [b]]
  {
    var w := Store(Extend(v, PageId(d, 0)), PageId(d, 0), b);
    assert w[d] == [b];
  }

  lemma OneLeafNode(b: Block)
    requires ChildCount(b) == 1 && Kids(b)[0] == 0
    ensures DirOk(b) && NodeOf(b) == Node([], [0]) && [0] == Pointers([Leaf(0)])
  {
    hide Kids, Seps;
    assert Kids(b)[..1] == [0];
    assert Seps(b)[..0] == [];
  }

  lemma OneLeaf()
    ensures LeavesOf(NEW_TREE) == [0]
  {
    assert LeavesOfAll([Leaf(0)][1..]) == [];
    assert LeavesOfAll([Leaf(0)]) == LeavesOf(Leaf(0)) + LeavesOfAll([Leaf(0)][1..]);
  }

  lemma NewGood(dirs: seq<Block>, leaves: seq<Block>)
    requires |dirs| == 1 && DirOk(dirs[0]) && NodeOf(dirs[0]) == Node([], Pointers([Leaf(0)]))
    requires LeafOk(LeafAt(leaves, 0)) && LeafRecs(LeafAt(leaves, 0)) == []
    ensures Good(NEW_TREE, dirs, leaves, None, None)
  {
    assert Good(Leaf(0), dirs, leaves, None, None);
    assert GoodAll([Leaf(0)], [], dirs, leaves, None, None);
  }

  /** Opening an existing root changes nothing. */
  lemma OldTree(t: Tree, v: Files, d: FileId, l: FileId, b: Block)
    requires TreeOk(t, v, d, l) && RootMade(Extend(v, PageId(d, 0))[d][0], b)
    ensures Store(Extend(v, PageId(d, 0)), PageId(d, 0), b) == v
  {
    RootFacts(t, v[d], v[l], None, None);
    StoreSame(v, PageId(d, 0), b);
  }

  /** What an insertion did to the index records: nothing, or r is at position n. */
  ghost predicate IndexGained(es: seq<Rec>, es': seq<Rec>, n: nat, r: Rec, o: LeafOutcome) {
    if o == Accepted then InsertedAt(es, es', n, r) && Increasing(es') else es' == es
  }

  /** The index takes r: the leaf r is routed to has no records. */
  ghost predicate Takes(t: Tree, v: Files, d: FileId, l: FileId, r: Rec) {
    d in v && l in v && LeafRecs(RoutedLeaf(t, v[d], v[l], r)) == []
  }

  /** What offering r to an index does to it, between the states v and w of the files. */
  ghost predicate IndexOffered(t: Tree, v: Files, w: Files, d: FileId, l: FileId, r: Rec) {
    && d in v && l in v && l in w && Offered(t, v[d], v[l], w[l], r)
    && EntriesOffered(Entries(LeavesOf(t), v[l]), Entries(LeavesOf(t), w[l]), r, Takes(t, v, d, l, r))
  }

  /** Files that are not the index's do not matter. */
  lemma OfferedElsewhere(t: Tree, u: Files, v: Files, w: Files, d: FileId, l: FileId, r: Rec)
    requires IndexOffered(t, v, w, d, l, r) && d in u && l in u && u[d] == v[d] && u[l] == v[l]
    ensures IndexOffered(t, u, w, d, l, r)
  {
    hide Offered, EntriesOffered;
  }

  /** After an insertion into the tree, it is in order, and so are its records; no other file has changed. */
  lemma TreeAfterInsertion(t: Tree, v: Files, w: Files, d: FileId, l: FileId, r: Rec, o: LeafOutcome)
    requires TreeOk(t, v, d, l) && TreeInserted(t, v, w, d, l, r, o)
    ensures TreeOk(t, w, d, l) && OnlyChanged(v, w, {l}) && IndexOffered(t, v, w, d, l, r)
    ensures IndexGained(Entries(LeavesOf(t), v[l]), Entries(LeavesOf(t), w[l]),
                        |Entries(LeavesOf(t)[..FindIdx(t, v[d], r)], v[l])|, r, o)
    ensures var b := RoutedLeaf(t, v[d], v[l], r); o == if LeafRecs(b) == [] then Accepted else Refused(b, r)
  {
    hide Good, Linked, LeafAt, LeafRecs, Entries, LeavesOf, FindIdx, Filled, NextLeaf, Increasing;
    var i := FindIdx(t, v[d], r);
    if LeafRecs(LeafAt(v[l], LeavesOf(t)[i])) == [] {
      FillTree(t, v[d], v[l], w[l], r, i);
      var n: nat := |Entries(LeavesOf(t)[..i], v[l])|;
      assert InsertedAt(Entries(LeavesOf(t), v[l]), Entries(LeavesOf(t), w[l]), n, r);
    } else {
      TreeOkSame(t, v, w, d, l);
    }
  }

  class BPlusTree {
    const heap: HeapFile
    const keyCol: nat
    const dirFile: FileId
    const leafFile: FileId
    const root: BPlusTreeDir
    const recordBuf: Record
    ghost const rootFrame: nat
    ghost var tree: Tree

    /** Opens the index on the given files. A new one, without pages, becomes a tree of one leaf without
        records; an existing one is the tree t. */
    constructor (heap: HeapFile, keyCol: nat, dirFile: FileId, leafFile: FileId, ghost t: Tree)
      requires heap.Sound() && keyCol < |heap.schema| && Unpinned(heap.pool.Abs()) > 0
      requires heap.fileId != dirFile && heap.fileId != leafFile
      requires var v := heap.pool.View();
               || (dirFile in v && leafFile in v && dirFile != leafFile
                   && t == NEW_TREE && v[dirFile] == v[leafFile] == [])
               || TreeOk(t, v, dirFile, leafFile)
      modifies heap.pool.Repr()
      ensures this.heap == heap && this.keyCol == keyCol && this.dirFile == dirFile && this.leafFile == leafFile
      ensures tree == t
      ensures fresh(recordBuf) && HasSchema(recordBuf.values, heap.schema)
      ensures Valid() && Acquired(old(heap.pool.Abs()), heap.pool.Abs(), rootFrame, PageId(dirFile, 0))
      ensures Index() == if old(heap.pool.View()[dirFile]) == [] then []
                else Entries(LeavesOf(t), old(heap.pool.View()[leafFile]))
      ensures OnlyChanged(old(heap.pool.View()), heap.pool.View(), {dirFile})
      ensures old(heap.pool.View()[dirFile]) != [] ==> heap.pool.View() == old(heap.pool.View())
    {
      hide Inv, Unpinned, PoolModel.View, Acquired, Extend, Store, RootMade, TreeOk, HeapLaid, Entries, LeavesOf;
      hide BufferManager.Abs, BufferManager.View;
      ghost var v := heap.pool.View();
      if TreeOk(t, v, dirFile, leafFile) {
        TreeFiles(t, v, dirFile, leafFile);
      }
      var dir;
      ghost var k;
      dir, k := OpenRoot(heap.pool, dirFile);
      if v[dirFile] == [] {
        NewTree(v, dirFile, leafFile, dir.page.Data());
      } else {
        OldTree(t, v, dirFile, leafFile, dir.page.Data());
      }
      label L:
      recordBuf := new Record(heap.schema);
      this.heap, this.keyCol, this.dirFile, this.leafFile := heap, keyCol, dirFile, leafFile;
      root, rootFrame, tree := dir, k, t;
      new;
      heap.pool.Undisturbed@L();
    }

    /** The root stays pinned as long as the index exists. */
    ghost predicate Valid()
      reads this, heap.pool.Repr()
    {
      && heap.Sound() && keyCol < |heap.schema| && heap.fileId != leafFile && heap.fileId != dirFile
      && heap.pool.Holds(root.page, rootFrame, PageId(dirFile, 0))
      && TreeOk(tree, heap.pool.View(), dirFile, leafFile)
    }

    ghost function Leaves(): seq<Block>
      requires Valid()
      reads this, heap.pool.Repr()
    {
      heap.pool.View()[leafFile]
    }

    /** All index records, in order. */
    ghost function Index(): seq<Rec>
      requires Valid()
      reads this, heap.pool.Repr()
    {
      Entries(LeavesOf(tree), Leaves())
    }

    /** The pool moved on without touching the root, the heap or the tree. */
    lemma StillValid(v: Files)
      requires keyCol < |heap.schema| && heap.fileId != leafFile && heap.fileId != dirFile && heap.schema != []
      requires TreeOk(tree, v, dirFile, leafFile) && heap.fileId in v && HeapLaid(v[heap.fileId], heap.schema)
      requires heap.pool.Holds(root.page, rootFrame, PageId(dirFile, 0)) && SameTree(v, heap.pool.View(), leafFile)
      ensures Valid() && Index() == Entries(LeavesOf(tree), v[leafFile])
      ensures heap.Content() == HeapOf(v[heap.fileId], heap.schema)
    {
      hide HeapLaid, HeapOf, TreeOk, SameTree;
      hide BufferManager.Abs, BufferManager.View;
      TreeOkSame(tree, v, heap.pool.View(), dirFile, leafFile);
      SameElsewhere(v, heap.pool.View(), leafFile, heap.fileId);
    }

    /** BPlusTreeLeaf(bpt, p): the page, pinned. */
    method OpenLeaf(p: nat) returns (leaf: BPlusTreeLeaf, ghost k: nat)
      requires Valid() && p < MAX_PAGES && Unpinned(heap.pool.Abs()) > 0
      modifies heap.pool.Repr()
      ensures Valid() && Index() == old(Index()) && heap.Content() == old(heap.Content())
      ensures SameTree(old(heap.pool.View()), heap.pool.View(), leafFile)
      ensures heap.pool.Holds(leaf.page, k, PageId(leafFile, p))
      ensures Acquired(old(heap.pool.Abs()), heap.pool.Abs(), k, PageId(leafFile, p))
    {
      hide Inv, Unpinned, PoolModel.View, Acquired, Extend, TreeOk, HeapLaid, HeapOf, SameTree, Entries, LeavesOf;
      hide Served;
      hide BufferManager.Abs, BufferManager.View;
      ghost var v, p0 := heap.pool.View(), heap.pool.Abs();
      TreeFiles(tree, v, dirFile, leafFile);
      UnpinnedHas(p0);
      ExtendSameTree(v, leafFile, p);
      heap.pool.AbsOfHeld(root.page, rootFrame, PageId(dirFile, 0));
      var page;
      page, k := heap.pool.GetPage(leafFile, p);
      leaf := BPlusTreeLeaf(page);
      AcquiredKeeps(p0, heap.pool.Abs(), k, PageId(leafFile, p), rootFrame);
      heap.pool.HoldsByAbs(root.page, rootFrame, PageId(dirFile, 0));
      StillValid(v);
    }

    method CloseLeaf(leaf: BPlusTreeLeaf, ghost k: nat, ghost p: nat)
      requires Valid() && heap.pool.Holds(leaf.page, k, PageId(leafFile, p))
      modifies leaf.page`pins
      ensures Valid() && Index() == old(Index()) && heap.Content() == old(heap.Content())
      ensures heap.pool.View() == old(heap.pool.View())
      ensures old(k < |heap.pool.Abs().frames| && heap.pool.Abs().frames[k].pins > 0)
      ensures heap.pool.Abs() == Released(old(heap.pool.Abs()), k)
    {
      hide Inv, Unpinned, PoolModel.View, TreeOk, HeapLaid, HeapOf, SameTree, Entries, LeavesOf;
      hide BufferManager.Abs, BufferManager.View;
      ghost var v, p0 := heap.pool.View(), heap.pool.Abs();
      TreeFiles(tree, v, dirFile, leafFile);
      heap.pool.AbsOfHeld(root.page, rootFrame, PageId(dirFile, 0));
      heap.pool.AbsOfHeld(leaf.page, k, PageId(leafFile, p));
      heap.pool.Unpin(leaf.page, k, PageId(leafFile, p));
      heap.pool.HoldsByAbs(root.page, rootFrame, PageId(dirFile, 0));
      SameTreeReflexive(v, leafFile);
      StillValid(v);
    }

    /** heap_file.get_record. */
    method ReadRecord(rid: RID, out: Record)
      requires Valid() && 0 <= rid.page < |heap.Content()| && 0 <= rid.slot < |heap.Content()[rid.page]|
      requires Unpinned(heap.pool.Abs()) > 0 && HasSchema(out.values, heap.schema)
      modifies heap.pool.Repr(), out
      ensures Valid() && Index() == old(Index()) && heap.Content() == old(heap.Content())
      ensures heap.pool.View() == old(heap.pool.View())
      ensures Balanced(old(heap.pool.Abs()), heap.pool.Abs()) && HasSchema(out.values, heap.schema)
      ensures var o := Lookup(heap.Content(), rid); out.values == if o.Some? then o.value else old(out.values)
    {
      hide Inv, Unpinned, PoolModel.View, Balanced, TreeOk, HeapLaid, HeapOf, SameTree, Entries, LeavesOf, Lookup;
      hide HasSchema;
      hide BufferManager.Abs, BufferManager.View;
      ghost var v, p0 := heap.pool.View(), heap.pool.Abs();
      TreeFiles(tree, v, dirFile, leafFile);
      heap.pool.AbsOfHeld(root.page, rootFrame, PageId(dirFile, 0));
      heap.GetRecord(rid, out);
      BalancedKeeps(p0, heap.pool.Abs(), rootFrame);
      heap.pool.HoldsByAbs(root.page, rootFrame, PageId(dirFile, 0));
      SameTreeReflexive(v, leafFile);
      StillValid(v);
    }

    /** root->search_leaf. */
    method FindLeaf(record: Rec) returns (leaf: nat, pos: nat)
      requires Valid() && Unpinned(heap.pool.Abs()) >= Pins(tree)
      modifies heap.pool.Repr()
      ensures Valid() && Index() == old(Index()) && heap.Content() == old(heap.Content())
      ensures SameTree(old(heap.pool.View()), heap.pool.View(), leafFile)
      ensures Balanced(old(heap.pool.Abs()), heap.pool.Abs())
      ensures dirFile in old(heap.pool.View()) && leafFile in old(heap.pool.View())
      ensures LeafFound(tree, old(heap.pool.View()), dirFile, leafFile, record, leaf, pos)
    {
      hide Inv, Unpinned, PoolModel.View, Balanced, HeapLaid, HeapOf, SameTree, Entries, LeavesOf, LeafFound, Pins;
      hide Good, Linked;
      hide BufferManager.Abs, BufferManager.View;
      ghost var v, p0 := heap.pool.View(), heap.pool.Abs();
      heap.pool.AbsOfHeld(root.page, rootFrame, PageId(dirFile, 0));
      leaf, pos := SearchLeaf(heap.pool, dirFile, leafFile, root, rootFrame, record, tree, None, None);
      BalancedKeeps(p0, heap.pool.Abs(), rootFrame);
      heap.pool.HoldsByAbs(root.page, rootFrame, PageId(dirFile, 0));
      StillValid(v);
    }

    /** The leaf a record is routed to. */
    ghost function LeafFor(r: Rec): Block
      requires Valid()
      reads this, heap.pool.Repr()
    {
      RoutedLeaf(tree, heap.pool.View()[dirFile], Leaves(), r)
    }

    lemma ValidAfter(v: Files)
      requires keyCol < |heap.schema| && heap.fileId != leafFile && heap.fileId != dirFile && heap.schema != []
      requires heap.pool.Holds(root.page, rootFrame, PageId(dirFile, 0))
      requires TreeOk(tree, heap.pool.View(), dirFile, leafFile)
      requires heap.fileId in v && HeapLaid(v[heap.fileId], heap.schema)
      requires heap.fileId in heap.pool.View() && heap.pool.View()[heap.fileId] == v[heap.fileId]
      ensures Valid() && heap.Content() == HeapOf(v[heap.fileId], heap.schema)
    {
      hide HeapLaid, HeapOf, TreeOk;
      hide BufferManager.Abs, BufferManager.View;
    }

    /** root->insert_record(r). The leaf r is routed to takes it if it has no records; what happens in a leaf
        that has some, unless it has this one, is not written. */
    method InsertInTree(r: Rec) returns (o: LeafOutcome, ghost n: nat)
      requires Valid() && Unpinned(heap.pool.Abs()) >= Pins(tree)
      modifies heap.pool.Repr()
      ensures Valid() && heap.Content() == old(heap.Content()) && Balanced(old(heap.pool.Abs()), heap.pool.Abs())
      ensures OnlyChanged(old(heap.pool.View()), heap.pool.View(), {leafFile})
      ensures o == if LeafRecs(old(LeafFor(r))) == [] then Accepted else Refused(old(LeafFor(r)), r)
      ensures IndexGained(old(Index()), Index(), n, r, o)
      ensures IndexOffered(tree, old(heap.pool.View()), heap.pool.View(), dirFile, leafFile, r)
    {
      hide Inv, Unpinned, PoolModel.View, Balanced, HeapLaid, HeapOf, Entries, LeavesOf, TreeInserted, Pins, Good;
      hide Linked, LeafRecs, LeafAt, Refused, IndexGained, FindIdx, RoutedLeaf, IndexOffered;
      hide BufferManager.Abs, BufferManager.View;
      ghost var v, p0 := heap.pool.View(), heap.pool.Abs();
      FoundBelow(tree, v[dirFile], v[leafFile], None, None, r);
      heap.pool.AbsOfHeld(root.page, rootFrame, PageId(dirFile, 0));
      o := InsertInDir(heap.pool, dirFile, leafFile, root, rootFrame, r, tree, None, None);
      BalancedKeeps(p0, heap.pool.Abs(), rootFrame);
      heap.pool.HoldsByAbs(root.page, rootFrame, PageId(dirFile, 0));
      TreeAfterInsertion(tree, v, heap.pool.View(), dirFile, leafFile, r, o);
      ValidAfter(v);
      n := |Entries(LeavesOf(tree)[..FindIdx(tree, v[dirFile], r)], v[leafFile])|;
    }

    /** The key of a value. */
    method KeyFor(v: Value) returns (key: int64)
      ensures key == KeyOf(v)
    {
      match v {
        case IntValue(i) =>
          key := i;
        case StrValue(s) =>
          KeyRange(s);
          key := SerializeStringKey(s);
      }
    }

    /** Reads a live record into record_buf, and takes its key. */
    method FetchKey(rid: RID) returns (key: int64)
      requires Valid() && HasSchema(recordBuf.values, heap.schema) && Unpinned(heap.pool.Abs()) > 0
      requires Lookup(heap.Content(), rid).Some?
      modifies recordBuf, heap.pool.Repr()
      ensures Valid() && Index() == old(Index()) && heap.Content() == old(heap.Content())
      ensures heap.pool.View() == old(heap.pool.View())
      ensures Balanced(old(heap.pool.Abs()), heap.pool.Abs()) && HasSchema(recordBuf.values, heap.schema)
      ensures IndexedOne(Rec(key, rid), heap.Content(), keyCol, heap.schema[keyCol])
    {
      hide Inv, Unpinned, PoolModel.View, Balanced, HeapLaid, HeapOf, Entries, LeavesOf, Good, Linked, KeyOf, TreeOk;
      hide Lookup, IndexedOne, HasSchema;
      hide BufferManager.Abs, BufferManager.View;
      LiveRange(heap.Content(), rid);
      ReadRecord(rid, recordBuf);
      ghost var row := recordBuf.values;
      SchemaAt(row, heap.schema, keyCol);
      label L:
      key := KeyFor(recordBuf.values[keyCol]);
      heap.pool.Undisturbed@L();
      MakesIndexed(rid, row, key, heap.Content(), keyCol, heap.schema[keyCol]);
    }

    /** insert_record for a live heap record: index records keep naming live records under their keys. */
    method InsertRecord(rid: RID) returns (o: LeafOutcome, ghost r: Rec, ghost n: nat)
      requires Valid() && HasSchema(recordBuf.values, heap.schema) && Unpinned(heap.pool.Abs()) >= Pins(tree)
      requires Lookup(heap.Content(), rid).Some?
      modifies recordBuf, heap.pool.Repr()
      ensures Valid() && heap.Content() == old(heap.Content()) && Balanced(old(heap.pool.Abs()), heap.pool.Abs())
      ensures OnlyChanged(old(heap.pool.View()), heap.pool.View(), {leafFile})
      ensures HasSchema(recordBuf.values, heap.schema)
      ensures r.rid == rid && IndexedOne(r, heap.Content(), keyCol, heap.schema[keyCol])
      ensures r == RecOf(Lookup(heap.Content(), rid).value, rid, keyCol)
      ensures o == if LeafRecs(old(LeafFor(r))) == [] then Accepted else Refused(old(LeafFor(r)), r)
      ensures IndexGained(old(Index()), Index(), n, r, o)
      ensures IndexOffered(tree, old(heap.pool.View()), heap.pool.View(), dirFile, leafFile, r)
      ensures Indexed(old(Index()), heap.Content(), keyCol, heap.schema[keyCol]) ==>
                Indexed(Index(), heap.Content(), keyCol, heap.schema[keyCol])
    {
      hide Inv, Unpinned, PoolModel.View, Balanced, HeapLaid, HeapOf, Entries, LeavesOf, Pins, Good, Linked, LeafRecs;
      hide LeafAt, Refused, FindIdx, Indexed, IndexedOne, IndexGained, TreeOk, HasSchema, Lookup;
      hide RoutedLeaf, IndexOffered;
      hide BufferManager.Abs, BufferManager.View;
      ghost var p0, h, es := heap.pool.Abs(), heap.Content(), Index();
      PinsHere();
      var key := FetchKey(rid);
      ghost var p1 := heap.pool.Abs();
      UnpinnedBalanced(p0, p1);
      r := Rec(key, rid);
      RecOfIndexed(r, h, keyCol, heap.schema[keyCol]);
      o, n := InsertInTree(Rec(key, rid));
      BalancedTransitive(p0, p1, heap.pool.Abs());
      GainedIndexed(es, Index(), n, r, o, h, keyCol, heap.schema[keyCol]);
    }

    lemma PinsHere()
      requires Valid()
      ensures Pins(tree) >= 1
    {
      RootPins(tree);
    }
  }

  lemma SchemaAt(row: Row, ts: Schema, i: nat)
    requires HasSchema(row, ts) && i < |ts|
    ensures i < |row| && TypeOf(row[i]) == ts[i]
  {
  }

  lemma LiveRange(h: Heap, rid: RID)
    requires Lookup(h, rid).Some?
    ensures 0 <= rid.page < |h| && 0 <= rid.slot < |h[rid.page]|
  {
  }

  lemma MakesIndexed(rid: RID, row: Row, key: int64, h: Heap, col: nat, t: DataType)
    requires Lookup(h, rid) == Some(row) && col < |row| && TypeOf(row[col]) == t && key == KeyOf(row[col])
    ensures IndexedOne(Rec(key, rid), h, col, t)
  {
  }

  lemma GainedIndexed(es: seq<Rec>, es': seq<Rec>, n: nat, r: Rec, o: LeafOutcome, h: Heap, col: nat, ty: DataType)
    requires IndexGained(es, es', n, r, o) && IndexedOne(r, h, col, ty)
    ensures Indexed(es, h, col, ty) ==> Indexed(es', h, col, ty)
  {
    if o == Accepted && Indexed(es, h, col, ty) {
      InsertedIndexed(es, es', n, r, h, col, ty);
    }
  }

  lemma SameLeaves(v: Files, w: Files, leafFile: FileId)
    requires SameTree(v, w, leafFile)
    ensures leafFile in v && leafFile in w && forall p: nat :: LeafAt(w[leafFile], p) == LeafAt(v[leafFile], p)
  {
  }

  lemma RootPins(t: Tree)
    requires t.Dir?
    ensures Pins(t) >= 1
  {
  }

  lemma StartOnLeaf(b: Block, r: Rec)
    requires LeafOk(b)
    ensures var rs, pos := LeafRecs(b), SearchPos(b, r);
            rs != [] ==>
              && pos <= |rs| && (forall i :: 0 <= i < pos ==> RecLess(rs[i], r))
              && forall i :: pos <= i < |rs| ==> !RecLess(rs[i], r)
  {
    hide LeafRecs, RecLess;
    LowerBoundSplits(LeafRecs(b), r);
  }

  /** From the place the search for the minimum ends at, the scan meets the hits from the minimum on. */
  lemma ScanStart(t: Tree, v: Files, d: FileId, l: FileId, leaf: nat, pos: nat, h: Heap, col: nat, min: Value,
                  max: Value)
    requires TreeOk(t, v, d, l) && LeafFound(t, v, d, l, MinRecord(min), leaf, pos)
    ensures var r, i := MinRecord(min), FindIdx(t, v[d], MinRecord(min));
            && i < |LeavesOf(t)| && leaf == LeavesOf(t)[i]
            && Hits(IndexModel.Rest(LeavesOf(t), v[l], i, pos), h, col, None, min, max) ==
                  Hits(Entries(LeavesOf(t), v[l]), h, col, Some(r), min, max)
  {
    hide Good, Linked, LeafAt, LeafRecs, Entries, LeavesOf, Hits, RecLess, MinRecord, Brackets, IndexModel.Rest;
    hide LowerBound;
    var r, i := MinRecord(min), FindIdx(t, v[d], MinRecord(min));
    FindBrackets(t, v[d], v[l], None, None, r);
    GoodLeaf(t, v[d], v[l], None, None, i);
    StartOnLeaf(LeafAt(v[l], leaf), r);
    StartLosesNothing(LeavesOf(t), v[l], i, pos, h, col, r, min, max);
  }

  // ---------- the range scan ----------

  datatype Step = Skipped | Found | Ended

  /** What a pass of the loop says about the hits due before and after it. */
  ghost predicate Judged(s: Step, hit: Rec, due: seq<Rec>, due': seq<Rec>, h: Heap, values: Row) {
    match s
    case Skipped => due' == due
    case Found => due == [hit] + due' && Lookup(h, hit.rid) == Some(values)
    case Ended => due == [] == due'
  }

  lemma JudgedNothing(s: Step, hit: Rec, due: seq<Rec>, h: Heap, values: Row)
    requires s == Skipped || (s == Ended && due == [])
    ensures Judged(s, hit, due, due, h, values)
  {
  }

  class BPlusTreeIter {
    const bpt: BPlusTree
    const min: Value
    const max: Value
    const minRecord: Rec
    const maxRecord: Rec
    var out: Record?
    var currentLeaf: Option<BPlusTreeLeaf>
    var currentLeafPos: nat
    ghost var frame: nat
    ghost var leafIdx: nat

    /** The current leaf is leaf leafIdx of the tree, and held. */
    ghost predicate Valid()
      reads this, bpt, bpt.heap.pool.Repr()
    {
      && bpt.Valid() && minRecord == MinRecord(min) && maxRecord == MaxRecord(max)
      && Indexed(bpt.Index(), bpt.heap.Content(), bpt.keyCol, bpt.heap.schema[bpt.keyCol])
      && (currentLeaf.Some? ==>
            && leafIdx < |LeavesOf(bpt.tree)|
            && bpt.heap.pool.Holds(currentLeaf.value.page, frame, PageId(bpt.leafFile, LeavesOf(bpt.tree)[leafIdx])))
    }

    /** The index records from the cursor on. */
    ghost function Remaining(): seq<Rec>
      requires Valid()
      reads this, bpt, bpt.heap.pool.Repr()
    {
      if currentLeaf.None? then [] else IndexModel.Rest(LeavesOf(bpt.tree), bpt.Leaves(), leafIdx, currentLeafPos)
    }

    /** The hits from the cursor on: what the scan has still to return. The minimum is not looked at any more. */
    ghost function Due(): seq<Rec>
      requires Valid()
      reads this, bpt, bpt.heap.pool.Repr()
    {
      Hits(Remaining(), bpt.heap.Content(), bpt.keyCol, None, min, max)
    }

    /** The pool without the iterator's own pin. */
    ghost function Rest(): Pool
      requires Valid()
      reads this, bpt, bpt.heap.pool.Repr()
    {
      if currentLeaf.None? then bpt.heap.pool.Abs() else
        bpt.heap.pool.AbsOfHeld(currentLeaf.value.page, frame, PageId(bpt.leafFile, LeavesOf(bpt.tree)[leafIdx]));
        Released(bpt.heap.pool.Abs(), frame)
    }

    /** get_iter. */
    constructor (bpt: BPlusTree, min: Value, max: Value)
      requires bpt.Valid() && TypeOf(min) == TypeOf(max) == bpt.heap.schema[bpt.keyCol]
      requires Indexed(bpt.Index(), bpt.heap.Content(), bpt.keyCol, bpt.heap.schema[bpt.keyCol])
      ensures this.bpt == bpt && this.min == min && this.max == max && Valid() && currentLeaf.None? && out == null
      ensures Rest() == bpt.heap.pool.Abs()
    {
      hide Inv, Unpinned, PoolModel.View, HeapLaid, HeapOf, TreeOk, Entries, Indexed;
      hide BufferManager.Abs, BufferManager.View;
      this.bpt, this.min, this.max := bpt, min, max;
      minRecord, maxRecord := MinRecord(min), MaxRecord(max);
      out, currentLeaf, currentLeafPos, frame, leafIdx := null, None, 0, 0, 0;
      new;
      bpt.heap.pool.Undisturbed();
    }

    /** Sets the cursor; the pool is not involved. */
    method Place(leaf: BPlusTreeLeaf, ghost k: nat, ghost i: nat, pos: nat)
      requires bpt.Valid() && minRecord == MinRecord(min) && maxRecord == MaxRecord(max)
      requires Indexed(bpt.Index(), bpt.heap.Content(), bpt.keyCol, bpt.heap.schema[bpt.keyCol])
      requires i < |LeavesOf(bpt.tree)|
      requires bpt.heap.pool.Holds(leaf.page, k, PageId(bpt.leafFile, LeavesOf(bpt.tree)[i]))
      modifies this
      ensures currentLeaf == Some(leaf) && frame == k && leafIdx == i && currentLeafPos == pos && out == old(out)
      ensures Valid() && bpt.heap.pool.Abs() == old(bpt.heap.pool.Abs())
      ensures bpt.heap.pool.View() == old(bpt.heap.pool.View())
      ensures bpt.Index() == old(bpt.Index()) && bpt.heap.Content() == old(bpt.heap.Content())
      ensures bpt.Leaves() == old(bpt.Leaves())
    {
      hide Inv, Unpinned, PoolModel.View, HeapLaid, HeapOf, TreeOk, Entries, Indexed;
      hide BufferManager.Abs, BufferManager.View;
      currentLeaf, frame, leafIdx, currentLeafPos := Some(leaf), k, i, pos;
      bpt.heap.pool.Undisturbed();
    }

    /** Opens leaf page p, and then releases the leaf the cursor was on. */
    method HandOver(p: nat) returns (leaf: BPlusTreeLeaf, ghost k: nat)
      requires Valid() && currentLeaf.Some? && p < MAX_PAGES && Unpinned(Rest()) > 1
      modifies bpt.heap.pool.Repr()
      ensures bpt.Valid() && bpt.Index() == old(bpt.Index()) && bpt.heap.Content() == old(bpt.heap.Content())
      ensures SameTree(old(bpt.heap.pool.View()), bpt.heap.pool.View(), bpt.leafFile)
      ensures Acquired(old(Rest()), bpt.heap.pool.Abs(), k, PageId(bpt.leafFile, p))
      ensures bpt.heap.pool.Valid() && k < |bpt.heap.pool.frames| && bpt.heap.pool.frames[k] == leaf.page
    {
      hide Inv, Unpinned, PoolModel.View, Acquired, Balanced, HeapLaid, HeapOf, SameTree, Entries, LeavesOf, Indexed;
      hide Released, Good, Linked, LeafAt;
      hide BufferManager.Abs, BufferManager.View;
      ghost var p0, p1, here := Rest(), bpt.heap.pool.Abs(), LeavesOf(bpt.tree)[leafIdx];
      bpt.heap.pool.AbsOfHeld(currentLeaf.value.page, frame, PageId(bpt.leafFile, here));
      AcquiredLast(p1, frame);
      UnpinnedAcquired(p0, p1, frame, PageId(bpt.leafFile, here));
      leaf, k := bpt.OpenLeaf(p);
      Handover(p0, p1, frame, PageId(bpt.leafFile, here), bpt.heap.pool.Abs(), k, PageId(bpt.leafFile, p));
      bpt.heap.pool.HoldsByAbs(currentLeaf.value.page, frame, PageId(bpt.leafFile, here));
      bpt.CloseLeaf(currentLeaf.value, frame, here);
    }

    /** Opens leaf page p, and then releases the leaf the cursor was on, if any. */
    method OpenInstead(p: nat) returns (leaf: BPlusTreeLeaf, ghost k: nat)
      requires Valid() && p < MAX_PAGES && Unpinned(Rest()) > 1
      modifies bpt.heap.pool.Repr()
      ensures bpt.Valid() && bpt.Index() == old(bpt.Index()) && bpt.heap.Content() == old(bpt.heap.Content())
      ensures SameTree(old(bpt.heap.pool.View()), bpt.heap.pool.View(), bpt.leafFile)
      ensures bpt.heap.pool.Holds(leaf.page, k, PageId(bpt.leafFile, p))
      ensures Acquired(old(Rest()), bpt.heap.pool.Abs(), k, PageId(bpt.leafFile, p))
    {
      hide Inv, Unpinned, PoolModel.View, Acquired, Balanced, HeapLaid, HeapOf, SameTree, Entries, LeavesOf, Indexed;
      hide Released, Good, Linked, LeafAt;
      hide BufferManager.Abs, BufferManager.View;
      ghost var p0, pid := Rest(), PageId(bpt.leafFile, p);
      if currentLeaf.Some? {
        leaf, k := HandOver(p);
        AcquiredHolds(p0, bpt.heap.pool.Abs(), k, pid);
        bpt.heap.pool.HoldsByAbs(leaf.page, k, pid);
      } else {
        leaf, k := bpt.OpenLeaf(p);
      }
    }

    /** The cursor moves to position pos of leaf i of the tree, which is page p. */
    method SwitchLeaf(p: nat, ghost i: nat, pos: nat)
      requires Valid() && i < |LeavesOf(bpt.tree)| && p == LeavesOf(bpt.tree)[i] && Unpinned(Rest()) > 1
      modifies this, bpt.heap.pool.Repr()
      ensures Valid() && Balanced(old(Rest()), Rest()) && out == old(out)
      ensures SameTree(old(bpt.heap.pool.View()), bpt.heap.pool.View(), bpt.leafFile)
      ensures bpt.Index() == old(bpt.Index()) && bpt.heap.Content() == old(bpt.heap.Content())
      ensures currentLeaf.Some? && leafIdx == i && currentLeafPos == pos
    {
      hide Inv, Unpinned, PoolModel.View, Acquired, Balanced, HeapLaid, HeapOf, SameTree, Entries, LeavesOf, Indexed;
      hide Released, Good, Linked, LeafAt;
      hide BufferManager.Abs, BufferManager.View;
      ghost var p0, pid := Rest(), PageId(bpt.leafFile, p);
      GoodLeaf(bpt.tree, bpt.heap.pool.View()[bpt.dirFile], bpt.Leaves(), None, None, i);
      var leaf;
      ghost var k;
      leaf, k := OpenInstead(p);
      ReleaseBalances(p0, bpt.heap.pool.Abs(), k, pid);
      Place(leaf, k, i, pos);
    }

    /** The records of the leaf the cursor is on. */
    ghost function Here(): seq<Rec>
      requires Valid() && currentLeaf.Some?
      reads this, bpt, bpt.heap.pool.Repr()
    {
      LeafRecs(LeafAt(bpt.Leaves(), LeavesOf(bpt.tree)[leafIdx]))
    }

    lemma HereData()
      requires Valid() && currentLeaf.Some?
      ensures var page := currentLeaf.value.page;
              && page.Ok() && LeafOk(page.Data()) && LeafRecs(page.Data()) == Here()
              && NextLeaf(page.Data()) == NextLeaf(LeafAt(bpt.Leaves(), LeavesOf(bpt.tree)[leafIdx]))
    {
      hide Inv, Unpinned, PoolModel.View, HeapLaid, HeapOf, Entries, LeavesOf, Indexed, Good, Linked, LeafRecs;
      hide LeafOk, NextLeaf;
      hide BufferManager.Abs, BufferManager.View;
      bpt.heap.pool.HeldData(currentLeaf.value.page, frame, PageId(bpt.leafFile, LeavesOf(bpt.tree)[leafIdx]));
      GoodLeaf(bpt.tree, bpt.heap.pool.View()[bpt.dirFile], bpt.Leaves(), None, None, leafIdx);
    }

    /** The record under the cursor, and what it adds to the scan. */
    lemma RecordHere()
      requires Valid() && currentLeaf.Some? && currentLeafPos < |Here()|
      ensures var e, h := Here()[currentLeafPos], bpt.heap.Content();
              var rest := IndexModel.Rest(LeavesOf(bpt.tree), bpt.Leaves(), leafIdx, currentLeafPos + 1);
              && Lookup(h, e.rid).Some? && bpt.keyCol < |Lookup(h, e.rid).value|
              && 0 <= e.rid.page < |h| && 0 <= e.rid.slot < |h[e.rid.page]|
              && Due() ==
                   (if Between(min, Lookup(h, e.rid).value[bpt.keyCol], max) && !RecLess(MaxRecord(max), e) then [e]
                    else [])
                          + Hits(rest, h, bpt.keyCol, None, min, max)
              && (RecLess(MaxRecord(max), e) ==> Due() == [] == Hits(rest, h, bpt.keyCol, None, min, max))
    {
      hide Inv, Unpinned, PoolModel.View, HeapLaid, HeapOf, Entries, LeavesOf, Indexed, Good, Linked, LeafRecs;
      hide LeafAt, RecLess, MaxRecord, Hits, Lookup, Between;
      hide BufferManager.Abs, BufferManager.View;
      ghost var ps, leaves, h, t := LeavesOf(bpt.tree), bpt.Leaves(), bpt.heap.Content(), bpt.heap.schema[bpt.keyCol];
      RestStep(ps, leaves, leafIdx, currentLeafPos);
      IndexIncreasing(bpt);
      ScannableRest(ps, leaves, leafIdx, currentLeafPos, h, bpt.keyCol, t);
      HitsFirst(Here()[currentLeafPos], IndexModel.Rest(ps, leaves, leafIdx, currentLeafPos + 1), h, bpt.keyCol, t,
                min, max);
    }

    /** Reads the heap record rid; the cursor stays. */
    method Fetch(rid: RID, o: Record)
      requires Valid() && currentLeaf.Some? && HasSchema(o.values, bpt.heap.schema)
      requires Lookup(bpt.heap.Content(), rid).Some? && 0 <= rid.page < |bpt.heap.Content()|
      requires 0 <= rid.slot < |bpt.heap.Content()[rid.page]|
      requires Unpinned(Rest()) > 1
      modifies o, bpt.heap.pool.Repr()
      ensures Valid() && Balanced(old(Rest()), Rest()) && HasSchema(o.values, bpt.heap.schema)
      ensures bpt.heap.pool.View() == old(bpt.heap.pool.View())
      ensures bpt.Index() == old(bpt.Index()) && bpt.heap.Content() == old(bpt.heap.Content())
      ensures bpt.Leaves() == old(bpt.Leaves())
      ensures Some(o.values) == Lookup(bpt.heap.Content(), rid)
    {
      hide Inv, Unpinned, PoolModel.View, Acquired, Balanced, HeapLaid, HeapOf, SameTree, Entries, LeavesOf, Indexed;
      hide Released, Good, Linked, LeafAt, Lookup, HasSchema;
      hide BufferManager.Abs, BufferManager.View;
      ghost var p0, p1, pid := Rest(), bpt.heap.pool.Abs(), PageId(bpt.leafFile, LeavesOf(bpt.tree)[leafIdx]);
      bpt.heap.pool.AbsOfHeld(currentLeaf.value.page, frame, pid);
      AcquiredLast(p1, frame);
      UnpinnedAcquired(p0, p1, frame, pid);
      bpt.ReadRecord(rid, o);
      AcquiredThenBalanced(p0, p1, bpt.heap.pool.Abs(), frame, pid);
      AcquiredHolds(p0, bpt.heap.pool.Abs(), frame, pid);
      bpt.heap.pool.HoldsByAbs(currentLeaf.value.page, frame, pid);
      ReleaseBalances(p0, bpt.heap.pool.Abs(), frame, pid);
    }

    /** current_leaf->get_record(current_leaf_pos). */
    method ReadHere() returns (record: Rec)
      requires Valid() && currentLeaf.Some? && currentLeafPos < |Here()|
      ensures Valid() && record == old(Here()[currentLeafPos])
      ensures bpt.heap.pool.Abs() == old(bpt.heap.pool.Abs()) && bpt.heap.pool.View() == old(bpt.heap.pool.View())
    {
      hide Inv, Unpinned, PoolModel.View, HeapLaid, HeapOf, Entries, LeavesOf, Indexed, Good, Linked, LeafAt;
      hide LeafRecs, LeafOk, LeafSlots, NextLeaf;
      hide BufferManager.Abs, BufferManager.View;
      HereData();
      LeafRecAt(currentLeaf.value.page.Data(), currentLeafPos);
      record := currentLeaf.value.GetRecord(currentLeafPos);
      bpt.heap.pool.Undisturbed();
    }

    /** auto pos = current_leaf_pos++, and get_record(pos). */
    method Advance() returns (record: Rec)
      requires Valid() && currentLeaf.Some? && currentLeafPos < |Here()|
      modifies this
      ensures Valid() && Rest() == old(Rest()) && bpt.heap.pool.View() == old(bpt.heap.pool.View()) && out == old(out)
      ensures bpt.Index() == old(bpt.Index()) && bpt.heap.Content() == old(bpt.heap.Content())
      ensures bpt.Leaves() == old(bpt.Leaves())
      ensures currentLeaf.Some? && leafIdx == old(leafIdx) && currentLeafPos == old(currentLeafPos) + 1
      ensures var o := Lookup(bpt.heap.Content(), record.rid);
              && o.Some? && bpt.keyCol < |o.value|
              && old(Due()) ==
                   (if Between(min, o.value[bpt.keyCol], max) && !RecLess(maxRecord, record) then [record] else [])
                   + Due()
              && (RecLess(maxRecord, record) ==> old(Due()) == [] == Due())
      ensures var h := bpt.heap.Content(); 0 <= record.rid.page < |h| && 0 <= record.rid.slot < |h[record.rid.page]|
    {
      hide Inv, Unpinned, PoolModel.View, HeapLaid, HeapOf, Entries, LeavesOf, Indexed, Good, Linked, LeafAt;
      hide LeafRecs, LeafOk, LeafSlots, NextLeaf, Lookup, Between, RecLess, MaxRecord, Hits, IndexModel.Rest;
      hide Released;
      hide BufferManager.Abs, BufferManager.View;
      RecordHere();
      record := ReadHere();
      Place(currentLeaf.value, frame, leafIdx, currentLeafPos + 1);
    }

    /** How many records of the leaf are left, for termination. */
    ghost function RecordsLeft(): nat
      requires Valid() && currentLeaf.Some?
      reads this, bpt, bpt.heap.pool.Repr()
    {
      if currentLeafPos < |Here()| then |Here()| - currentLeafPos else 0
    }

    /** One pass of the loop of next on a record: the cursor moves past it, and it ends the scan, is
        returned in out, or is skipped. */
    method TakeRecord(o: Record) returns (s: Step, ghost hit: Rec)
      requires Valid() && currentLeaf.Some? && currentLeafPos < |Here()| && out == o
      requires HasSchema(o.values, bpt.heap.schema)
      requires Unpinned(Rest()) > 1
      modifies this, o, bpt.heap.pool.Repr()
      ensures Valid() && Balanced(old(Rest()), Rest()) && out == o && HasSchema(o.values, bpt.heap.schema)
      ensures bpt.heap.pool.View() == old(bpt.heap.pool.View())
      ensures bpt.Index() == old(bpt.Index()) && bpt.heap.Content() == old(bpt.heap.Content())
      ensures bpt.Leaves() == old(bpt.Leaves())
      ensures currentLeaf.Some? && leafIdx == old(leafIdx) && currentLeafPos == old(currentLeafPos) + 1
      ensures Judged(s, hit, old(Due()), Due(), bpt.heap.Content(), o.values) && RecordsLeft() < old(RecordsLeft())
    {
      hide Inv, Unpinned, PoolModel.View, Balanced, HeapLaid, HeapOf, Entries, LeavesOf, Indexed, Released, Good;
      hide Linked, LeafAt, LeafRecs, Lookup, HasSchema, Between, RecLess, MaxRecord, Hits, IndexModel.Rest;
      hide BufferManager.Abs, BufferManager.View;
      BalancedReflexive(Rest());
      var record := Advance();
      if RecLess(maxRecord, record) {
        return Ended, record;
      }
      Fetch(record.rid, o);
      s := if Between(min, o.values[bpt.keyCol], max) then Found else Skipped;
      hit := record;
    }

    /** The leaf is used up: the scan goes on with the next leaf, or ends. */
    lemma LeafDone()
      requires Valid() && currentLeaf.Some? && currentLeafPos >= |Here()|
      ensures var ps := LeavesOf(bpt.tree); var n := NextLeaf(LeafAt(bpt.Leaves(), ps[leafIdx]));
              && (n == 0 ==> Due() == [])
              && (n != 0 ==>
                    && leafIdx + 1 < |ps| && n == ps[leafIdx + 1]
                    && var rest := IndexModel.Rest(ps, bpt.Leaves(), leafIdx + 1, 0);
                       Due() == Hits(rest, bpt.heap.Content(), bpt.keyCol, None, min, max))
    {
      hide Inv, Unpinned, PoolModel.View, HeapLaid, HeapOf, Entries, LeavesOf, Indexed, Good, LeafAt, LeafRecs;
      hide NextLeaf, IndexModel.Hit, IndexModel.Rest;
      hide BufferManager.Abs, BufferManager.View;
      LinkedAt(LeavesOf(bpt.tree), bpt.Leaves(), leafIdx);
      RestNext(LeavesOf(bpt.tree), bpt.Leaves(), leafIdx, currentLeafPos);
    }

    method LookAtLeaf() returns (count: int32, next: int32)
      requires Valid() && currentLeaf.Some?
      ensures Valid() && count == old(|Here()|)
      ensures 0 <= next == old(NextLeaf(LeafAt(bpt.Leaves(), LeavesOf(bpt.tree)[leafIdx])))
      ensures bpt.heap.pool.Abs() == old(bpt.heap.pool.Abs()) && bpt.heap.pool.View() == old(bpt.heap.pool.View())
      ensures Here() == old(Here()) && Rest() == old(Rest())
      ensures Due() == old(Due()) && RecordsLeft() == old(RecordsLeft())
    {
      hide Inv, Unpinned, PoolModel.View, HeapLaid, HeapOf, Entries, LeavesOf, Indexed, Good, Linked, LeafAt;
      hide LeafRecs, LeafOk, NextLeaf;
      hide BufferManager.Abs, BufferManager.View;
      HereData();
      LeafCount(currentLeaf.value.page.Data());
      count := currentLeaf.value.GetRecordCount();
      next := currentLeaf.value.GetNextPageNumber();
      bpt.heap.pool.Undisturbed();
    }

    /** One pass of the loop of next at the end of a leaf that has a next one. */
    method NextPage(next: nat)
      requires Valid() && currentLeaf.Some? && currentLeafPos >= |Here()| && Unpinned(Rest()) > 1
      requires next == NextLeaf(LeafAt(bpt.Leaves(), LeavesOf(bpt.tree)[leafIdx])) && next != 0
      modifies this, bpt.heap.pool.Repr()
      ensures Valid() && Balanced(old(Rest()), Rest()) && out == old(out)
      ensures SameTree(old(bpt.heap.pool.View()), bpt.heap.pool.View(), bpt.leafFile)
      ensures bpt.Index() == old(bpt.Index()) && bpt.heap.Content() == old(bpt.heap.Content())
      ensures currentLeaf.Some? && leafIdx == old(leafIdx) + 1 && currentLeafPos == 0 && leafIdx < |LeavesOf(bpt.tree)|
      ensures Due() == old(Due())
    {
      hide Inv, Unpinned, PoolModel.View, Balanced, HeapLaid, HeapOf, Entries, LeavesOf, Indexed, Released, Good;
      hide Linked, LeafAt, LeafRecs, NextLeaf, Hits, IndexModel.Rest;
      hide BufferManager.Abs, BufferManager.View;
      ghost var leaves := bpt.Leaves();
      LeafDone();
      SwitchLeaf(next, leafIdx + 1, 0);
      RestSame(LeavesOf(bpt.tree), leaves, bpt.Leaves(), leafIdx, 0);
    }

    /** One pass of the loop of next at the end of a leaf. */
    method EndOfLeaf(next: nat, ghost o: Record, ghost hit: Rec) returns (s: Step)
      requires Valid() && currentLeaf.Some? && currentLeafPos >= |Here()| && Unpinned(Rest()) > 1
      requires next == NextLeaf(LeafAt(bpt.Leaves(), LeavesOf(bpt.tree)[leafIdx]))
      modifies this, bpt.heap.pool.Repr()
      ensures Valid() && currentLeaf.Some? && Balanced(old(Rest()), Rest()) && out == old(out)
      ensures SameTree(old(bpt.heap.pool.View()), bpt.heap.pool.View(), bpt.leafFile)
      ensures bpt.Index() == old(bpt.Index()) && bpt.heap.Content() == old(bpt.heap.Content())
      ensures Judged(s, hit, old(Due()), Due(), bpt.heap.Content(), o.values)
      ensures leafIdx < |LeavesOf(bpt.tree)| && (s == Skipped ==> leafIdx > old(leafIdx))
    {
      hide Inv, Unpinned, PoolModel.View, Balanced, HeapLaid, HeapOf, Entries, LeavesOf, Indexed, Released, Good;
      hide Linked, LeafAt, LeafRecs, NextLeaf, Hits, IndexModel.Rest, Lookup, SameTree, Judged, LeafOk;
      hide BufferManager.Abs, BufferManager.View, BPlusTreeIter.Rest, BPlusTreeIter.Due, BPlusTreeIter.Here;
      SameTreeReflexive(bpt.heap.pool.View(), bpt.leafFile);
      if next != 0 {
        NextPage(next);
        s := Skipped;
      } else {
        LeafDone();
        BalancedReflexive(Rest());
        s := Ended;
      }
      JudgedNothing(s, hit, Due(), bpt.heap.Content(), o.values);
    }

    /** One pass of the loop of next. */
    method Pass(o: Record) returns (s: Step, ghost hit: Rec)
      requires Valid() && currentLeaf.Some? && Unpinned(Rest()) > 1 && out == o && HasSchema(o.values, bpt.heap.schema)
      modifies this, o, bpt.heap.pool.Repr()
      ensures Valid() && currentLeaf.Some? && Balanced(old(Rest()), Rest()) && out == o
      ensures HasSchema(o.values, bpt.heap.schema)
      ensures SameTree(old(bpt.heap.pool.View()), bpt.heap.pool.View(), bpt.leafFile)
      ensures bpt.Index() == old(bpt.Index()) && bpt.heap.Content() == old(bpt.heap.Content())
      ensures Judged(s, hit, old(Due()), Due(), bpt.heap.Content(), o.values)
      ensures leafIdx < |LeavesOf(bpt.tree)|
      ensures s == Skipped ==> leafIdx > old(leafIdx) || (leafIdx == old(leafIdx) && RecordsLeft() < old(RecordsLeft()))
    {
      hide Inv, Unpinned, PoolModel.View, Balanced, HeapLaid, HeapOf, Entries, LeavesOf, Indexed, Released, Good;
      hide Linked, LeafAt, LeafRecs, NextLeaf, Hits, IndexModel.Rest, Lookup, HasSchema, SameTree, Judged, LeafOk;
      hide BufferManager.Abs, BufferManager.View, BPlusTreeIter.Rest, BPlusTreeIter.Due, BPlusTreeIter.RecordsLeft;
      hide BPlusTreeIter.Here;
      SameTreeReflexive(bpt.heap.pool.View(), bpt.leafFile);
      hit := minRecord;
      var count, next := LookAtLeaf();
      if currentLeafPos < count {
        s, hit := TakeRecord(o);
      } else {
        s := EndOfLeaf(next, o, hit);
      }
    }

    /** The next hit goes to out, or false: there is none, and never will be. */
    method Next() returns (found: bool, ghost hit: Rec)
      requires Valid() && currentLeaf.Some? && Unpinned(Rest()) > 1 && out != null
      requires HasSchema(out.values, bpt.heap.schema)
      modifies this, out, bpt.heap.pool.Repr()
      ensures Valid() && currentLeaf.Some? && Balanced(old(Rest()), Rest())
      ensures out == old(out) && HasSchema(out.values, bpt.heap.schema)
      ensures SameTree(old(bpt.heap.pool.View()), bpt.heap.pool.View(), bpt.leafFile)
      ensures bpt.Index() == old(bpt.Index()) && bpt.heap.Content() == old(bpt.heap.Content())
      ensures found ==> old(Due()) == [hit] + Due() && Lookup(bpt.heap.Content(), hit.rid) == Some(out.values)
      ensures !found ==> old(Due()) == [] == Due()
    {
      hide Inv, Unpinned, PoolModel.View, Balanced, HeapLaid, HeapOf, Entries, LeavesOf, Indexed, Released, Linked;
      hide LeafAt, LeafRecs, SameTree, Hits, IndexModel.Rest, Lookup, HasSchema, RecordsLeft;
      hide BufferManager.Abs, BufferManager.View, BPlusTreeIter.Rest, BPlusTreeIter.Due;
      var o := out;
      ghost var p0, v0, due, index, h := Rest(), bpt.heap.pool.View(), Due(), bpt.Index(), bpt.heap.Content();
      BalancedReflexive(p0);
      SameTreeReflexive(v0, bpt.leafFile);
      while true
        invariant Valid() && currentLeaf.Some? && out == o && HasSchema(o.values, bpt.heap.schema)
        invariant Balanced(p0, Rest()) && SameTree(v0, bpt.heap.pool.View(), bpt.leafFile)
        invariant Due() == due && bpt.Index() == index && bpt.heap.Content() == h
        invariant leafIdx < |LeavesOf(bpt.tree)|
        decreases |LeavesOf(bpt.tree)| - leafIdx, RecordsLeft()
      {
        ghost var p1, v1 := Rest(), bpt.heap.pool.View();
        UnpinnedBalanced(p0, p1);
        var s;
        s, hit := Pass(o);
        BalancedTransitive(p0, p1, Rest());
        SameTreeTransitive(v0, v1, bpt.heap.pool.View(), bpt.leafFile);
        match s {
          case Found => return true, hit;
          case Ended => return false, hit;
          case Skipped =>
        }
      }
    }

    /** To the first place a hit can be at, whatever the cursor was on. */
    method Reset()
      requires Valid() && Unpinned(Rest()) > Pins(bpt.tree)
      modifies this, bpt.heap.pool.Repr()
      ensures Valid() && currentLeaf.Some? && Balanced(old(Rest()), Rest()) && out == old(out)
      ensures SameTree(old(bpt.heap.pool.View()), bpt.heap.pool.View(), bpt.leafFile)
      ensures bpt.Index() == old(bpt.Index()) && bpt.heap.Content() == old(bpt.heap.Content())
      ensures Due() == Hits(bpt.Index(), bpt.heap.Content(), bpt.keyCol, Some(minRecord), min, max)
    {
      hide Inv, Unpinned, PoolModel.View, Balanced, HeapLaid, HeapOf, Entries, LeavesOf, Indexed, Released, Linked;
      hide LeafAt, LeafRecs, SameTree, Hits, IndexModel.Rest, Good, LeafFound, Pins;
      hide BufferManager.Abs, BufferManager.View, BPlusTreeIter.Rest;
      ghost var p0, v0 := Rest(), bpt.heap.pool.View();
      RootPins(bpt.tree);
      var leaf, pos := SearchMin();
      ghost var p1, v1 := Rest(), bpt.heap.pool.View();
      UnpinnedBalanced(p0, p1);
      ghost var i := FindIdx(bpt.tree, v0[bpt.dirFile], minRecord);
      ScanStart(bpt.tree, v0, bpt.dirFile, bpt.leafFile, leaf, pos, bpt.heap.Content(), bpt.keyCol, min, max);
      SwitchLeaf(leaf, i, pos);
      BalancedTransitive(p0, p1, Rest());
      SameTreeTransitive(v0, v1, bpt.heap.pool.View(), bpt.leafFile);
      SameLeaves(v0, bpt.heap.pool.View(), bpt.leafFile);
      RestSame(LeavesOf(bpt.tree), v0[bpt.leafFile], bpt.Leaves(), i, pos);
    }

    method Begin(out: Record)
      requires Valid() && Unpinned(Rest()) > Pins(bpt.tree)
      modifies this, bpt.heap.pool.Repr()
      ensures Valid() && currentLeaf.Some? && Balanced(old(Rest()), Rest()) && this.out == out
      ensures SameTree(old(bpt.heap.pool.View()), bpt.heap.pool.View(), bpt.leafFile)
      ensures bpt.Index() == old(bpt.Index()) && bpt.heap.Content() == old(bpt.heap.Content())
      ensures Due() == Hits(bpt.Index(), bpt.heap.Content(), bpt.keyCol, Some(minRecord), min, max)
    {
      hide Inv, Unpinned, PoolModel.View, Balanced, HeapLaid, HeapOf, Entries, LeavesOf, Indexed, Released, Linked;
      hide LeafAt, LeafRecs, SameTree, Hits, Good;
      hide BufferManager.Abs, BufferManager.View;
      this.out := out;
      bpt.heap.pool.Undisturbed();
      Reset();
    }

    /** bpt.root->search_leaf(min_record). */
    method SearchMin() returns (leaf: nat, pos: nat)
      requires Valid() && Unpinned(Rest()) > Pins(bpt.tree)
      modifies bpt.heap.pool.Repr()
      ensures Valid() && Balanced(old(Rest()), Rest())
      ensures SameTree(old(bpt.heap.pool.View()), bpt.heap.pool.View(), bpt.leafFile)
      ensures bpt.Index() == old(bpt.Index()) && bpt.heap.Content() == old(bpt.heap.Content())
      ensures bpt.dirFile in old(bpt.heap.pool.View()) && bpt.leafFile in old(bpt.heap.pool.View())
      ensures LeafFound(bpt.tree, old(bpt.heap.pool.View()), bpt.dirFile, bpt.leafFile, minRecord, leaf, pos)
    {
      hide Inv, Unpinned, PoolModel.View, Acquired, Balanced, HeapLaid, HeapOf, Entries, LeavesOf, Indexed, Released;
      hide Linked, LeafAt, SameTree, Good, LeafFound, Pins;
      hide BufferManager.Abs, BufferManager.View;
      if currentLeaf.Some? {
        ghost var p0, p1, pid := Rest(), bpt.heap.pool.Abs(), PageId(bpt.leafFile, LeavesOf(bpt.tree)[leafIdx]);
        bpt.heap.pool.AbsOfHeld(currentLeaf.value.page, frame, pid);
        AcquiredLast(p1, frame);
        UnpinnedAcquired(p0, p1, frame, pid);
        leaf, pos := bpt.FindLeaf(minRecord);
        AcquiredThenBalanced(p0, p1, bpt.heap.pool.Abs(), frame, pid);
        AcquiredHolds(p0, bpt.heap.pool.Abs(), frame, pid);
        bpt.heap.pool.HoldsByAbs(currentLeaf.value.page, frame, pid);
        ReleaseBalances(p0, bpt.heap.pool.Abs(), frame, pid);
      } else {
        leaf, pos := bpt.FindLeaf(minRecord);
      }
    }
  }

  /** The record has a number from min to max in the column. */
  predicate IntBetween(e: Rec, h: Heap, col: nat, min: int64, max: int64) {
    var o := Lookup(h, e.rid);
    o.Some? && col < |o.value| && o.value[col].IntValue? && min <= o.value[col].i <= max
  }

  /** One row per hit, in the same order. */
  predicate RowsOfHits(rows: seq<Row>, hits: seq<Rec>, h: Heap) {
    |rows| == |hits| && forall i :: 0 <= i < |hits| ==> Lookup(h, hits[i].rid) == Some(rows[i])
  }

  lemma RowsOfHitsMore(rows: seq<Row>, hits: seq<Rec>, h: Heap, row: Row, hit: Rec)
    requires RowsOfHits(rows, hits, h) && Lookup(h, hit.rid) == Some(row)
    ensures RowsOfHits(rows + [row], hits + [hit], h)
  {
    hide Lookup;
  }

  /** Running a scan to its end, as src/bin/test_lab2.cc does: each index record whose value is between the
      bounds, and whose key is between their keys, is returned once, in the order of the index, and no other. */
  method RunScan(iter: BPlusTreeIter, out: Record) returns (rows: seq<Row>, ghost hits: seq<Rec>)
    requires iter.Valid() && HasSchema(out.values, iter.bpt.heap.schema) && Unpinned(iter.Rest()) > Pins(iter.bpt.tree)
    modifies iter, out, iter.bpt.heap.pool.Repr()
    ensures iter.Valid() && iter.bpt.Index() == old(iter.bpt.Index()) && Balanced(old(iter.Rest()), iter.Rest())
    ensures SameTree(old(iter.bpt.heap.pool.View()), iter.bpt.heap.pool.View(), iter.bpt.leafFile)
    ensures iter.bpt.heap.Content() == old(iter.bpt.heap.Content())
    ensures RowsOfHits(rows, hits, iter.bpt.heap.Content()) && Increasing(hits)
    ensures forall e :: e in hits <==>
              e in iter.bpt.Index() && IndexModel.Hit(e, iter.bpt.heap.Content(), iter.bpt.keyCol,
                    Some(MinRecord(iter.min)), iter.min, iter.max)
    ensures iter.min.IntValue? && iter.max.IntValue? && iter.bpt.heap.schema[iter.bpt.keyCol] == INT ==>
              forall e :: e in hits <==>
                e in iter.bpt.Index() && IntBetween(e, iter.bpt.heap.Content(), iter.bpt.keyCol, iter.min.i, iter.max.i)
  {
    hide Inv, Unpinned, PoolModel.View, Balanced, HeapLaid, HeapOf, Entries, LeavesOf, Released, Linked, LeafAt;
    hide LeafRecs, SameTree, Hits, IndexModel.Rest, Lookup, HasSchema, Good, Pins, RowsOfHits, Increasing, RecLess;
    hide Indexed, IntBetween;
    hide BufferManager.Abs, BufferManager.View, BPlusTreeIter.Rest, BPlusTreeIter.Due;
    ghost var p0, index, h := iter.Rest(), iter.bpt.Index(), iter.bpt.heap.Content();
    ghost var v0 := iter.bpt.heap.pool.View();
    RootPins(iter.bpt.tree);
    iter.Begin(out);
    ghost var due := iter.Due();
    rows, hits := [], [];
    NoRows(h);
    var found := true;
    while found
      invariant iter.Valid() && iter.currentLeaf.Some? && iter.out == out && HasSchema(out.values, iter.bpt.heap.schema)
      invariant Balanced(p0, iter.Rest()) && iter.bpt.Index() == index && iter.bpt.heap.Content() == h
      invariant SameTree(v0, iter.bpt.heap.pool.View(), iter.bpt.leafFile)
      invariant due == hits + iter.Due() && RowsOfHits(rows, hits, h) && (!found ==> iter.Due() == [])
      decreases |iter.Due()|, found
    {
      ghost var p1, v1 := iter.Rest(), iter.bpt.heap.pool.View();
      UnpinnedBalanced(p0, p1);
      ghost var hit;
      found, hit := iter.Next();
      BalancedTransitive(p0, p1, iter.Rest());
      SameTreeTransitive(v0, v1, iter.bpt.heap.pool.View(), iter.bpt.leafFile);
      if found {
        RowsOfHitsMore(rows, hits, h, out.values, hit);
        Associative(hits, [hit], iter.Due());
        rows, hits := rows + [out.values], hits + [hit];
      }
    }
    assert due == hits + [] == hits;
    IndexIncreasing(iter.bpt);
    HitsExact(index, h, iter.bpt.keyCol, Some(iter.minRecord), iter.min, iter.max);
    if iter.min.IntValue? && iter.max.IntValue? && iter.bpt.heap.schema[iter.bpt.keyCol] == INT {
      IntHits(index, h, iter.bpt.keyCol, iter.min.i, iter.max.i);
    }
  }

  lemma IntHits(es: seq<Rec>, h: Heap, col: nat, min: int64, max: int64)
    requires Indexed(es, h, col, INT)
    ensures forall e :: e in es ==>
      (IndexModel.Hit(e, h, col, Some(MinRecord(IntValue(min))), IntValue(min), IntValue(max)) <==>
       IntBetween(e, h, col, min, max))
  {
    hide IndexModel.Hit, MinRecord, IndexedOne;
    forall e | e in es
      ensures IndexModel.Hit(e, h, col, Some(MinRecord(IntValue(min))), IntValue(min), IntValue(max)) <==>
              IntBetween(e, h, col, min, max)
    {
      var i :| 0 <= i < |es| && es[i] == e;
      assert IndexedOne(es[i], h, col, INT);
      IntHit(e, h, col, min, max);
      IndexedHas(e, h, col, INT);
    }
  }

  lemma IndexedHas(e: Rec, h: Heap, col: nat, t: DataType)
    requires IndexedOne(e, h, col, t)
    ensures Lookup(h, e.rid).Some? && col < |Lookup(h, e.rid).value|
  {
  }

  lemma IndexIncreasing(bpt: BPlusTree)
    requires bpt.Valid()
    ensures Increasing(bpt.Index())
  {
    hide Inv, Unpinned, PoolModel.View, HeapLaid, Entries, LeavesOf, Good, Linked, Increasing;
    hide BufferManager.Abs, BufferManager.View;
    var v := bpt.heap.pool.View();
    GoodIncreasing(bpt.tree, v[bpt.dirFile], v[bpt.leafFile], None, None);
  }

  lemma NoRows(h: Heap)
    ensures RowsOfHits([], [], h)
  {
  }

  lemma SameElsewhere(v: Files, w: Files, leafFile: FileId, f: FileId)
    requires SameTree(v, w, leafFile) && f in v && f != leafFile
    ensures f in w && w[f] == v[f]
  {
  }
}
