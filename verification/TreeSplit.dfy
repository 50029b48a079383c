/** A directory anywhere in the tree absorbs the split of one of its children
    (src/storage/b_plus_tree/b_plus_tree_dir.cc:107-121): what becomes of the whole tree. */
module TreeSplits {
  import opened Bytes
  import opened Values
  import opened Pages
  import opened PoolModel
  import opened BufferManagers
  import opened BPlusTreeNodes
  import opened Routing
  import opened BPlusTreeModel
  import opened BPlusTreePages
  import opened TreeInsertions
  import opened BPlusTrees

  /** The pages of the directories of a tree. */
  function DirsOf(t: Tree): seq<nat>
    decreases t, 1
  {
    match t
    case Leaf(_) => []
    case Dir(p, kids) => [p] + DirsOfAll(kids)
  }

  function DirsOfAll(ts: seq<Tree>): seq<nat>
    decreases ts, 0
  {
    if ts == [] then [] else DirsOf(ts[0]) + DirsOfAll(ts[1..])
  }

  /** A descent from t: the position of the child taken in each directory; the last child is the one that split. */
  predicate OnPath(t: Tree, path: seq<nat>)
    decreases path
  {
    path != [] && t.Dir? && path[0] < |t.kids| && (|path| > 1 ==> OnPath(t.kids[path[0]], path[1..]))
  }

  /** The directory over the child that split. */
  function DirAt(t: Tree, path: seq<nat>): (u: Tree)
    requires OnPath(t, path)
    ensures u.Dir?
    decreases path
  {
    if |path| == 1 then t else DirAt(t.kids[path[0]], path[1..])
  }

  function ChildAt(t: Tree, path: seq<nat>): Tree
    requires OnPath(t, path)
    decreases path
  {
    if |path| == 1 then t.kids[path[0]] else ChildAt(t.kids[path[0]], path[1..])
  }

  /** The tree with l and r in the place of that child. */
  function SplitAt(t: Tree, path: seq<nat>, l: Tree, r: Tree): (u: Tree)
    requires OnPath(t, path)
    ensures u.Dir? && u.page == t.page
    decreases path
  {
    var c := path[0];
    if |path| == 1 then Dir(t.page, SplitKids(t.kids, c, l, r))
    else Dir(t.page, t.kids[c := SplitAt(t.kids[c], path[1..], l, r)])
  }

  /** The tree is good but for the child that split, whose halves are. */
  ghost predicate GoodButAt(t: Tree, path: seq<nat>, l: Tree, r: Tree, split: Split,
                            dirs: seq<Block>, leaves: seq<Block>, lo: Option<Rec>, hi: Option<Rec>)
    requires OnPath(t, path)
    decreases path
  {
    var c := path[0];
    && t.page < |dirs| && t.page < MAX_PAGES && DirOk(dirs[t.page])
    && var n := NodeOf(dirs[t.page]);
       && n.kids == Pointers(t.kids) && GoodAllBut(t.kids, n.seps, c, dirs, leaves, lo, hi)
       && if |path| == 1 then
            && Pointer(l) == Pointer(t.kids[c]) && Pointer(r) == split.page
            && GoodSplit(l, r, split.record, dirs, leaves, LowOf(n.seps, c, lo), HighOf(n.seps, c, hi))
          else
            && t.kids[c].page > 0
            && GoodButAt(t.kids[c], path[1..], l, r, split, dirs, leaves, LowOf(n.seps, c, lo), HighOf(n.seps, c, hi))
  }

  // ---------- one directory page changed ----------

  lemma {:induction false} GoodOutside(t: Tree, dirs: seq<Block>, q: nat, b: Block, leaves: seq<Block>,
                                       lo: Option<Rec>, hi: Option<Rec>)
    requires Good(t, dirs, leaves, lo, hi) && q < |dirs| && q !in DirsOf(t)
    ensures Good(t, dirs[q := b], leaves, lo, hi)
    decreases t, 1
  {
    hide AllIn, LeafAt, LeafRecs, LeafOk, DirOk;
    match t
    case Leaf(p) =>
    case Dir(p, kids) =>
      assert DirsOf(t)[0] == p;
      GoodAllOutside(kids, NodeOf(dirs[p]).seps, dirs, q, b, leaves, lo, hi);
  }

  lemma {:induction false} GoodAllOutside(ts: seq<Tree>, seps: seq<Rec>, dirs: seq<Block>, q: nat, b: Block,
                                          leaves: seq<Block>,
                                          lo: Option<Rec>, hi: Option<Rec>)
    requires GoodAll(ts, seps, dirs, leaves, lo, hi) && q < |dirs| && q !in DirsOfAll(ts)
    ensures GoodAll(ts, seps, dirs[q := b], leaves, lo, hi)
    decreases ts, 0
  {
    hide Good, Inside;
    if seps == [] {
      GoodOutside(ts[0], dirs, q, b, leaves, lo, hi);
    } else {
      GoodOutside(ts[0], dirs, q, b, leaves, lo, Some(seps[0]));
      GoodAllOutside(ts[1..], seps[1..], dirs, q, b, leaves, Some(seps[0]), hi);
    }
  }

  /** Page q is no directory of any child but child c. */
  predicate OnlyUnder(ts: seq<Tree>, c: nat, q: nat) {
    forall i :: 0 <= i < |ts| && i != c ==> q !in DirsOf(ts[i])
  }

  lemma {:induction false} NowhereInAll(ts: seq<Tree>, q: nat)
    requires forall i :: 0 <= i < |ts| ==> q !in DirsOf(ts[i])
    ensures q !in DirsOfAll(ts)
    decreases |ts|
  {
    hide DirsOf;
    if ts != [] {
      NowhereInAll(ts[1..], q);
    }
  }

  lemma {:induction false} GoodAllButOutside(ts: seq<Tree>, seps: seq<Rec>, c: nat, dirs: seq<Block>, q: nat, b: Block,
                                             leaves: seq<Block>, lo: Option<Rec>, hi: Option<Rec>)
    requires GoodAllBut(ts, seps, c, dirs, leaves, lo, hi) && q < |dirs| && OnlyUnder(ts, c, q)
    ensures GoodAllBut(ts, seps, c, dirs[q := b], leaves, lo, hi)
    decreases |ts|
  {
    hide Good, Inside, DirsOf;
    if seps != [] {
      if c == 0 {
        forall i | 0 <= i < |ts[1..]| ensures q !in DirsOf(ts[1..][i]) {
          assert ts[1..][i] == ts[i + 1];
        }
        NowhereInAll(ts[1..], q);
        GoodAllOutside(ts[1..], seps[1..], dirs, q, b, leaves, Some(seps[0]), hi);
      } else {
        GoodOutside(ts[0], dirs, q, b, leaves, lo, Some(seps[0]));
        forall i | 0 <= i < |ts[1..]| && i != c - 1 ensures q !in DirsOf(ts[1..][i]) {
          assert ts[1..][i] == ts[i + 1];
        }
        GoodAllButOutside(ts[1..], seps[1..], c - 1, dirs, q, b, leaves, Some(seps[0]), hi);
      }
    }
  }

  /** A good child in the place of the one nothing was asked of. */
  lemma {:induction false} ReplaceGood(ts: seq<Tree>, seps: seq<Rec>, c: nat, x: Tree, dirs: seq<Block>,
                                       leaves: seq<Block>,
                                       lo: Option<Rec>, hi: Option<Rec>)
    requires GoodAllBut(ts, seps, c, dirs, leaves, lo, hi) && (x.Dir? ==> x.page > 0)
    requires Good(x, dirs, leaves, LowOf(seps, c, lo), HighOf(seps, c, hi))
    ensures GoodAll(ts[c := x], seps, dirs, leaves, lo, hi)
    decreases |ts|
  {
    hide Good, Inside;
    var us := ts[c := x];
    if c == 0 {
      assert us[1..] == ts[1..];
    } else {
      ReplaceGood(ts[1..], seps[1..], c - 1, x, dirs, leaves, Some(seps[0]), hi);
      assert us[1..] == ts[1..][c - 1 := x] && us[0] == ts[0];
    }
  }

  lemma PointersReplaced(ts: seq<Tree>, c: nat, x: Tree)
    requires c < |ts| && Pointer(x) == Pointer(ts[c])
    ensures Pointers(ts[c := x]) == Pointers(ts)
  {
  }

  // ---------- directory pages that differ ----------

  /** Of the children, only child c has page q. */
  lemma {:induction false} DistinctKids(ts: seq<Tree>, c: nat, q: nat)
    requires Distinct(DirsOfAll(ts)) && c < |ts| && q in DirsOf(ts[c])
    ensures Distinct(DirsOf(ts[c])) && OnlyUnder(ts, c, q) && q in DirsOfAll(ts)
    decreases |ts|
  {
    hide DirsOf, Distinct;
    var a, b := DirsOf(ts[0]), DirsOfAll(ts[1..]);
    DistinctParts(a, b);
    if c == 0 {
      NoShare(a, b, q);
      forall i | 1 <= i < |ts| ensures q !in DirsOf(ts[i]) {
        assert ts[i] == ts[1..][i - 1];
        if q in DirsOf(ts[i]) {
          InAll(ts[1..], i - 1, q);
        }
      }
    } else {
      DistinctKids(ts[1..], c - 1, q);
      forall i | 0 <= i < |ts| && i != c ensures q !in DirsOf(ts[i]) {
        assert i > 0 ==> ts[i] == ts[1..][i - 1];
      }
    }
  }

  lemma NoShare(a: seq<nat>, b: seq<nat>, q: nat)
    requires Distinct(a + b) && q in a
    ensures q !in b
  {
    DistinctParts(a, b);
  }

  lemma {:induction false} InAll(ts: seq<Tree>, i: nat, q: nat)
    requires i < |ts| && q in DirsOf(ts[i])
    ensures q in DirsOfAll(ts)
    decreases |ts|
  {
    hide DirsOf;
    if i > 0 {
      InAll(ts[1..], i - 1, q);
    }
  }

  /** The root of a tree whose directory pages differ is none of the directories below. */
  lemma RootApart(p: nat, ts: seq<Tree>)
    requires Distinct(DirsOf(Dir(p, ts)))
    ensures Distinct(DirsOfAll(ts)) && p !in DirsOfAll(ts)
  {
    DistinctParts([p], DirsOfAll(ts));
    assert [p][0] == p;
  }

  lemma {:induction false} DirAtInside(t: Tree, path: seq<nat>, l: Tree, r: Tree)
    requires OnPath(t, path)
    ensures DirAt(t, path).page in DirsOf(SplitAt(t, path, l, r))
    decreases path
  {
    hide DirsOfAll;
    if |path| == 1 {
      assert DirsOf(SplitAt(t, path, l, r))[0] == t.page;
    } else {
      var c := path[0];
      DirAtInside(t.kids[c], path[1..], l, r);
      var kids := t.kids[c := SplitAt(t.kids[c], path[1..], l, r)];
      InAll(kids, c, DirAt(t, path).page);
    }
  }

  // ---------- the directory absorbs the split ----------

  /** The directory over the split child, and that its page is a directory in order. */
  lemma {:induction false} DirAtFacts(t: Tree, path: seq<nat>, l: Tree, r: Tree, split: Split, dirs: seq<Block>,
                                      leaves: seq<Block>,
                                      lo: Option<Rec>, hi: Option<Rec>)
    requires OnPath(t, path) && GoodButAt(t, path, l, r, split, dirs, leaves, lo, hi)
    ensures var u := DirAt(t, path);
            && u.page < |dirs| && u.page < MAX_PAGES && DirOk(dirs[u.page]) && NodeOk(NodeOf(dirs[u.page]))
            && ChildCount(dirs[u.page]) == |u.kids|
    decreases path
  {
    hide GoodAllBut, GoodSplit, Routing.Sorted, DirOk;
    var n := NodeOf(dirs[t.page]);
    if |path| == 1 {
      GoodAllButSorted(t.kids, n.seps, path[0], dirs, leaves, lo, hi);
    } else {
      LowHigh(t.kids, n.seps, path[0], dirs, leaves, lo, hi);
      DirAtFacts(t.kids[path[0]], path[1..], l, r, split, dirs, leaves, LowOf(n.seps, path[0], lo), HighOf(n.seps,
                 path[0], hi));
    }
  }

  lemma LowHigh(ts: seq<Tree>, seps: seq<Rec>, c: nat, dirs: seq<Block>, leaves: seq<Block>, lo: Option<Rec>,
                hi: Option<Rec>)
    requires GoodAllBut(ts, seps, c, dirs, leaves, lo, hi)
    ensures c <= |seps| && |ts| == |seps| + 1
  {
  }

  /** Whatever the depth of the directory: once the split is on its page, and if no page serves as two
      directories of the tree, the whole tree is good with the two halves in the place of the child. */
  lemma {:induction false} AbsorbAt(t: Tree, path: seq<nat>, l: Tree, r: Tree, split: Split, dirs: seq<Block>,
                                    leaves: seq<Block>,
                                    lo: Option<Rec>, hi: Option<Rec>, b: Block)
    requires OnPath(t, path) && GoodButAt(t, path, l, r, split, dirs, leaves, lo, hi)
    requires Distinct(DirsOf(SplitAt(t, path, l, r)))
    requires var q := DirAt(t, path).page;
             && q < |dirs| && DirOk(dirs[q]) && DirOk(b)
             && var n := NodeOf(dirs[q]); NodeOf(b) == Absorb(n, Rank(n.seps, split.record), split.record, split.page)
    ensures Good(SplitAt(t, path, l, r), dirs[DirAt(t, path).page := b], leaves, lo, hi)
    decreases path
  {
    hide Good, GoodAll, GoodAllBut, GoodSplit, DirOk, NodeOf, Absorb, Rank, RecLess, Distinct, DirsOf, DirsOfAll;
    var c, q := path[0], DirAt(t, path).page;
    var n, dirs' := NodeOf(dirs[t.page]), dirs[q := b];
    LowHigh(t.kids, n.seps, c, dirs, leaves, lo, hi);
    if |path| == 1 {
      AbsorbHere(t, c, l, r, split, dirs, leaves, lo, hi, b);
    } else {
      var x := SplitAt(t.kids[c], path[1..], l, r);
      RootApart(t.page, t.kids[c := x]);
      DirAtInside(t.kids[c], path[1..], l, r);
      DistinctKids(t.kids[c := x], c, q);
      AbsorbAt(t.kids[c], path[1..], l, r, split, dirs, leaves, LowOf(n.seps, c, lo), HighOf(n.seps, c, hi), b);
      OnlyUnderSame(t.kids, c, x, q);
      GoodAllButOutside(t.kids, n.seps, c, dirs, q, b, leaves, lo, hi);
      ReplaceGood(t.kids, n.seps, c, x, dirs', leaves, lo, hi);
      PointersReplaced(t.kids, c, x);
      GoodDir(Dir(t.page, t.kids[c := x]), dirs', leaves, lo, hi);
    }
  }

  lemma OnlyUnderSame(ts: seq<Tree>, c: nat, x: Tree, q: nat)
    requires c < |ts| && OnlyUnder(ts[c := x], c, q)
    ensures OnlyUnder(ts, c, q)
  {
    forall i | 0 <= i < |ts| && i != c ensures q !in DirsOf(ts[i]) {
      assert ts[c := x][i] == ts[i];
    }
  }

  lemma AbsorbHere(t: Tree, c: nat, l: Tree, r: Tree, split: Split, dirs: seq<Block>, leaves: seq<Block>,
                   lo: Option<Rec>, hi: Option<Rec>, b: Block)
    requires OnPath(t, [c]) && GoodButAt(t, [c], l, r, split, dirs, leaves, lo, hi)
    requires Distinct(DirsOf(Dir(t.page, SplitKids(t.kids, c, l, r)))) && DirOk(b)
    requires var n := NodeOf(dirs[t.page]); NodeOf(b) == Absorb(n, Rank(n.seps, split.record), split.record, split.page)
    ensures Good(Dir(t.page, SplitKids(t.kids, c, l, r)), dirs[t.page := b], leaves, lo, hi)
  {
    hide Good, GoodAll, GoodAllBut, DirOk, NodeOf, Absorb, Rank, RecLess, Distinct, DirsOf, DirsOfAll;
    var q, n, kids := t.page, NodeOf(dirs[t.page]), SplitKids(t.kids, c, l, r);
    LowHigh(t.kids, n.seps, c, dirs, leaves, lo, hi);
    RootApart(q, kids);
    NotInSplit(t.kids, c, l, r, q);
    GoodAllButOutside(t.kids, n.seps, c, dirs, q, b, leaves, lo, hi);
    var low, high := LowOf(n.seps, c, lo), HighOf(n.seps, c, hi);
    GoodOutside(l, dirs, q, b, leaves, low, Some(split.record));
    GoodOutside(r, dirs, q, b, leaves, Some(split.record), high);
    AbsorbedDir(q, n, t.kids, c, l, r, split, dirs[q := b], leaves, lo, hi);
  }

  lemma NotInSplit(ts: seq<Tree>, c: nat, l: Tree, r: Tree, q: nat)
    requires c < |ts| && q !in DirsOfAll(SplitKids(ts, c, l, r))
    ensures OnlyUnder(ts, c, q) && q !in DirsOf(l) && q !in DirsOf(r)
  {
    hide DirsOf, DirsOfAll;
    var us := SplitKids(ts, c, l, r);
    assert us[c] == l && us[c + 1] == r;
    forall i | 0 <= i < |us| ensures q !in DirsOf(us[i]) {
      if q in DirsOf(us[i]) {
        InAll(us, i, q);
      }
    }
    forall i | 0 <= i < |ts| && i != c ensures q !in DirsOf(ts[i]) {
      assert ts[i] == us[if i < c then i else i + 1];
    }
  }

  /** The leaves left and right of the child that split. */
  function LeavesBefore(t: Tree, path: seq<nat>): seq<nat>
    requires OnPath(t, path)
    decreases path
  {
    LeavesOfAll(t.kids[..path[0]]) + if |path| == 1 then [] else LeavesBefore(t.kids[path[0]], path[1..])
  }

  function LeavesAfter(t: Tree, path: seq<nat>): seq<nat>
    requires OnPath(t, path)
    decreases path
  {
    (if |path| == 1 then [] else LeavesAfter(t.kids[path[0]], path[1..])) + LeavesOfAll(t.kids[path[0] + 1..])
  }

  /** The leaves of the tree are as before, with those of the halves in the place of those of the child. */
  lemma {:induction false} SplitAtLeaves(t: Tree, path: seq<nat>, l: Tree, r: Tree)
    requires OnPath(t, path)
    ensures LeavesOf(t) == LeavesBefore(t, path) + LeavesOf(ChildAt(t, path)) + LeavesAfter(t, path)
    ensures LeavesOf(SplitAt(t, path, l, r)) ==
              LeavesBefore(t, path) + (LeavesOf(l) + LeavesOf(r)) + LeavesAfter(t, path)
    decreases path
  {
    hide LeavesOfAll;
    var c := path[0];
    LeavesOfAllAt(t.kids, c);
    if |path| == 1 {
      SplitLeaves(t.kids, c, l, r);
      NoLeavesMore(LeavesOfAll(t.kids[..c]));
      NoLeavesMore(LeavesOfAll(t.kids[c + 1..]));
    } else {
      var u, rest := t.kids[c], path[1..];
      SplitAtLeaves(u, rest, l, r);
      var x := SplitAt(u, rest, l, r);
      var kids := t.kids[c := x];
      LeavesOfAllAt(kids, c);
      assert kids[..c] == t.kids[..c] && kids[c + 1..] == t.kids[c + 1..];
      var a, b := LeavesOfAll(t.kids[..c]), LeavesOfAll(t.kids[c + 1..]);
      Five(a, LeavesBefore(u, rest), LeavesOf(ChildAt(u, rest)), LeavesAfter(u, rest), b);
      Five(a, LeavesBefore(u, rest), LeavesOf(l) + LeavesOf(r), LeavesAfter(u, rest), b);
    }
  }

  lemma NoLeavesMore<T>(s: seq<T>)
    ensures s + [] == s && [] + s == s
  {
  }

  lemma Five<T>(a: seq<T>, b: seq<T>, c: seq<T>, d: seq<T>, e: seq<T>)
    ensures a + (b + c + d) + e == (a + b) + c + (d + e)
  {
  }

  /** Case 1 of insert_record in a directory the caller holds, at any depth of the tree. */
  method AbsorbBelow(pool: BufferManager, d: FileId, leafFile: FileId, dir: BPlusTreeDir, ghost k: nat, split: Split,
                     ghost t: Tree, ghost path: seq<nat>, ghost l: Tree, ghost r: Tree)
    requires OnPath(t, path) && pool.Holds(dir.page, k, PageId(d, DirAt(t, path).page))
    requires d in pool.View() && leafFile in pool.View() && d != leafFile && |DirAt(t, path).kids| < MAX_CHILDREN
    requires GoodButAt(t, path, l, r, split, pool.View()[d], pool.View()[leafFile], None, None)
    requires Distinct(DirsOf(SplitAt(t, path, l, r)))
    modifies dir.page`dirty, dir.page.bytes
    ensures pool.Holds(dir.page, k, PageId(d, DirAt(t, path).page)) && Balanced(old(pool.Abs()), pool.Abs())
    ensures OnlyChanged(old(pool.View()), pool.View(), {d}) && d in pool.View() && leafFile in pool.View()
    ensures Good(SplitAt(t, path, l, r), pool.View()[d], pool.View()[leafFile], None, None)
    ensures LeavesOf(SplitAt(t, path, l, r)) ==
              LeavesBefore(t, path) + (LeavesOf(l) + LeavesOf(r)) + LeavesAfter(t, path)
  {
    hide Inv, Unpinned, PoolModel.View, Balanced, Rank, RecLess, Seps, Kids, Absorb, DirOk, Good, GoodButAt, Distinct;
    hide NodeOk, NodeOf, LeavesOf, LeavesBefore, LeavesAfter, DirsOf, SplitAt, OnPath;
    hide BufferManager.Abs, BufferManager.View;
    ghost var v, q := pool.View(), DirAt(t, path).page;
    DirAtFacts(t, path, l, r, split, v[d], v[leafFile], None, None);
    pool.HeldData(dir.page, k, PageId(d, q));
    AbsorbHeld(pool, dir, k, PageId(d, q), split);
    ghost var b := dir.page.Data();
    AbsorbAt(t, path, l, r, split, v[d], v[leafFile], None, None, b);
    StoreOne(v, d, q, b);
    SplitAtLeaves(t, path, l, r);
  }

  lemma StoreOne(v: Files, d: FileId, q: nat, b: Block)
    requires d in v && q < |v[d]|
    ensures var w := Store(v, PageId(d, q), b); w[d] == v[d][q := b] && OnlyChanged(v, w, {d})
  {
  }

  // ---------- the pages stay apart ----------

  lemma DistinctConcat(a: seq<nat>, b: seq<nat>)
    requires Distinct(a) && Distinct(b) && forall i, j :: 0 <= i < |a| && 0 <= j < |b| ==> a[i] != b[j]
    ensures Distinct(a + b)
  {
  }

  lemma {:induction false} DirsOfAllConcat(a: seq<Tree>, b: seq<Tree>)
    ensures DirsOfAll(a + b) == DirsOfAll(a) + DirsOfAll(b)
    decreases a
  {
    hide DirsOf;
    if a == [] {
      assert a + b == b;
    } else {
      DirsOfAllConcat(a[1..], b);
      assert (a + b)[1..] == a[1..] + b;
      Associative(DirsOf(a[0]), DirsOfAll(a[1..]), DirsOfAll(b));
    }
  }

  /** A root split keeps the pages of the directories apart, and the two new ones are among them. */
  lemma SplitTreeDistinct(ts: seq<Tree>, p: nat)
    requires |ts| > 103 && Distinct(DirsOf(Dir(0, ts))) && forall i :: 0 <= i < |DirsOfAll(ts)| ==> DirsOfAll(ts)[i] < p
    requires p > 0
    ensures Distinct(DirsOf(SplitTree(ts, p)))
  {
    hide DirsOfAll;
    var a, b := DirsOfAll(ts[..103]), DirsOfAll(ts[103..]);
    assert ts == ts[..103] + ts[103..];
    DirsOfAllConcat(ts[..103], ts[103..]);
    RootApart(0, ts);
    PartsBelow(a, b, p);
    DirsOfTwo(Dir(p, ts[..103]), Dir(p + 1, ts[103..]));
    NewPages(a, b, p);
  }

  lemma {:induction false} GoodDirsInside(t: Tree, dirs: seq<Block>, leaves: seq<Block>, lo: Option<Rec>,
                                          hi: Option<Rec>)
    requires Good(t, dirs, leaves, lo, hi)
    ensures forall q :: q in DirsOf(t) ==> q < |dirs|
    decreases t, 1
  {
    hide AllIn, LeafAt, LeafRecs, LeafOk, DirOk;
    match t
    case Leaf(p) =>
    case Dir(p, kids) =>
      GoodAllDirsInside(kids, NodeOf(dirs[p]).seps, dirs, leaves, lo, hi);
  }

  lemma {:induction false} GoodAllDirsInside(ts: seq<Tree>, seps: seq<Rec>, dirs: seq<Block>, leaves: seq<Block>,
                                             lo: Option<Rec>, hi: Option<Rec>)
    requires GoodAll(ts, seps, dirs, leaves, lo, hi)
    ensures forall q :: q in DirsOfAll(ts) ==> q < |dirs|
    decreases ts, 0
  {
    hide Good, Inside;
    if seps == [] {
      GoodDirsInside(ts[0], dirs, leaves, lo, hi);
      assert ts[1..] == [];
    } else {
      GoodDirsInside(ts[0], dirs, leaves, lo, Some(seps[0]));
      GoodAllDirsInside(ts[1..], seps[1..], dirs, leaves, Some(seps[0]), hi);
    }
  }

  /** So the root split of a good tree, whose new pages are those after the last, keeps them apart. */
  lemma RootSplitDistinct(ts: seq<Tree>, seps: seq<Rec>, dirs: seq<Block>, leaves: seq<Block>)
    requires GoodAll(ts, seps, dirs, leaves, None, None) && |ts| > 103 && |dirs| > 0
    requires Distinct(DirsOf(Dir(0, ts)))
    ensures Distinct(DirsOf(SplitTree(ts, |dirs|)))
  {
    hide GoodAll, DirsOf, DirsOfAll, Distinct;
    GoodAllDirsInside(ts, seps, dirs, leaves, None, None);
    forall i | 0 <= i < |DirsOfAll(ts)| ensures DirsOfAll(ts)[i] < |dirs| {
      assert DirsOfAll(ts)[i] in DirsOfAll(ts);
    }
    SplitTreeDistinct(ts, |dirs|);
  }

  lemma PartsBelow(a: seq<nat>, b: seq<nat>, p: nat)
    requires Distinct(a + b) && 0 !in a + b && forall i :: 0 <= i < |a + b| ==> (a + b)[i] < p
    ensures Distinct(a) && Distinct(b) && (forall i, j :: 0 <= i < |a| && 0 <= j < |b| ==> a[i] != b[j])
    ensures forall i :: 0 <= i < |a| ==> 0 < a[i] < p
    ensures forall i :: 0 <= i < |b| ==> 0 < b[i] < p
  {
    DistinctParts(a, b);
    forall i | 0 <= i < |a| ensures 0 < a[i] < p {
      assert (a + b)[i] == a[i];
    }
    forall i | 0 <= i < |b| ensures 0 < b[i] < p {
      assert (a + b)[|a| + i] == b[i];
    }
  }

  lemma DirsOfTwo(a: Tree, b: Tree)
    ensures DirsOfAll([a, b]) == DirsOf(a) + DirsOf(b)
  {
    hide DirsOf;
    assert [a, b][1..] == [b] && [b][1..] == [];
    assert DirsOfAll([b]) == DirsOf(b) + DirsOfAll([b][1..]) == DirsOf(b);
    assert DirsOfAll([a, b]) == DirsOf(a) + DirsOfAll([a, b][1..]);
  }

  lemma NewPages(a: seq<nat>, b: seq<nat>, p: nat)
    requires p > 0 && Distinct(a) && Distinct(b) && (forall i, j :: 0 <= i < |a| && 0 <= j < |b| ==> a[i] != b[j])
    requires (forall i :: 0 <= i < |a| ==> 0 < a[i] < p) && forall i :: 0 <= i < |b| ==> 0 < b[i] < p
    ensures Distinct([0] + (([p] + a) + ([p + 1] + b)))
  {
    DistinctConcat([p], a);
    DistinctConcat([p + 1], b);
    DistinctConcat([p] + a, [p + 1] + b);
    DistinctConcat([0], ([p] + a) + ([p + 1] + b));
  }
}
