/** A B+ tree as a value laid over the pages of its two files: which pages form the tree, which records its
    leaves hold from left to right, and which leaf a record belongs to. */
module BPlusTreeModel {
  import opened Bytes
  import opened Values
  import opened Pages
  import opened BPlusTreeNodes
  import opened Routing

  /** The pages of a tree: a leaf of the leaf file, or a directory of the directory file over its children. */
  datatype Tree = Leaf(page: nat) | Dir(page: nat, kids: seq<Tree>)

  /** How a directory points at a child: negative numbers are directories, the others leaves. */
  function Pointer(t: Tree): int {
    var p: int := t.page;
    if t.Leaf? then p else -p
  }

  function Pointers(ts: seq<Tree>): (s: seq<int>)
    ensures |s| == |ts| && forall i :: 0 <= i < |s| ==> s[i] == Pointer(ts[i])
  {
    seq(|ts|, i requires 0 <= i < |ts| => Pointer(ts[i]))
  }

  /** A leaf page; pages past the end of the file read as zeros. */
  function LeafAt(leaves: seq<Block>, p: nat): Block {
    if p < |leaves| then leaves[p] else ZeroBlock()
  }

  /** lo <= e < hi, where a missing bound is no bound. */
  predicate InRange(e: Rec, lo: Option<Rec>, hi: Option<Rec>) {
    (lo.Some? ==> !RecLess(e, lo.value)) && (hi.Some? ==> RecLess(e, hi.value))
  }

  /** lo < e < hi. */
  predicate Inside(e: Rec, lo: Option<Rec>, hi: Option<Rec>) {
    (lo.Some? ==> RecLess(lo.value, e)) && (hi.Some? ==> RecLess(e, hi.value))
  }

  lemma InsideInRange(e: Rec, lo: Option<Rec>, hi: Option<Rec>)
    requires Inside(e, lo, hi)
    ensures InRange(e, lo, hi)
  {
    if lo.Some? {
      RecOrder(lo.value, e, lo.value);
    }
  }

  predicate AllIn(es: seq<Rec>, lo: Option<Rec>, hi: Option<Rec>) {
    forall i :: 0 <= i < |es| ==> InRange(es[i], lo, hi)
  }

  /** The pages under t form a search tree for the records in range: every directory's separators part the
      ranges of its children. Only the root may be page 0. */
  ghost predicate Good(t: Tree, dirs: seq<Block>, leaves: seq<Block>, lo: Option<Rec>, hi: Option<Rec>)
    decreases t, 1
  {
    match t
    case Leaf(p) => p < MAX_PAGES && LeafOk(LeafAt(leaves, p)) && AllIn(LeafRecs(LeafAt(leaves, p)), lo, hi)
    case Dir(p, kids) =>
      && p < |dirs| && p < MAX_PAGES && DirOk(dirs[p])
      && NodeOf(dirs[p]).kids == Pointers(kids)
      && GoodAll(kids, NodeOf(dirs[p]).seps, dirs, leaves, lo, hi)
  }

  ghost predicate GoodAll(ts: seq<Tree>, seps: seq<Rec>, dirs: seq<Block>, leaves: seq<Block>, lo: Option<Rec>,
                          hi: Option<Rec>)
    decreases ts, 0
  {
    && |ts| == |seps| + 1
    && (ts[0].Dir? ==> ts[0].page > 0)
    && if seps == [] then Good(ts[0], dirs, leaves, lo, hi)
       else
         && Inside(seps[0], lo, hi)
         && Good(ts[0], dirs, leaves, lo, Some(seps[0]))
         && GoodAll(ts[1..], seps[1..], dirs, leaves, Some(seps[0]), hi)
  }

  /** The leaf pages from left to right. */
  function LeavesOf(t: Tree): seq<nat>
    decreases t, 1
  {
    match t
    case Leaf(p) => [p]
    case Dir(_, kids) => LeavesOfAll(kids)
  }

  function LeavesOfAll(ts: seq<Tree>): seq<nat>
    decreases ts, 0
  {
    if ts == [] then [] else LeavesOf(ts[0]) + LeavesOfAll(ts[1..])
  }

  /** The records of the given leaf pages, in order. */
  function Entries(ps: seq<nat>, leaves: seq<Block>): seq<Rec> {
    if ps == [] then [] else LeafRecs(LeafAt(leaves, ps[0])) + Entries(ps[1..], leaves)
  }

  lemma {:induction false} EntriesConcat(a: seq<nat>, b: seq<nat>, leaves: seq<Block>)
    ensures Entries(a + b, leaves) == Entries(a, leaves) + Entries(b, leaves)
    decreases |a|
  {
    hide LeafRecs;
    if a == [] {
      assert a + b == b;
    } else {
      EntriesConcat(a[1..], b, leaves);
      assert (a + b)[1..] == a[1..] + b;
      Associative(LeafRecs(LeafAt(leaves, a[0])), Entries(a[1..], leaves), Entries(b, leaves));
    }
  }

  // ---------- the ranges of subtrees ----------

  lemma AllInWiden(es: seq<Rec>, lo: Option<Rec>, hi: Option<Rec>, lo': Option<Rec>, hi': Option<Rec>)
    requires AllIn(es, lo, hi)
    requires lo'.Some? ==> lo.Some? && (lo == lo' || !RecLess(lo.value, lo'.value))
    requires hi'.Some? ==> hi.Some? && (hi == hi' || RecLess(hi.value, hi'.value))
    ensures AllIn(es, lo', hi')
  {
    forall i | 0 <= i < |es| ensures InRange(es[i], lo', hi') {
      if lo'.Some? {
        RecOrder(es[i], lo'.value, lo.value);
        RecOrder(lo.value, lo'.value, es[i]);
        RecOrder(es[i], lo.value, lo'.value);
      }
      if hi'.Some? { RecOrder(es[i], hi.value, hi'.value); }
    }
  }

  lemma AllInConcat(a: seq<Rec>, b: seq<Rec>, lo: Option<Rec>, hi: Option<Rec>)
    requires AllIn(a, lo, hi) && AllIn(b, lo, hi)
    ensures AllIn(a + b, lo, hi)
  {
  }

  /** Every record under a subtree is in the subtree's range. */
  lemma {:induction false} GoodInRange(t: Tree, dirs: seq<Block>, leaves: seq<Block>, lo: Option<Rec>, hi: Option<Rec>)
    requires Good(t, dirs, leaves, lo, hi)
    ensures LeavesOf(t) != [] && AllIn(Entries(LeavesOf(t), leaves), lo, hi)
    decreases t, 1
  {
    hide AllIn, LeafRecs, LeafOk, DirOk;
    match t
    case Leaf(p) =>
      EntriesOne(p, leaves);
    case Dir(p, kids) =>
      GoodAllInRange(kids, NodeOf(dirs[p]).seps, dirs, leaves, lo, hi);
  }

  lemma EntriesOne(p: nat, leaves: seq<Block>)
    ensures Entries([p], leaves) == LeafRecs(LeafAt(leaves, p))
  {
    assert Entries([p][1..], leaves) == [];
  }

  lemma {:induction false} GoodAllInRange(ts: seq<Tree>, seps: seq<Rec>, dirs: seq<Block>, leaves: seq<Block>,
                                          lo: Option<Rec>, hi: Option<Rec>)
    requires GoodAll(ts, seps, dirs, leaves, lo, hi)
    ensures LeavesOfAll(ts) != [] && AllIn(Entries(LeavesOfAll(ts), leaves), lo, hi)
    decreases ts, 0
  {
    hide AllIn, Good, Entries, RecLess;
    if seps == [] {
      GoodInRange(ts[0], dirs, leaves, lo, hi);
      assert LeavesOfAll(ts) == LeavesOf(ts[0]);
    } else {
      var m := Some(seps[0]);
      GoodInRange(ts[0], dirs, leaves, lo, m);
      GoodAllInRange(ts[1..], seps[1..], dirs, leaves, m, hi);
      var a, b := LeavesOf(ts[0]), LeavesOfAll(ts[1..]);
      EntriesConcat(a, b, leaves);
      InsideInRange(seps[0], lo, hi);
      AllInWiden(Entries(a, leaves), lo, m, lo, hi);
      AllInWiden(Entries(b, leaves), m, hi, lo, hi);
      AllInConcat(Entries(a, leaves), Entries(b, leaves), lo, hi);
    }
  }

  lemma IncreasingConcat(a: seq<Rec>, b: seq<Rec>, m: Rec)
    requires Increasing(a) && Increasing(b) && AllIn(a, None, Some(m)) && AllIn(b, Some(m), None)
    ensures Increasing(a + b)
  {
    forall i, j | 0 <= i < |a| && 0 <= j < |b| ensures RecLess(a[i], b[j]) {
      RecOrder(a[i], m, b[j]);
      assert InRange(a[i], None, Some(m)) && InRange(b[j], Some(m), None);
    }
  }

  /** The leaves hold their records in increasing order from left to right. */
  lemma {:induction false} GoodIncreasing(t: Tree, dirs: seq<Block>, leaves: seq<Block>, lo: Option<Rec>,
                                          hi: Option<Rec>)
    requires Good(t, dirs, leaves, lo, hi)
    ensures Increasing(Entries(LeavesOf(t), leaves))
    decreases t, 1
  {
    hide AllIn, LeafRecs, DirOk, Increasing;
    match t
    case Leaf(p) =>
      EntriesOne(p, leaves);
    case Dir(p, kids) =>
      GoodAllIncreasing(kids, NodeOf(dirs[p]).seps, dirs, leaves, lo, hi);
  }

  lemma {:induction false} GoodAllIncreasing(ts: seq<Tree>, seps: seq<Rec>, dirs: seq<Block>, leaves: seq<Block>,
                                             lo: Option<Rec>, hi: Option<Rec>)
    requires GoodAll(ts, seps, dirs, leaves, lo, hi)
    ensures Increasing(Entries(LeavesOfAll(ts), leaves))
    decreases ts, 0
  {
    hide AllIn, Good, Entries, RecLess, Increasing;
    if seps == [] {
      GoodIncreasing(ts[0], dirs, leaves, lo, hi);
      assert LeavesOfAll(ts) == LeavesOf(ts[0]);
    } else {
      var m := Some(seps[0]);
      GoodIncreasing(ts[0], dirs, leaves, lo, m);
      GoodAllIncreasing(ts[1..], seps[1..], dirs, leaves, m, hi);
      GoodInRange(ts[0], dirs, leaves, lo, m);
      GoodAllInRange(ts[1..], seps[1..], dirs, leaves, m, hi);
      var a, b := LeavesOf(ts[0]), LeavesOfAll(ts[1..]);
      EntriesConcat(a, b, leaves);
      InsideInRange(seps[0], lo, hi);
      AllInWiden(Entries(a, leaves), lo, m, None, m);
      AllInWiden(Entries(b, leaves), m, hi, m, None);
      IncreasingConcat(Entries(a, leaves), Entries(b, leaves), seps[0]);
    }
  }

  /** Separators of a good directory are sorted. */
  lemma {:induction false} GoodSorted(ts: seq<Tree>, seps: seq<Rec>, dirs: seq<Block>, leaves: seq<Block>,
                                      lo: Option<Rec>, hi: Option<Rec>)
    requires GoodAll(ts, seps, dirs, leaves, lo, hi)
    ensures Sorted(seps) && AllIn(seps, lo, hi)
    decreases ts
  {
    hide Good, RecLess;
    if seps != [] {
      GoodSorted(ts[1..], seps[1..], dirs, leaves, Some(seps[0]), hi);
      ConsSorted(seps, lo, hi);
    }
  }

  // ---------- searching ----------

  /** Position, among the leaves of t, of the leaf a record is routed to. */
  ghost function FindIdx(t: Tree, dirs: seq<Block>, r: Rec): nat
    decreases t, 1
  {
    match t
    case Leaf(_) => 0
    case Dir(p, kids) =>
      if p < |dirs| && DirOk(dirs[p]) && |kids| == |NodeOf(dirs[p]).kids| then
        FindIdxAll(kids, NodeOf(dirs[p]).seps, dirs, r)
      else 0
  }

  ghost function FindIdxAll(ts: seq<Tree>, seps: seq<Rec>, dirs: seq<Block>, r: Rec): nat
    requires |ts| == |seps| + 1
    decreases ts, 0
  {
    if seps == [] || RecLess(r, seps[0]) then FindIdx(ts[0], dirs, r)
    else |LeavesOf(ts[0])| + FindIdxAll(ts[1..], seps[1..], dirs, r)
  }

  predicate AllGreater(es: seq<Rec>, r: Rec) {
    forall i :: 0 <= i < |es| ==> RecLess(r, es[i])
  }

  /** Leaf k of ps is where r belongs: all records to the left are less, all to the right are greater. */
  ghost predicate Brackets(ps: seq<nat>, leaves: seq<Block>, k: nat, r: Rec) {
    && k < |ps|
    && AllIn(Entries(ps[..k], leaves), None, Some(r))
    && AllGreater(Entries(ps[k + 1..], leaves), r)
  }

  lemma BracketsLeft(a: seq<nat>, b: seq<nat>, leaves: seq<Block>, k: nat, r: Rec)
    requires Brackets(a, leaves, k, r) && AllGreater(Entries(b, leaves), r)
    ensures Brackets(a + b, leaves, k, r)
  {
    hide LeafRecs, RecLess, AllIn, Entries;
    assert (a + b)[..k] == a[..k] && (a + b)[k + 1..] == a[k + 1..] + b;
    EntriesConcat(a[k + 1..], b, leaves);
  }

  lemma BracketsRight(a: seq<nat>, b: seq<nat>, leaves: seq<Block>, k: nat, r: Rec)
    requires Brackets(b, leaves, k, r) && AllIn(Entries(a, leaves), None, Some(r))
    ensures Brackets(a + b, leaves, |a| + k, r)
  {
    hide LeafRecs, RecLess, AllGreater, Entries;
    assert (a + b)[..|a| + k] == a + b[..k] && (a + b)[|a| + k + 1..] == b[k + 1..];
    EntriesConcat(a, b[..k], leaves);
  }

  /** Search lands on the one leaf a record can be in. */
  lemma {:induction false} FindBrackets(t: Tree, dirs: seq<Block>, leaves: seq<Block>, lo: Option<Rec>,
                                        hi: Option<Rec>, r: Rec)
    requires Good(t, dirs, leaves, lo, hi)
    ensures Brackets(LeavesOf(t), leaves, FindIdx(t, dirs, r), r)
    decreases t, 1
  {
    hide AllIn, LeafRecs, LeafOk;
    match t
    case Leaf(p) =>
      assert [p][..0] == [] && [p][1..] == [];
      AllInNothing(r);
    case Dir(p, kids) =>
      FindBracketsAll(kids, NodeOf(dirs[p]).seps, dirs, leaves, lo, hi, r);
  }

  lemma AllInNothing(r: Rec)
    ensures AllIn([], None, Some(r))
  {
  }

  lemma {:induction false} FindBracketsAll(ts: seq<Tree>, seps: seq<Rec>, dirs: seq<Block>, leaves: seq<Block>,
                                           lo: Option<Rec>, hi: Option<Rec>, r: Rec)
    requires GoodAll(ts, seps, dirs, leaves, lo, hi)
    ensures Brackets(LeavesOfAll(ts), leaves, FindIdxAll(ts, seps, dirs, r), r)
    decreases ts, 0
  {
    hide AllIn, Good, Entries, RecLess, Brackets;
    if seps == [] {
      FindBrackets(ts[0], dirs, leaves, lo, hi, r);
      assert LeavesOfAll(ts) == LeavesOf(ts[0]);
    } else {
      var m := Some(seps[0]);
      if RecLess(r, seps[0]) {
        FindBrackets(ts[0], dirs, leaves, lo, m, r);
        GoodAllInRange(ts[1..], seps[1..], dirs, leaves, m, hi);
        AllAbove(Entries(LeavesOfAll(ts[1..]), leaves), seps[0], hi, r);
        BracketsLeft(LeavesOf(ts[0]), LeavesOfAll(ts[1..]), leaves, FindIdx(ts[0], dirs, r), r);
      } else {
        FindBracketsAll(ts[1..], seps[1..], dirs, leaves, m, hi, r);
        GoodInRange(ts[0], dirs, leaves, lo, m);
        AllBelow(Entries(LeavesOf(ts[0]), leaves), lo, seps[0], r);
        BracketsRight(LeavesOf(ts[0]), LeavesOfAll(ts[1..]), leaves, FindIdxAll(ts[1..], seps[1..], dirs, r), r);
      }
    }
  }

  lemma AllAbove(es: seq<Rec>, m: Rec, hi: Option<Rec>, r: Rec)
    requires AllIn(es, Some(m), hi) && RecLess(r, m)
    ensures AllGreater(es, r)
  {
    forall i | 0 <= i < |es| ensures RecLess(r, es[i]) {
      assert InRange(es[i], Some(m), hi);
      RecOrder(r, m, es[i]);
    }
  }

  lemma AllBelow(es: seq<Rec>, lo: Option<Rec>, m: Rec, r: Rec)
    requires AllIn(es, lo, Some(m)) && !RecLess(r, m)
    ensures AllIn(es, None, Some(r))
  {
    forall i | 0 <= i < |es| ensures InRange(es[i], None, Some(r)) {
      assert InRange(es[i], lo, Some(m));
      RecOrder(es[i], m, r);
    }
  }

  /** The directory's own choice of a child is the one the search takes. */
  lemma {:induction false} FindIsRank(ts: seq<Tree>, seps: seq<Rec>, dirs: seq<Block>, leaves: seq<Block>,
                                      lo: Option<Rec>, hi: Option<Rec>, r: Rec)
    requires GoodAll(ts, seps, dirs, leaves, lo, hi)
    ensures var c := Rank(seps, r); FindIdxAll(ts, seps, dirs, r) == |LeavesOfAll(ts[..c])| + FindIdx(ts[c], dirs, r)
    decreases ts
  {
    hide Good, RecLess, AllIn;
    var c := Rank(seps, r);
    if seps == [] {
      assert ts[..0] == [];
    } else {
      GoodSorted(ts, seps, dirs, leaves, lo, hi);
      RankHalf(seps, r, 0);
      if RecLess(r, seps[0]) {
        assert ts[..0] == [];
      } else {
        FindIsRank(ts[1..], seps[1..], dirs, leaves, Some(seps[0]), hi, r);
        assert ts[..c][1..] == ts[1..][..c - 1] && ts[..c][0] == ts[0];
      }
    }
  }

  /** The children of a good directory are good themselves, each between its separators. */
  lemma {:induction false} GoodChild(ts: seq<Tree>, seps: seq<Rec>, dirs: seq<Block>, leaves: seq<Block>,
                                     lo: Option<Rec>, hi: Option<Rec>, c: nat)
    requires GoodAll(ts, seps, dirs, leaves, lo, hi) && c < |ts|
    ensures Good(ts[c], dirs, leaves,
                 if c == 0 then lo else Some(seps[c - 1]), if c == |seps| then hi else Some(seps[c]))
    ensures ts[c].Dir? ==> ts[c].page > 0
    decreases ts
  {
    hide Good, RecLess;
    if c > 0 {
      GoodChild(ts[1..], seps[1..], dirs, leaves, Some(seps[0]), hi, c - 1);
    }
  }

  lemma {:induction false} LeavesOfAllAt(ts: seq<Tree>, c: nat)
    requires c < |ts|
    ensures LeavesOfAll(ts) == LeavesOfAll(ts[..c]) + LeavesOf(ts[c]) + LeavesOfAll(ts[c + 1..])
    decreases ts
  {
    if c == 0 {
      assert ts[..0] == [];
    } else {
      LeavesOfAllAt(ts[1..], c - 1);
      assert ts[..c][1..] == ts[1..][..c - 1] && ts[..c][0] == ts[0] && ts[1..][c..] == ts[c + 1..];
      Associative(LeavesOf(ts[0]), LeavesOfAll(ts[..c][1..]) + LeavesOf(ts[c]), LeavesOfAll(ts[c + 1..]));
      Associative(LeavesOf(ts[0]), LeavesOfAll(ts[..c][1..]), LeavesOf(ts[c]));
    }
  }

  /** How many pages a search below t pins at once. */
  function Pins(t: Tree): nat
    decreases t, 1
  {
    match t
    case Leaf(_) => 0
    case Dir(_, kids) => 1 + PinsAll(kids)
  }

  function PinsAll(ts: seq<Tree>): nat
    decreases ts, 0
  {
    if ts == [] then 0 else if Pins(ts[0]) > PinsAll(ts[1..]) then Pins(ts[0]) else PinsAll(ts[1..])
  }

  lemma {:induction false} PinsOfChild(ts: seq<Tree>, c: nat)
    requires c < |ts|
    ensures Pins(ts[c]) <= PinsAll(ts)
    decreases ts
  {
    if c > 0 {
      PinsOfChild(ts[1..], c - 1);
    }
  }

  // ---------- pages that do not matter ----------

  lemma {:induction false} GoodLeavesSame(t: Tree, dirs: seq<Block>, leaves: seq<Block>, leaves': seq<Block>,
                                          lo: Option<Rec>, hi: Option<Rec>)
    requires Good(t, dirs, leaves, lo, hi) && forall p: nat :: LeafAt(leaves', p) == LeafAt(leaves, p)
    ensures Good(t, dirs, leaves', lo, hi)
    decreases t, 1
  {
    hide AllIn, LeafAt, LeafRecs, LeafOk, DirOk;
    match t
    case Leaf(p) =>
    case Dir(p, kids) => GoodAllLeavesSame(kids, NodeOf(dirs[p]).seps, dirs, leaves, leaves', lo, hi);
  }

  lemma {:induction false} GoodAllLeavesSame(ts: seq<Tree>, seps: seq<Rec>, dirs: seq<Block>, leaves: seq<Block>,
                                             leaves': seq<Block>, lo: Option<Rec>, hi: Option<Rec>)
    requires GoodAll(ts, seps, dirs, leaves, lo, hi) && forall p: nat :: LeafAt(leaves', p) == LeafAt(leaves, p)
    ensures GoodAll(ts, seps, dirs, leaves', lo, hi)
    decreases ts, 0
  {
    hide Good, LeafAt, Inside;
    if seps == [] {
      GoodLeavesSame(ts[0], dirs, leaves, leaves', lo, hi);
    } else {
      GoodLeavesSame(ts[0], dirs, leaves, leaves', lo, Some(seps[0]));
      GoodAllLeavesSame(ts[1..], seps[1..], dirs, leaves, leaves', Some(seps[0]), hi);
    }
  }

  /** A subtree does not notice changes to the root page, or pages added to the directory file. */
  lemma {:induction false} GoodFrame(t: Tree, dirs: seq<Block>, dirs': seq<Block>, leaves: seq<Block>,
                                     lo: Option<Rec>, hi: Option<Rec>)
    requires Good(t, dirs, leaves, lo, hi) && (t.Dir? ==> t.page > 0)
    requires |dirs'| >= |dirs| && forall p :: 0 < p < |dirs| ==> dirs'[p] == dirs[p]
    ensures Good(t, dirs', leaves, lo, hi)
    decreases t, 1
  {
    hide AllIn, LeafAt, LeafRecs, LeafOk, DirOk;
    match t
    case Leaf(p) =>
    case Dir(p, kids) => GoodAllFrame(kids, NodeOf(dirs[p]).seps, dirs, dirs', leaves, lo, hi);
  }

  lemma {:induction false} GoodAllFrame(ts: seq<Tree>, seps: seq<Rec>, dirs: seq<Block>, dirs': seq<Block>,
                                        leaves: seq<Block>, lo: Option<Rec>, hi: Option<Rec>)
    requires GoodAll(ts, seps, dirs, leaves, lo, hi)
    requires |dirs'| >= |dirs| && forall p :: 0 < p < |dirs| ==> dirs'[p] == dirs[p]
    ensures GoodAll(ts, seps, dirs', leaves, lo, hi)
    decreases ts, 0
  {
    hide Good, Inside;
    if seps == [] {
      GoodFrame(ts[0], dirs, dirs', leaves, lo, hi);
    } else {
      GoodFrame(ts[0], dirs, dirs', leaves, lo, Some(seps[0]));
      GoodAllFrame(ts[1..], seps[1..], dirs, dirs', leaves, Some(seps[0]), hi);
    }
  }

  // ---------- absorbing a split ----------

  function LowOf(seps: seq<Rec>, c: nat, lo: Option<Rec>): Option<Rec>
    requires c <= |seps|
  {
    if c == 0 then lo else Some(seps[c - 1])
  }

  function HighOf(seps: seq<Rec>, c: nat, hi: Option<Rec>): Option<Rec>
    requires c <= |seps|
  {
    if c == |seps| then hi else Some(seps[c])
  }

  /** GoodAll, but for child c, of which nothing is asked. */
  ghost predicate GoodAllBut(ts: seq<Tree>, seps: seq<Rec>, c: nat, dirs: seq<Block>, leaves: seq<Block>,
                             lo: Option<Rec>, hi: Option<Rec>)
    decreases ts
  {
    && |ts| == |seps| + 1 && c < |ts|
    && (c > 0 && ts[0].Dir? ==> ts[0].page > 0)
    && (seps != [] ==>
          && Inside(seps[0], lo, hi)
          && if c == 0 then GoodAll(ts[1..], seps[1..], dirs, leaves, Some(seps[0]), hi)
             else
               && Good(ts[0], dirs, leaves, lo, Some(seps[0]))
               && GoodAllBut(ts[1..], seps[1..], c - 1, dirs, leaves, Some(seps[0]), hi))
  }

  /** The children after child c became l and r. */
  function SplitKids(ts: seq<Tree>, c: nat, l: Tree, r: Tree): (s: seq<Tree>)
    requires c < |ts|
    ensures |s| == |ts| + 1
  {
    ts[..c] + [l, r] + ts[c + 1..]
  }

  /** The halves of the child that split are good, each on its side of the separator, which is in the child's range. */
  ghost predicate GoodSplit(l: Tree, r: Tree, sep: Rec, dirs: seq<Block>, leaves: seq<Block>, lo: Option<Rec>,
                            hi: Option<Rec>) {
    && Inside(sep, lo, hi)
    && Good(l, dirs, leaves, lo, Some(sep)) && (l.Dir? ==> l.page > 0)
    && Good(r, dirs, leaves, Some(sep), hi) && (r.Dir? ==> r.page > 0)
  }

  /** The converse of AbsorbGood: with the halves in the place of child c, the directory is good only if the split
      was good and the other children were. */
  lemma {:induction false} AbsorbNeedsGood(ts: seq<Tree>, seps: seq<Rec>, c: nat, l: Tree, r: Tree, sep: Rec,
                                           dirs: seq<Block>, leaves: seq<Block>, lo: Option<Rec>, hi: Option<Rec>)
    requires |ts| == |seps| + 1 && c < |ts|
    requires GoodAll(SplitKids(ts, c, l, r), InsertAt(seps, c, sep), dirs, leaves, lo, hi)
    ensures GoodAllBut(ts, seps, c, dirs, leaves, lo, hi)
    ensures GoodSplit(l, r, sep, dirs, leaves, LowOf(seps, c, lo), HighOf(seps, c, hi))
    decreases ts
  {
    hide Good, Inside, RecLess;
    var ts', seps' := SplitKids(ts, c, l, r), InsertAt(seps, c, sep);
    if c == 0 {
      assert ts'[0] == l && ts'[1..] == [r] + ts[1..] && seps'[0] == sep && seps'[1..] == seps;
      var rest := ts'[1..];
      assert rest[0] == r && rest[1..] == ts[1..];
      if seps != [] { SepBelow(sep, seps[0], lo, hi); }
    } else {
      assert ts'[0] == ts[0] && ts'[1..] == SplitKids(ts[1..], c - 1, l, r);
      assert seps'[0] == seps[0] && seps'[1..] == InsertAt(seps[1..], c - 1, sep);
      AbsorbNeedsGood(ts[1..], seps[1..], c - 1, l, r, sep, dirs, leaves, Some(seps[0]), hi);
    }
  }

  /** A good directory whose child c split is good again with the two halves in its place. */
  lemma {:induction false} AbsorbGood(ts: seq<Tree>, seps: seq<Rec>, c: nat, l: Tree, r: Tree, sep: Rec,
                                      dirs: seq<Block>, leaves: seq<Block>, lo: Option<Rec>, hi: Option<Rec>)
    requires GoodAllBut(ts, seps, c, dirs, leaves, lo, hi)
    requires GoodSplit(l, r, sep, dirs, leaves, LowOf(seps, c, lo), HighOf(seps, c, hi))
    ensures GoodAll(SplitKids(ts, c, l, r), InsertAt(seps, c, sep), dirs, leaves, lo, hi)
    decreases ts
  {
    hide Good, Inside, RecLess;
    var ts', seps' := SplitKids(ts, c, l, r), InsertAt(seps, c, sep);
    if c == 0 {
      assert ts'[0] == l && ts'[1..] == [r] + ts[1..] && seps'[0] == sep && seps'[1..] == seps;
      SepWidens(sep, seps, lo, hi);
      var rest := ts'[1..];
      assert rest[0] == r && rest[1..] == ts[1..];
      assert GoodAll(rest, seps, dirs, leaves, Some(sep), hi) by {
        if seps != [] { SepNarrows(sep, seps[0], lo, hi); }
      }
    } else {
      AbsorbGood(ts[1..], seps[1..], c - 1, l, r, sep, dirs, leaves, Some(seps[0]), hi);
      assert ts'[0] == ts[0] && ts'[1..] == SplitKids(ts[1..], c - 1, l, r);
      assert seps'[0] == seps[0] && seps'[1..] == InsertAt(seps[1..], c - 1, sep);
    }
  }

  lemma SepWidens(sep: Rec, seps: seq<Rec>, lo: Option<Rec>, hi: Option<Rec>)
    requires Inside(sep, lo, HighOf(seps, 0, hi)) && (seps != [] ==> Inside(seps[0], lo, hi))
    ensures Inside(sep, lo, hi)
  {
    if seps != [] && hi.Some? {
      RecOrder(sep, seps[0], hi.value);
    }
  }

  lemma SepNarrows(sep: Rec, s: Rec, lo: Option<Rec>, hi: Option<Rec>)
    requires Inside(sep, lo, Some(s)) && Inside(s, lo, hi)
    ensures Inside(s, Some(sep), hi)
  {
  }

  lemma SplitLeaves(ts: seq<Tree>, c: nat, l: Tree, r: Tree)
    requires c < |ts|
    ensures LeavesOfAll(SplitKids(ts, c, l, r)) ==
              LeavesOfAll(ts[..c]) + (LeavesOf(l) + LeavesOf(r)) + LeavesOfAll(ts[c + 1..])
  {
    var s := SplitKids(ts, c, l, r);
    assert s == ts[..c] + ([l, r] + ts[c + 1..]);
    LeavesOfAllConcat(ts[..c], [l, r] + ts[c + 1..]);
    LeavesOfAllConcat([l, r], ts[c + 1..]);
    assert [l, r][1..] == [r] && [r][1..] == [];
    Associative(LeavesOfAll(ts[..c]), LeavesOf(l) + LeavesOf(r), LeavesOfAll(ts[c + 1..]));
  }

  lemma {:induction false} LeavesOfAllConcat(a: seq<Tree>, b: seq<Tree>)
    ensures LeavesOfAll(a + b) == LeavesOfAll(a) + LeavesOfAll(b)
    decreases a
  {
    if a == [] {
      assert a + b == b;
    } else {
      LeavesOfAllConcat(a[1..], b);
      assert (a + b)[1..] == a[1..] + b;
      Associative(LeavesOf(a[0]), LeavesOfAll(a[1..]), LeavesOfAll(b));
    }
  }

  /** Cutting a good directory at a separator leaves two good ones, on either side of it. */
  lemma {:induction false} CutGood(ts: seq<Tree>, seps: seq<Rec>, m: nat, dirs: seq<Block>, leaves: seq<Block>,
                                   lo: Option<Rec>, hi: Option<Rec>)
    requires GoodAll(ts, seps, dirs, leaves, lo, hi) && m < |seps|
    ensures GoodAll(ts[..m + 1], seps[..m], dirs, leaves, lo, Some(seps[m]))
    ensures GoodAll(ts[m + 1..], seps[m + 1..], dirs, leaves, Some(seps[m]), hi)
    ensures Inside(seps[m], lo, hi)
    decreases ts
  {
    hide Good, RecLess, Inside;
    if m == 0 {
      assert ts[..1][0] == ts[0];
    } else {
      CutGood(ts[1..], seps[1..], m - 1, dirs, leaves, Some(seps[0]), hi);
      assert ts[..m + 1][1..] == ts[1..][..m] && seps[..m][1..] == seps[1..][..m - 1];
      assert ts[m + 1..] == ts[1..][m..] && seps[m + 1..] == seps[1..][m..];
      SepBelow(seps[0], seps[m], lo, hi);
    }
  }

  lemma SepBelow(a: Rec, b: Rec, lo: Option<Rec>, hi: Option<Rec>)
    requires Inside(a, lo, hi) && Inside(b, Some(a), hi)
    ensures Inside(b, lo, hi) && Inside(a, lo, Some(b))
  {
    if lo.Some? {
      RecOrder(lo.value, a, b);
    }
  }

  lemma {:induction false} GoodAllButSorted(ts: seq<Tree>, seps: seq<Rec>, c: nat, dirs: seq<Block>,
                                            leaves: seq<Block>, lo: Option<Rec>, hi: Option<Rec>)
    requires GoodAllBut(ts, seps, c, dirs, leaves, lo, hi)
    ensures Sorted(seps) && AllIn(seps, lo, hi)
    decreases ts
  {
    hide Good, RecLess;
    if seps != [] {
      var m := Some(seps[0]);
      if c == 0 {
        GoodSorted(ts[1..], seps[1..], dirs, leaves, m, hi);
      } else {
        GoodAllButSorted(ts[1..], seps[1..], c - 1, dirs, leaves, m, hi);
      }
      ConsSorted(seps, lo, hi);
    }
  }

  lemma ConsSorted(seps: seq<Rec>, lo: Option<Rec>, hi: Option<Rec>)
    requires seps != [] && Inside(seps[0], lo, hi) && Sorted(seps[1..]) && AllIn(seps[1..], Some(seps[0]), hi)
    ensures Sorted(seps) && AllIn(seps, lo, hi)
  {
    InsideInRange(seps[0], lo, hi);
    AllInWiden(seps[1..], Some(seps[0]), hi, lo, hi);
    forall i | 1 <= i < |seps| ensures !RecLess(seps[i], seps[0]) && InRange(seps[i], lo, hi) {
      assert InRange(seps[1..][i - 1], Some(seps[0]), hi) && InRange(seps[1..][i - 1], lo, hi);
    }
    forall i, j | 0 <= i < j < |seps| ensures !RecLess(seps[j], seps[i]) {
      if i > 0 {
        assert seps[i] == seps[1..][i - 1] && seps[j] == seps[1..][j - 1];
      }
    }
  }

  /** The separator of a split of child c is found again at c. */
  lemma RankOfSplit(seps: seq<Rec>, c: nat, sep: Rec, lo: Option<Rec>, hi: Option<Rec>)
    requires Sorted(seps) && c <= |seps| && Inside(sep, LowOf(seps, c, lo), HighOf(seps, c, hi))
    ensures Rank(seps, sep) == c
  {
    hide Rank;
    if c > 0 {
      RecOrder(seps[c - 1], sep, seps[c - 1]);
      RankHalf(seps, sep, c - 1);
    }
    if c < |seps| {
      RankHalf(seps, sep, c);
    }
    RankSplits(seps, sep);
  }

  lemma PointersOfSplit(ts: seq<Tree>, c: nat, l: Tree, r: Tree)
    requires c < |ts| && Pointer(l) == Pointer(ts[c])
    ensures Pointers(SplitKids(ts, c, l, r)) == InsertAt(Pointers(ts), c + 1, Pointer(r))
  {
    var a, b := Pointers(SplitKids(ts, c, l, r)), InsertAt(Pointers(ts), c + 1, Pointer(r));
    forall i | 0 <= i < |a| ensures a[i] == b[i] {
      if i < c { assert a[i] == Pointer(ts[i]); }
      if i > c + 1 { assert a[i] == Pointer(ts[i - 1]); }
    }
  }
}
