/** What a record stored in a leaf without records does to the whole tree
    (src/storage/b_plus_tree/b_plus_tree_dir.cc:87-105, b_plus_tree_leaf.cc:17-25). */
module TreeInsertions {
  import opened Bytes
  import opened Values
  import opened HeapModel
  import opened BPlusTreeNodes
  import opened BPlusTreeModel
  import opened IndexModel

  predicate Distinct(ps: seq<nat>) {
    forall i, j :: 0 <= i < j < |ps| ==> ps[i] != ps[j]
  }

  /** No leaf comes twice in a chain that ends: what follows the two would be the same. */
  lemma {:induction false} LinkedApart(ps: seq<nat>, leaves: seq<Block>, i: nat, j: nat)
    requires Linked(ps, leaves) && i < j < |ps|
    ensures ps[i] != ps[j]
    decreases |ps| - j
  {
    hide NextLeaf, LeafAt;
    if j + 1 < |ps| {
      LinkedApart(ps, leaves, i + 1, j + 1);
    }
    LinkedAt(ps, leaves, i);
    LinkedAt(ps, leaves, j);
  }

  lemma LinkedDistinct(ps: seq<nat>, leaves: seq<Block>)
    requires Linked(ps, leaves)
    ensures Distinct(ps)
  {
    forall i, j | 0 <= i < j < |ps| ensures ps[i] != ps[j] {
      LinkedApart(ps, leaves, i, j);
    }
  }

  /** The two leaf files agree on the given pages. */
  predicate Agree(ps: seq<nat>, leaves: seq<Block>, leaves': seq<Block>) {
    forall i :: 0 <= i < |ps| ==> LeafAt(leaves', ps[i]) == LeafAt(leaves, ps[i])
  }

  lemma AgreeParts(a: seq<nat>, b: seq<nat>, leaves: seq<Block>, leaves': seq<Block>)
    requires Agree(a + b, leaves, leaves')
    ensures Agree(a, leaves, leaves') && Agree(b, leaves, leaves')
  {
    hide LeafAt;
    forall i | 0 <= i < |b| ensures LeafAt(leaves', b[i]) == LeafAt(leaves, b[i]) {
      assert (a + b)[|a| + i] == b[i];
    }
    forall i | 0 <= i < |a| ensures LeafAt(leaves', a[i]) == LeafAt(leaves, a[i]) {
      assert (a + b)[i] == a[i];
    }
  }

  /** A subtree does not notice changes to leaves that are not its own. */
  lemma {:induction false} GoodElsewhere(t: Tree, dirs: seq<Block>, leaves: seq<Block>, leaves': seq<Block>,
                                         lo: Option<Rec>, hi: Option<Rec>)
    requires Good(t, dirs, leaves, lo, hi) && Agree(LeavesOf(t), leaves, leaves')
    ensures Good(t, dirs, leaves', lo, hi)
    decreases t, 1
  {
    hide AllIn, LeafAt, LeafRecs, LeafOk, DirOk;
    match t
    case Leaf(p) =>
      assert LeavesOf(t)[0] == p;
    case Dir(p, kids) => GoodAllElsewhere(kids, NodeOf(dirs[p]).seps, dirs, leaves, leaves', lo, hi);
  }

  lemma {:induction false} GoodAllElsewhere(ts: seq<Tree>, seps: seq<Rec>, dirs: seq<Block>, leaves: seq<Block>,
                                            leaves': seq<Block>, lo: Option<Rec>, hi: Option<Rec>)
    requires GoodAll(ts, seps, dirs, leaves, lo, hi) && Agree(LeavesOfAll(ts), leaves, leaves')
    ensures GoodAll(ts, seps, dirs, leaves', lo, hi)
    decreases ts, 0
  {
    hide Good, LeafAt, Inside, Agree;
    AgreeParts(LeavesOf(ts[0]), LeavesOfAll(ts[1..]), leaves, leaves');
    if seps == [] {
      GoodElsewhere(ts[0], dirs, leaves, leaves', lo, hi);
    } else {
      GoodElsewhere(ts[0], dirs, leaves, leaves', lo, Some(seps[0]));
      GoodAllElsewhere(ts[1..], seps[1..], dirs, leaves, leaves', Some(seps[0]), hi);
    }
  }

  /** Only page p has changed, and it is a leaf holding r alone. */
  ghost predicate Filled(leaves: seq<Block>, leaves': seq<Block>, p: nat, r: Rec) {
    && LeafOk(LeafAt(leaves', p)) && LeafRecs(LeafAt(leaves', p)) == [r]
    && forall q: nat :: q != p ==> LeafAt(leaves', q) == LeafAt(leaves, q)
  }

  lemma FilledAgree(ps: seq<nat>, leaves: seq<Block>, leaves': seq<Block>, p: nat, r: Rec)
    requires Filled(leaves, leaves', p, r) && forall i :: 0 <= i < |ps| ==> ps[i] != p
    ensures Agree(ps, leaves, leaves')
  {
    hide LeafAt, LeafOk, LeafRecs;
  }

  lemma DistinctParts(a: seq<nat>, b: seq<nat>)
    requires Distinct(a + b)
    ensures Distinct(a) && Distinct(b) && forall i, j :: 0 <= i < |a| && 0 <= j < |b| ==> a[i] != b[j]
  {
    var c := a + b;
    forall i, j | 0 <= i < |a| && 0 <= j < |b| ensures a[i] != b[j] {
      assert c[i] == a[i] && c[|a| + j] == b[j];
    }
    forall i, j | 0 <= i < j < |b| ensures b[i] != b[j] {
      assert c[|a| + i] == b[i] && c[|a| + j] == b[j];
    }
    forall i, j | 0 <= i < j < |a| ensures a[i] != a[j] {
      assert c[i] == a[i] && c[j] == a[j];
    }
  }

  /** The leaf a record is routed to may take that record: the tree stays good. */
  lemma {:induction false} FillGood(t: Tree, dirs: seq<Block>, leaves: seq<Block>, leaves': seq<Block>,
                                    lo: Option<Rec>, hi: Option<Rec>, r: Rec, p: nat)
    requires Good(t, dirs, leaves, lo, hi) && Distinct(LeavesOf(t)) && InRange(r, lo, hi)
    requires FindIdx(t, dirs, r) < |LeavesOf(t)| && p == LeavesOf(t)[FindIdx(t, dirs, r)]
    requires Filled(leaves, leaves', p, r)
    ensures Good(t, dirs, leaves', lo, hi)
    decreases t, 1
  {
    hide LeafAt, LeafRecs, LeafOk, DirOk, Filled, Distinct, RecLess;
    match t
    case Leaf(q) =>
      FilledLeaf(leaves, leaves', p, r, lo, hi);
    case Dir(q, kids) =>
      FillGoodAll(kids, NodeOf(dirs[q]).seps, dirs, leaves, leaves', lo, hi, r, p);
  }

  lemma FilledLeaf(leaves: seq<Block>, leaves': seq<Block>, p: nat, r: Rec, lo: Option<Rec>, hi: Option<Rec>)
    requires Filled(leaves, leaves', p, r) && InRange(r, lo, hi)
    ensures LeafOk(LeafAt(leaves', p)) && AllIn(LeafRecs(LeafAt(leaves', p)), lo, hi)
  {
  }

  lemma {:induction false} FillGoodAll(ts: seq<Tree>, seps: seq<Rec>, dirs: seq<Block>, leaves: seq<Block>,
                                       leaves': seq<Block>,
                                       lo: Option<Rec>, hi: Option<Rec>, r: Rec, p: nat)
    requires GoodAll(ts, seps, dirs, leaves, lo, hi) && Distinct(LeavesOfAll(ts)) && InRange(r, lo, hi)
    requires FindIdxAll(ts, seps, dirs, r) < |LeavesOfAll(ts)| && p == LeavesOfAll(ts)[FindIdxAll(ts, seps, dirs, r)]
    requires Filled(leaves, leaves', p, r)
    ensures GoodAll(ts, seps, dirs, leaves', lo, hi)
    decreases ts, 0
  {
    hide Good, LeafAt, Inside, Agree, Filled, Distinct, RecLess, FindIdx;
    var a, b := LeavesOf(ts[0]), LeavesOfAll(ts[1..]);
    DistinctParts(a, b);
    if seps == [] || RecLess(r, seps[0]) {
      var m := if seps == [] then hi else Some(seps[0]);
      FoundBelow(ts[0], dirs, leaves, lo, m, r);
      FillGood(ts[0], dirs, leaves, leaves', lo, m, r, p);
      if seps != [] {
        FilledAgree(b, leaves, leaves', p, r);
        GoodAllElsewhere(ts[1..], seps[1..], dirs, leaves, leaves', m, hi);
      }
    } else {
      var m := Some(seps[0]);
      FoundBelowAll(ts[1..], seps[1..], dirs, leaves, m, hi, r);
      FillGoodAll(ts[1..], seps[1..], dirs, leaves, leaves', m, hi, r, p);
      FilledAgree(a, leaves, leaves', p, r);
      GoodElsewhere(ts[0], dirs, leaves, leaves', lo, m);
    }
  }

  lemma FoundBelow(t: Tree, dirs: seq<Block>, leaves: seq<Block>, lo: Option<Rec>, hi: Option<Rec>, r: Rec)
    requires Good(t, dirs, leaves, lo, hi)
    ensures FindIdx(t, dirs, r) < |LeavesOf(t)|
  {
    FindBrackets(t, dirs, leaves, lo, hi, r);
  }

  lemma FoundBelowAll(ts: seq<Tree>, seps: seq<Rec>, dirs: seq<Block>, leaves: seq<Block>, lo: Option<Rec>,
                      hi: Option<Rec>, r: Rec)
    requires GoodAll(ts, seps, dirs, leaves, lo, hi)
    ensures FindIdxAll(ts, seps, dirs, r) < |LeavesOfAll(ts)|
  {
    FindBracketsAll(ts, seps, dirs, leaves, lo, hi, r);
  }

  lemma {:induction false} EntriesAgree(ps: seq<nat>, leaves: seq<Block>, leaves': seq<Block>)
    requires Agree(ps, leaves, leaves')
    ensures Entries(ps, leaves') == Entries(ps, leaves)
    decreases |ps|
  {
    hide LeafRecs, LeafAt;
    if ps != [] {
      AgreeParts([ps[0]], ps[1..], leaves, leaves');
      EntriesAgree(ps[1..], leaves, leaves');
    }
  }

  /** es' is es with r inserted at position n. */
  predicate InsertedAt(es: seq<Rec>, es': seq<Rec>, n: nat, r: Rec) {
    n <= |es| && es' == es[..n] + [r] + es[n..]
  }

  /** The records of the tree gain r, right behind those of the leaves to the left. */
  lemma FillEntries(ps: seq<nat>, leaves: seq<Block>, leaves': seq<Block>, i: nat, r: Rec)
    requires Distinct(ps) && i < |ps| && LeafRecs(LeafAt(leaves, ps[i])) == [] && Filled(leaves, leaves', ps[i], r)
    ensures InsertedAt(Entries(ps, leaves), Entries(ps, leaves'), |Entries(ps[..i], leaves)|, r)
  {
    hide LeafAt, LeafRecs, LeafOk, Entries;
    var a, b := ps[..i], ps[i + 1..];
    ThreeParts(ps, i, leaves);
    ThreeParts(ps, i, leaves');
    FilledAgree(a, leaves, leaves', ps[i], r);
    FilledAgree(b, leaves, leaves', ps[i], r);
    EntriesAgree(a, leaves, leaves');
    EntriesAgree(b, leaves, leaves');
    Middle(Entries(a, leaves), r, Entries(b, leaves));
  }

  lemma ThreeParts(ps: seq<nat>, i: nat, leaves: seq<Block>)
    requires i < |ps|
    ensures Entries(ps, leaves) ==
              Entries(ps[..i], leaves) + LeafRecs(LeafAt(leaves, ps[i])) + Entries(ps[i + 1..], leaves)
  {
    hide LeafAt, LeafRecs, Entries;
    assert ps == (ps[..i] + [ps[i]]) + ps[i + 1..];
    EntriesConcat(ps[..i] + [ps[i]], ps[i + 1..], leaves);
    EntriesConcat(ps[..i], [ps[i]], leaves);
    EntriesOne(ps[i], leaves);
  }

  lemma Middle<T>(a: seq<T>, x: T, b: seq<T>)
    ensures (a + [] + b)[..|a|] == a && (a + [] + b)[|a|..] == b
  {
  }

  lemma FilledLinked(ps: seq<nat>, leaves: seq<Block>, leaves': seq<Block>, p: nat, r: Rec)
    requires Linked(ps, leaves) && Filled(leaves, leaves', p, r)
    requires NextLeaf(LeafAt(leaves', p)) == NextLeaf(LeafAt(leaves, p))
    ensures Linked(ps, leaves')
  {
    hide LeafAt, LeafRecs, LeafOk, NextLeaf;
    forall i | 0 <= i < |ps| ensures LinkedOne(ps, leaves', i) {
      assert LinkedOne(ps, leaves, i);
    }
  }

  /** The whole effect of a record stored in the leaf without records it is routed to: the tree stays good, its
      leaves stay chained, and its records gain the one, at the place that keeps them in increasing order. */
  lemma FillTree(t: Tree, dirs: seq<Block>, leaves: seq<Block>, leaves': seq<Block>, r: Rec, i: nat)
    requires Good(t, dirs, leaves, None, None) && Linked(LeavesOf(t), leaves)
    requires i == FindIdx(t, dirs, r) && i < |LeavesOf(t)| && LeafRecs(LeafAt(leaves, LeavesOf(t)[i])) == []
    requires Filled(leaves, leaves', LeavesOf(t)[i], r)
    requires NextLeaf(LeafAt(leaves', LeavesOf(t)[i])) == NextLeaf(LeafAt(leaves, LeavesOf(t)[i]))
    ensures Good(t, dirs, leaves', None, None) && Linked(LeavesOf(t), leaves')
    ensures var es, es' := Entries(LeavesOf(t), leaves), Entries(LeavesOf(t), leaves');
            var n := |Entries(LeavesOf(t)[..i], leaves)|;
            InsertedAt(es, es', n, r) && Increasing(es')
  {
    hide Good, Linked, LeafAt, LeafRecs, LeafOk, Filled, Distinct, Entries, FindIdx, NextLeaf, Increasing;
    var ps := LeavesOf(t);
    LinkedDistinct(ps, leaves);
    FillGood(t, dirs, leaves, leaves', None, None, r, ps[i]);
    FilledLinked(ps, leaves, leaves', ps[i], r);
    FillEntries(ps, leaves, leaves', i, r);
    GoodIncreasing(t, dirs, leaves', None, None);
  }

  /** Index records stay bound to live heap records if the new one is. */
  lemma InsertedIndexed(es: seq<Rec>, es': seq<Rec>, n: nat, r: Rec, h: Heap, col: nat, ty: DataType)
    requires Indexed(es, h, col, ty) && InsertedAt(es, es', n, r) && IndexedOne(r, h, col, ty)
    ensures Indexed(es', h, col, ty)
  {
    hide IndexedOne;
    forall i | 0 <= i < |es'| ensures IndexedOne(es'[i], h, col, ty) {
      if i < n { assert es'[i] == es[i]; }
      if i > n { assert es'[i] == es[i - 1]; }
    }
  }

  // ---------- offering a record to a tree ----------

  /** The leaf a record is routed to. */
  ghost function RoutedLeaf(t: Tree, dirs: seq<Block>, leaves: seq<Block>, r: Rec): Block {
    var i := FindIdx(t, dirs, r);
    if i < |LeavesOf(t)| then LeafAt(leaves, LeavesOf(t)[i]) else ZeroBlock()
  }

  /** What offering r to the tree does to its leaves: the one r is routed to takes it if it has no records, and no
      other leaf changes. */
  ghost predicate Offered(t: Tree, dirs: seq<Block>, leaves: seq<Block>, leaves': seq<Block>, r: Rec) {
    var i := FindIdx(t, dirs, r);
    && i < |LeavesOf(t)|
    && if LeafRecs(RoutedLeaf(t, dirs, leaves, r)) == [] then Filled(leaves, leaves', LeavesOf(t)[i], r)
       else forall q: nat :: LeafAt(leaves', q) == LeafAt(leaves, q)
  }

  /** Leaves with records stay as they are. */
  ghost predicate Kept(leaves: seq<Block>, leaves': seq<Block>) {
    forall q: nat :: LeafRecs(LeafAt(leaves, q)) != [] ==> LeafAt(leaves', q) == LeafAt(leaves, q)
  }

  /** The leaf of r has records: whatever is offered, r itself or another, nothing more comes of offering r. */
  ghost predicate HasTaken(t: Tree, dirs: seq<Block>, leaves: seq<Block>, r: Rec) {
    FindIdx(t, dirs, r) < |LeavesOf(t)| && LeafRecs(RoutedLeaf(t, dirs, leaves, r)) != []
  }

  /** After offering r, its leaf has records, and so has every leaf that had some. */
  lemma OfferedKept(t: Tree, dirs: seq<Block>, leaves: seq<Block>, leaves': seq<Block>, r: Rec)
    requires Offered(t, dirs, leaves, leaves', r)
    ensures Kept(leaves, leaves') && HasTaken(t, dirs, leaves', r)
  {
    hide LeafAt, LeafRecs, LeafOk, FindIdx, LeavesOf;
  }

  lemma KeptTaken(t: Tree, dirs: seq<Block>, leaves: seq<Block>, leaves': seq<Block>, r: Rec)
    requires Kept(leaves, leaves') && HasTaken(t, dirs, leaves, r)
    ensures HasTaken(t, dirs, leaves', r)
  {
    hide LeafAt, LeafRecs, FindIdx, LeavesOf;
  }

  /** The index records of a tree gain r in its place, if its leaf takes it. */
  ghost predicate EntriesOffered(es: seq<Rec>, es': seq<Rec>, r: Rec, took: bool) {
    if took then Increasing(es') && exists n: nat :: InsertedAt(es, es', n, r) else es' == es
  }

  /** In a tree of one leaf without records, the first record offered is the one that stays. */
  lemma OneLeafOffered(t: Tree, dirs: seq<Block>, leaves: seq<Block>, leaves': seq<Block>, r: Rec)
    requires |LeavesOf(t)| == 1 && Offered(t, dirs, leaves, leaves', r)
    ensures var es, es' := Entries(LeavesOf(t), leaves), Entries(LeavesOf(t), leaves');
            es' == if es == [] then [r] else es
  {
    hide LeafAt, LeafRecs, LeafOk, FindIdx, Entries, LeavesOf;
    var p := LeavesOf(t)[0];
    assert LeavesOf(t) == [p];
    EntriesOne(p, leaves);
    EntriesOne(p, leaves');
  }

  // ---------- offering many ----------

  /** The page of the leaf a record is routed to. */
  ghost predicate RoutedTo(t: Tree, dirs: seq<Block>, r: Rec, q: nat) {
    var i := FindIdx(t, dirs, r);
    i < |LeavesOf(t)| && LeavesOf(t)[i] == q
  }

  /** The first of the records offered that is routed to page q. */
  ghost function FirstFor(t: Tree, dirs: seq<Block>, rs: seq<Rec>, q: nat): Option<Rec> {
    if rs == [] then None
    else
      var o := FirstFor(t, dirs, rs[..|rs| - 1], q);
      if o.None? && RoutedTo(t, dirs, rs[|rs| - 1], q) then Some(rs[|rs| - 1]) else o
  }

  /** Record i is the first one routed to page q. */
  ghost predicate IsFirstFor(t: Tree, dirs: seq<Block>, rs: seq<Rec>, q: nat, i: nat) {
    i < |rs| && RoutedTo(t, dirs, rs[i], q) && forall j :: 0 <= j < i ==> !RoutedTo(t, dirs, rs[j], q)
  }

  lemma {:induction false} FirstForIs(t: Tree, dirs: seq<Block>, rs: seq<Rec>, q: nat)
    ensures match FirstFor(t, dirs, rs, q)
            case None => forall i :: 0 <= i < |rs| ==> !RoutedTo(t, dirs, rs[i], q)
            case Some(r) => exists i: nat :: IsFirstFor(t, dirs, rs, q, i) && r == rs[i]
    decreases |rs|
  {
    hide RoutedTo;
    if rs != [] {
      var before, n := rs[..|rs| - 1], |rs| - 1;
      FirstForIs(t, dirs, before, q);
      assert forall i :: 0 <= i < n ==> before[i] == rs[i];
      if FirstFor(t, dirs, before, q).Some? {
        var i: nat :| IsFirstFor(t, dirs, before, q, i) && FirstFor(t, dirs, before, q).value == before[i];
        assert IsFirstFor(t, dirs, rs, q, i);
      } else if RoutedTo(t, dirs, rs[n], q) {
        assert IsFirstFor(t, dirs, rs, q, n);
      }
    }
  }

  /** What the records offered one after the other have made of the leaves: one that was empty has the first record
      routed to it, if there is one, and nothing else has changed. */
  ghost predicate FirstCome(t: Tree, dirs: seq<Block>, leaves: seq<Block>, leaves': seq<Block>, rs: seq<Rec>) {
    forall q: nat :: FirstComeAt(t, dirs, leaves, leaves', rs, q)
  }

  ghost predicate FirstComeAt(t: Tree, dirs: seq<Block>, leaves: seq<Block>, leaves': seq<Block>, rs: seq<Rec>,
                              q: nat) {
    var o := FirstFor(t, dirs, rs, q);
    if LeafRecs(LeafAt(leaves, q)) == [] && o.Some? then LeafRecs(LeafAt(leaves', q)) == [o.value]
    else LeafAt(leaves', q) == LeafAt(leaves, q)
  }

  lemma FirstComeMore(t: Tree, dirs: seq<Block>, leaves: seq<Block>, leaves': seq<Block>, leaves'': seq<Block>,
                      rs: seq<Rec>, r: Rec)
    requires FirstCome(t, dirs, leaves, leaves', rs) && Offered(t, dirs, leaves', leaves'', r)
    ensures FirstCome(t, dirs, leaves, leaves'', rs + [r])
  {
    hide LeafAt, LeafRecs, LeafOk, FindIdx, LeavesOf;
    assert (rs + [r])[..|rs|] == rs;
    forall q: nat ensures FirstComeAt(t, dirs, leaves, leaves'', rs + [r], q) {
      assert FirstComeAt(t, dirs, leaves, leaves', rs, q);
    }
  }
}
