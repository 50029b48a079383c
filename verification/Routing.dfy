/** How a directory routes a record to a child, and what absorbing a split of a child or splitting the root
    does to the routing (src/storage/b_plus_tree/b_plus_tree_dir.cc). */
module Routing {
  import opened Bytes
  import opened HeapModel
  import opened BPlusTreeNodes

  /** Number of records of rs that are not greater than r. */
  function Rank(rs: seq<Rec>, r: Rec): (k: nat)
    ensures k <= |rs|
  {
    if rs == [] then 0 else (if RecLess(r, rs[0]) then 0 else 1) + Rank(rs[1..], r)
  }

  /** Non-decreasing. */
  predicate Sorted(rs: seq<Rec>) {
    forall i, j :: 0 <= i < j < |rs| ==> !RecLess(rs[j], rs[i])
  }

  /** Everything before k is at most r, everything from k on is greater. */
  predicate Splits(rs: seq<Rec>, k: nat, r: Rec) {
    && k <= |rs|
    && (forall i :: 0 <= i < k ==> !RecLess(r, rs[i]))
    && (forall i :: k <= i < |rs| ==> RecLess(r, rs[i]))
  }

  /** Only the rank splits the separators, sorted or not. */
  lemma {:induction false} SplitsIsRank(rs: seq<Rec>, k: nat, r: Rec)
    requires Splits(rs, k, r)
    ensures k == Rank(rs, r)
    decreases |rs|
  {
    hide RecLess;
    if rs != [] {
      var k' := if k == 0 then 0 else k - 1;
      assert Splits(rs[1..], k', r) by {
        assert forall i :: 0 <= i < |rs| - 1 ==> rs[1..][i] == rs[i + 1];
      }
      SplitsIsRank(rs[1..], k', r);
    }
  }

  /** In sorted separators the rank does split. */
  lemma {:induction false} RankSplits(rs: seq<Rec>, r: Rec)
    requires Sorted(rs)
    ensures Splits(rs, Rank(rs, r), r)
  {
    if rs != [] {
      RankSplits(rs[1..], r);
      if RecLess(r, rs[0]) {
        forall i | 0 <= i < |rs| ensures RecLess(r, rs[i]) {
          RecOrder(r, rs[0], rs[i]);
          assert i > 0 ==> !RecLess(rs[i], rs[0]);
        }
        SplitsIsRank(rs, 0, r);
      } else {
        var k := Rank(rs[1..], r);
        forall i | 0 <= i < 1 + k ensures !RecLess(r, rs[i]) {
          assert i > 0 ==> rs[i] == rs[1..][i - 1];
        }
        forall i | 1 + k <= i < |rs| ensures RecLess(r, rs[i]) {
          assert rs[i] == rs[1..][i - 1];
        }
      }
    }
  }

  /** One step of the binary search: probing a middle record halves the part the rank can be in. */
  lemma RankHalf(rs: seq<Rec>, r: Rec, m: nat)
    requires Sorted(rs) && m < |rs|
    ensures RecLess(r, rs[m]) <==> Rank(rs, r) <= m
  {
    RankSplits(rs, r);
  }

  predicate NodeOk(n: Node) {
    |n.kids| == |n.seps| + 1 && Sorted(n.seps)
  }

  /** The child a record is routed to. */
  function Route(n: Node, r: Rec): int32
    requires |n.kids| == |n.seps| + 1
  {
    n.kids[Rank(n.seps, r)]
  }

  function InsertAt<T>(s: seq<T>, i: nat, x: T): (t: seq<T>)
    requires i <= |s|
    ensures |t| == |s| + 1 && t[i] == x
    ensures forall j :: 0 <= j < i ==> t[j] == s[j]
    ensures forall j :: i < j < |t| ==> t[j] == s[j - 1]
  {
    s[..i] + [x] + s[i..]
  }

  /** The directory after its child i split: page is the new right half, from record sep on. */
  function Absorb(n: Node, i: nat, sep: Rec, page: int32): (m: Node)
    requires |n.kids| == |n.seps| + 1 && i <= |n.seps|
    ensures |m.kids| == |m.seps| + 1 == |n.kids| + 1
  {
    Node(InsertAt(n.seps, i, sep), InsertAt(n.kids, i + 1, page))
  }

  lemma AbsorbSorted(n: Node, sep: Rec)
    requires NodeOk(n)
    ensures Sorted(InsertAt(n.seps, Rank(n.seps, sep), sep))
  {
    var k := Rank(n.seps, sep);
    RankSplits(n.seps, sep);
    var t := InsertAt(n.seps, k, sep);
    forall i, j | 0 <= i < j < |t| ensures !RecLess(t[j], t[i]) {
      if i < k < j {
        RecOrder(t[i], sep, t[j]);
        RecOrder(t[j], t[i], sep);
      } else if j == k {
        RecOrder(sep, t[i], sep);
      } else if i == k {
        RecOrder(sep, t[j], sep);
      }
    }
  }

  lemma AbsorbRank(seps: seq<Rec>, sep: Rec, r: Rec)
    requires Sorted(seps)
    ensures Rank(InsertAt(seps, Rank(seps, sep), sep), r) == Rank(seps, r) + if RecLess(r, sep) then 0 else 1
    ensures RecLess(r, sep) ==> Rank(seps, r) <= Rank(seps, sep)
    ensures !RecLess(r, sep) ==> Rank(seps, r) >= Rank(seps, sep)
  {
    hide Rank;
    var i, k := Rank(seps, sep), Rank(seps, r);
    RankSplits(seps, sep);
    RankSplits(seps, r);
    RanksOrdered(seps, i, sep, k, r);
    var t := InsertAt(seps, i, sep);
    var k' := k + if RecLess(r, sep) then 0 else 1;
    forall j | 0 <= j < k' ensures !RecLess(r, t[j]) {
      if j > i { assert t[j] == seps[j - 1]; }
    }
    forall j | k' <= j < |t| ensures RecLess(r, t[j]) {
      if j > i { assert t[j] == seps[j - 1]; }
    }
    SplitsIsRank(t, k', r);
  }

  lemma RanksOrdered(seps: seq<Rec>, i: nat, sep: Rec, k: nat, r: Rec)
    requires Splits(seps, i, sep) && Splits(seps, k, r)
    ensures RecLess(r, sep) ==> k <= i
    ensures !RecLess(r, sep) ==> i <= k
  {
    if RecLess(r, sep) && k > i {
      RecOrder(r, sep, seps[i]);
      assert false;
    }
    if !RecLess(r, sep) && k < i {
      RecOrder(r, seps[k], sep);
      assert false;
    }
  }

  /** Absorbing a split changes the route of exactly the records of the child that split: those from the
      separator on go to the new page, the others stay; every other record goes where it went. */
  lemma AbsorbRoutes(n: Node, sep: Rec, page: int32, r: Rec)
    requires NodeOk(n)
    ensures var i := Rank(n.seps, sep);
            NodeOk(Absorb(n, i, sep, page)) &&
            Route(Absorb(n, i, sep, page), r) ==
              if Rank(n.seps, r) == i && !RecLess(r, sep) then page else Route(n, r)
  {
    hide Rank, RecLess;
    AbsorbSorted(n, sep);
    AbsorbRank(n.seps, sep, r);
  }

  /** A record inside the range of child c is routed there, and so is a separator inside that range: the index
      found again after the descent is the index of the descent. */
  lemma RangeRoutes(n: Node, c: nat, r: Rec)
    requires NodeOk(n) && c < |n.kids|
    ensures Rank(n.seps, r) == c <==> (c > 0 ==> !RecLess(r, n.seps[c - 1])) && (c < |n.seps| ==> RecLess(r, n.seps[c]))
  {
    RankSplits(n.seps, r);
    if (c > 0 ==> !RecLess(r, n.seps[c - 1])) && (c < |n.seps| ==> RecLess(r, n.seps[c])) {
      if c > 0 { RankHalf(n.seps, r, c - 1); }
      if c < |n.seps| { RankHalf(n.seps, r, c); }
    }
  }

  // ---------- splitting a directory in two ----------

  /** The left half of a directory cut at separator m, which moves up. */
  function LeftHalf(n: Node, m: nat): Node
    requires |n.kids| == |n.seps| + 1 && m < |n.seps|
  {
    Node(n.seps[..m], n.kids[..m + 1])
  }

  function RightHalf(n: Node, m: nat): Node
    requires |n.kids| == |n.seps| + 1 && m < |n.seps|
  {
    Node(n.seps[m + 1..], n.kids[m + 1..])
  }

  lemma CutRank(rs: seq<Rec>, m: nat, r: Rec)
    requires Sorted(rs) && m < |rs|
    ensures if RecLess(r, rs[m]) then Rank(rs, r) == Rank(rs[..m], r) <= m
            else Rank(rs, r) == m + 1 + Rank(rs[m + 1..], r)
  {
    hide Rank;
    RankSplits(rs, r);
    var k := Rank(rs, r);
    RankHalf(rs, r, m);
    if RecLess(r, rs[m]) {
      SplitsIsRank(rs[..m], k, r);
    } else {
      var t := rs[m + 1..];
      assert forall i :: 0 <= i < |t| ==> t[i] == rs[m + 1 + i];
      SplitsIsRank(t, k - m - 1, r);
    }
  }

  /** A root over the two halves routes every record as the uncut directory does. */
  lemma HalvesRoute(n: Node, m: nat, r: Rec)
    requires NodeOk(n) && m < |n.seps|
    ensures NodeOk(LeftHalf(n, m)) && NodeOk(RightHalf(n, m))
    ensures Route(n, r) == if RecLess(r, n.seps[m]) then Route(LeftHalf(n, m), r) else Route(RightHalf(n, m), r)
  {
    hide Rank, RecLess;
    CutRank(n.seps, m, r);
    assert Sorted(n.seps[..m]);
    assert Sorted(n.seps[m + 1..]);
  }

  /** No child is lost or doubled by the cut. */
  lemma HalvesKeepKids(n: Node, m: nat)
    requires |n.kids| == |n.seps| + 1 && m < |n.seps|
    ensures LeftHalf(n, m).kids + RightHalf(n, m).kids == n.kids
    ensures LeftHalf(n, m).seps + [n.seps[m]] + RightHalf(n, m).seps == n.seps
  {
  }

  // ---------- leaves ----------

  /** The least index whose record is not less than r; the length if there is none. */
  function LowerBound(rs: seq<Rec>, r: Rec): (k: nat)
    ensures k <= |rs|
    ensures forall i :: 0 <= i < k ==> RecLess(rs[i], r)
    ensures k < |rs| ==> !RecLess(rs[k], r)
  {
    if rs == [] || !RecLess(rs[0], r) then 0 else 1 + LowerBound(rs[1..], r)
  }

  lemma LowerBoundIs(rs: seq<Rec>, r: Rec, k: nat)
    requires k <= |rs| && (forall i :: 0 <= i < k ==> RecLess(rs[i], r)) && (k < |rs| ==> !RecLess(rs[k], r))
    ensures k == LowerBound(rs, r)
  {
  }

  /** From the lower bound on, nothing is less than r. */
  lemma LowerBoundSplits(rs: seq<Rec>, r: Rec)
    requires Increasing(rs)
    ensures forall i :: LowerBound(rs, r) <= i < |rs| ==> !RecLess(rs[i], r)
  {
    var k := LowerBound(rs, r);
    forall i | k <= i < |rs| ensures !RecLess(rs[i], r) {
      if i > k {
        RecOrder(rs[k], rs[i], r);
      }
    }
  }

  /** Everything before k is less than r. */
  predicate LessBefore(rs: seq<Rec>, k: int, r: Rec) {
    forall i :: 0 <= i < k && i < |rs| ==> RecLess(rs[i], r)
  }

  /** Everything after k is greater than r. */
  predicate GreaterAfter(rs: seq<Rec>, k: int, r: Rec) {
    forall i :: k < i < |rs| && 0 <= i ==> RecLess(r, rs[i])
  }

  lemma NothingOutside(rs: seq<Rec>, r: Rec)
    ensures LessBefore(rs, 0, r) && GreaterAfter(rs, |rs| - 1, r)
  {
  }

  lemma GreaterWeaken(rs: seq<Rec>, j: int, k: int, r: Rec)
    requires GreaterAfter(rs, j, r) && j <= k
    ensures GreaterAfter(rs, k, r)
  {
  }

  lemma LessUpTo(rs: seq<Rec>, k: nat, r: Rec)
    requires Increasing(rs) && k < |rs| && RecLess(rs[k], r)
    ensures LessBefore(rs, k + 1, r)
  {
    forall i | 0 <= i < k ensures RecLess(rs[i], r) {
      RecOrder(rs[i], rs[k], r);
    }
  }

  lemma GreaterFrom(rs: seq<Rec>, k: nat, r: Rec)
    requires Increasing(rs) && k < |rs| && RecLess(r, rs[k])
    ensures GreaterAfter(rs, k - 1, r)
  {
    forall i | k < i < |rs| ensures RecLess(r, rs[i]) {
      RecOrder(r, rs[k], rs[i]);
    }
  }

  /** The two ways the binary search of a leaf ends. */
  lemma SearchEnds(rs: seq<Rec>, r: Rec, k: nat)
    requires Increasing(rs) && k < |rs| && LessBefore(rs, k, r) && GreaterAfter(rs, k, r)
    ensures LowerBound(rs, r) == if RecLess(rs[k], r) then k + 1 else k
  {
    if k + 1 < |rs| {
      RecOrder(r, rs[k + 1], r);
    }
    LowerBoundIs(rs, r, if RecLess(rs[k], r) then k + 1 else k);
  }

  lemma SearchHits(rs: seq<Rec>, r: Rec, k: nat)
    requires Increasing(rs) && k < |rs| && !RecLess(rs[k], r) && !RecLess(r, rs[k])
    ensures LowerBound(rs, r) == k
  {
    RecOrder(r, rs[k], r);
    assert forall i :: 0 <= i < k ==> RecLess(rs[i], rs[k]);
    LowerBoundIs(rs, r, k);
  }

  /** A record is in an increasing leaf exactly when it stands at its lower bound. */
  lemma LowerBoundFinds(rs: seq<Rec>, r: Rec)
    requires Increasing(rs)
    ensures r in rs <==> LowerBound(rs, r) < |rs| && rs[LowerBound(rs, r)] == r
  {
    if r in rs {
      var i :| 0 <= i < |rs| && rs[i] == r;
      RecOrder(r, r, r);
      LowerBoundIs(rs, r, i);
    }
  }

  /** The insertion's test for a record that is already there: it looks at the slot the search returns, which
      may be the one past the last record. */
  predicate TakenForDuplicate(b: Block, r: Rec) {
    var k := LowerBound(LeafRecs(b), r);
    k < LEAF_MAX && LeafSlots(b)[k] == r
  }

  /** The slot past the last record holds a copy of r left from before, or zeros that read as r. */
  predicate StaleCopy(b: Block, r: Rec) {
    var n := RecordCount(b);
    0 <= n < LEAF_MAX && LowerBound(LeafRecs(b), r) == n && LeafSlots(b)[n] == r
  }

  /** The test is right exactly when no stale copy stands at the insertion point. */
  lemma DuplicateTestExact(b: Block, r: Rec)
    requires LeafOk(b)
    ensures (TakenForDuplicate(b, r) <==> r in LeafRecs(b)) <==> !StaleCopy(b, r)
  {
    LowerBoundFinds(LeafRecs(b), r);
  }

  lemma UnsignedOfZeros(s: seq<byte>)
    requires forall i :: 0 <= i < |s| ==> s[i] == 0
    ensures Unsigned(s) == 0
  {
    if |s| > 0 {
      UnsignedOfZeros(s[1..]);
    }
  }

  /** An insertion that is lost: a leaf that has held one record and is asked to take key 0 at record
      identifier (0, 0) next finds that record in the unused zero bytes. */
  lemma LostInsertion(b: Block)
    requires var r := Rec(-5, RID(0, 1)); b == Put(Put(ZeroBlock(), OFFSET_RECORDS, EncRec(r)), 0, Enc32(1))
    ensures LeafOk(b) && LeafRecs(b) == [Rec(-5, RID(0, 1))]
    ensures Rec(0, RID(0, 0)) !in LeafRecs(b) && TakenForDuplicate(b, Rec(0, RID(0, 0)))
  {
    hide Put, EncRec, Enc32, GetRec, Get32, LowerBound;
    var r, z := Rec(-5, RID(0, 1)), Rec(0, RID(0, 0));
    var w := Put(ZeroBlock(), OFFSET_RECORDS, EncRec(r));
    SetLeafRec(ZeroBlock(), 0, r);
    SetLeafCount(w, 1);
    assert LeafSlots(ZeroBlock())[1] == z && NextLeaf(ZeroBlock()) == 0 by {
      ZeroRecord();
    }
    assert LeafRecs(b) == [r];
    LowerBoundIs(LeafRecs(b), z, 1);
  }

  lemma ZeroRecord()
    ensures LeafRec(ZeroBlock(), 1) == Rec(0, RID(0, 0)) && NextLeaf(ZeroBlock()) == 0
  {
    var z := ZeroBlock();
    UnsignedOfZeros(z[24..32]);
    UnsignedOfZeros(z[32..36]);
    UnsignedOfZeros(z[36..40]);
    UnsignedOfZeros(z[4..8]);
  }
}
