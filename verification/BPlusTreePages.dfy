/** The operations on one B+ tree page: accessors, the two binary searches, and the in-place parts of
    absorbing a split (src/storage/b_plus_tree/b_plus_tree_dir.cc, b_plus_tree_leaf.cc). */
module BPlusTreePages {
  import opened Bytes
  import opened Pages
  import opened HeapModel
  import opened BPlusTreeNodes
  import opened Routing

  /** A child split: the child keeps the records before `record`, a new page has the others. */
  datatype Split = Split(record: Rec, page: int32)

  method ReadRec(page: Page, offset: nat) returns (r: Rec)
    requires page.Ok() && offset + 16 <= SIZE
    ensures r == GetRec(page.Data(), offset)
  {
    var key := page.ReadInt64(offset);
    var pageNum := page.ReadInt32(offset + 8);
    var dirSlot := page.ReadInt32(offset + 12);
    r := Rec(key, RID(pageNum, dirSlot));
  }

  method WriteRec(page: Page, offset: nat, r: Rec)
    requires page.Ok() && offset + 16 <= SIZE
    modifies page`dirty, page.bytes
    ensures page.dirty && page.Data() == Put(old(page.Data()), offset, EncRec(r))
  {
    hide Put, Enc64, Enc32;
    ghost var b := page.Data();
    page.WriteInt64(offset, r.key);
    page.WriteInt32(offset + 8, r.rid.page);
    page.WriteInt32(offset + 12, r.rid.slot);
    PutAppend(b, offset, Enc64(r.key), Enc32(r.rid.page));
    PutAppend(b, offset, Enc64(r.key) + Enc32(r.rid.page), Enc32(r.rid.slot));
    Concat3(Enc64(r.key), Enc32(r.rid.page), Enc32(r.rid.slot));
  }

  lemma Concat3<T>(a: seq<T>, b: seq<T>, c: seq<T>)
    ensures (a + b) + c == a + (b + c)
  {
  }

  /** Entries lo+1..hi moved up by one; entry `hole` may hold anything once lo is below it. */
  ghost predicate Shifted<T>(s0: seq<T>, s: seq<T>, lo: int, hi: nat, hole: int) {
    && 0 <= hole <= lo + 1 && |s| == |s0| > hi
    && (forall j :: lo < j <= hi && (lo >= hole || j != hole) ==> s[j] == s0[j - 1])
    && (forall j :: 0 <= j < |s| && !(lo < j <= hi) && (lo >= hole || j != hole) ==> s[j] == s0[j])
  }

  lemma ShiftStep<T>(s0: seq<T>, s: seq<T>, i: nat, hi: nat, hole: int, x: T)
    requires Shifted(s0, s, i, hi, hole) && hole <= i <= hi && (i > 0 && i > hole ==> x == s[i - 1])
    ensures Shifted(s0, s[i := x], i - 1, hi, hole)
  {
    if i > hole {
      assert s[i - 1] == s0[i - 1];
    }
  }

  /** The shifted array with the hole filled starts like the original with one entry inserted. */
  lemma ShiftedInsert<T>(s0: seq<T>, s: seq<T>, hi: nat, hole: nat, x: T)
    requires Shifted(s0, s, hole - 1, hi, hole) && hole <= hi
    ensures s[hole := x][..hi + 1] == InsertAt(s0[..hi], hole, x)
  {
  }

  datatype BPlusTreeDir = BPlusTreeDir(page: Page) {

    ghost predicate Ok()
      reads page, page.bytes
    {
      page.Ok() && DirOk(page.Data()) && NodeOk(NodeOf(page.Data()))
    }

    method GetChildCount() returns (n: int32)
      requires page.Ok()
      ensures n == ChildCount(page.Data())
    {
      n := page.ReadInt32(0);
    }

    method SetChildCount(n: int32)
      requires page.Ok()
      modifies page`dirty, page.bytes
      ensures page.dirty && ChildCount(page.Data()) == n
      ensures Kids(page.Data()) == Kids(old(page.Data())) && Seps(page.Data()) == Seps(old(page.Data()))
    {
      SetCount(page.Data(), n);
      page.WriteInt32(0, n);
    }

    method GetChild(i: nat) returns (c: int32)
      requires page.Ok() && i < MAX_CHILDREN
      ensures c == Kids(page.Data())[i]
    {
      c := page.ReadInt32(OFFSET_CHILDREN + 4 * i);
    }

    method SetChild(i: nat, c: int32)
      requires page.Ok() && i < MAX_CHILDREN
      modifies page`dirty, page.bytes
      ensures page.dirty && ChildCount(page.Data()) == ChildCount(old(page.Data()))
      ensures Kids(page.Data()) == Kids(old(page.Data()))[i := c] && Seps(page.Data()) == Seps(old(page.Data()))
    {
      BPlusTreeNodes.SetChild(page.Data(), i, c);
      page.WriteInt32(OFFSET_CHILDREN + 4 * i, c);
    }

    /** At index -1, which the shift below asks for when the first child split, the bytes of the last children
        are read as if they were a record. */
    method GetRecord(i: int) returns (r: Rec)
      requires page.Ok() && -1 <= i < MAX_RECORDS
      ensures i >= 0 ==> r == Seps(page.Data())[i]
    {
      r := ReadRec(page, OFFSET_RECORD + 16 * i);
    }

    method SetRecord(i: nat, r: Rec)
      requires page.Ok() && i < MAX_RECORDS
      modifies page`dirty, page.bytes
      ensures page.dirty && ChildCount(page.Data()) == ChildCount(old(page.Data()))
      ensures Kids(page.Data()) == Kids(old(page.Data())) && Seps(page.Data()) == Seps(old(page.Data()))[i := r]
    {
      SetSep(page.Data(), i, r);
      WriteRec(page, OFFSET_RECORD + 16 * i, r);
    }

    /** Binary search: how many separators are at most the record. */
    method SearchChildIdx(record: Rec) returns (idx: nat)
      requires Ok()
      ensures idx == Rank(NodeOf(page.Data()).seps, record)
    {
      hide Rank, RecLess, Seps, Kids;
      ghost var seps := NodeOf(page.Data()).seps;
      var lo: int := 0;
      var count := GetChildCount();
      assert Rank(seps, record) <= |seps| == count - 1;
      var hi: int := count - 1;
      while lo != hi
        invariant 0 <= lo <= Rank(seps, record) <= hi <= |seps|
        decreases hi - lo
      {
        var middleIdx := (lo + hi + 1) / 2 - 1;
        var middle := GetRecord(middleIdx);
        RankHalf(seps, record, middleIdx);
        if RecLess(record, middle) {
          hi := middleIdx;
        } else {
          lo := middleIdx + 1;
        }
      }
      idx := lo;
    }

    /** The shifting loops: records top..stop and the children after them move up by one. */
    method ShiftUp(top: nat, stop: nat, ghost hole: nat)
      requires page.Ok() && top < MAX_RECORDS && hole <= stop <= hole + 1 && stop <= top + 1 && hole <= top
      modifies page`dirty, page.bytes
      ensures ChildCount(page.Data()) == ChildCount(old(page.Data())) && (old(page.dirty) ==> page.dirty)
      ensures Shifted(Seps(old(page.Data())), Seps(page.Data()), stop - 1, top, hole)
      ensures Shifted(Kids(old(page.Data())), Kids(page.Data()), stop, top + 1, hole + 1)
    {
      hide Seps, Kids, Shifted;
      ghost var b := page.Data();
      ShiftNothing(Seps(b), top, hole);
      ShiftNothing(Kids(b), top + 1, hole + 1);
      var i: int := top;
      while i >= stop
        invariant stop - 1 <= i <= top && page.Ok()
        invariant ChildCount(page.Data()) == ChildCount(b) && (old(page.dirty) ==> page.dirty)
        invariant Shifted(Seps(b), Seps(page.Data()), i, top, hole)
        invariant Shifted(Kids(b), Kids(page.Data()), i + 1, top + 1, hole + 1)
      {
        ShiftOne(i, b, top, hole);
        i := i - 1;
      }
    }

    /** One pass of the shifting loops. */
    method ShiftOne(i: nat, ghost b: Block, ghost hi: nat, ghost hole: nat)
      requires page.Ok() && hole <= i <= hi < MAX_RECORDS
      requires Shifted(Seps(b), Seps(page.Data()), i, hi, hole)
      requires Shifted(Kids(b), Kids(page.Data()), i + 1, hi + 1, hole + 1)
      modifies page`dirty, page.bytes
      ensures page.dirty && ChildCount(page.Data()) == ChildCount(old(page.Data()))
      ensures Shifted(Seps(b), Seps(page.Data()), i - 1, hi, hole)
      ensures Shifted(Kids(b), Kids(page.Data()), i, hi + 1, hole + 1)
    {
      hide Seps, Kids, Shifted;
      var record := GetRecord(i - 1);
      ShiftStep(Seps(b), Seps(page.Data()), i, hi, hole, record);
      SetRecord(i, record);
      var child := GetChild(i);
      ShiftStep(Kids(b), Kids(page.Data()), i + 1, hi + 1, hole + 1, child);
      SetChild(i + 1, child);
    }

    method PutSplit(idx: nat, split: Split)
      requires page.Ok() && idx < MAX_RECORDS
      modifies page`dirty, page.bytes
      ensures page.dirty && ChildCount(page.Data()) == ChildCount(old(page.Data()))
      ensures Seps(page.Data()) == Seps(old(page.Data()))[idx := split.record]
      ensures Kids(page.Data()) == Kids(old(page.Data()))[idx + 1 := split.page]
    {
      hide Seps, Kids;
      SetRecord(idx, split.record);
      SetChild(idx + 1, split.page);
    }

    /** Case 1: the directory has room, so it takes the split in place. */
    method AbsorbInPlace(split: Split)
      requires Ok() && ChildCount(page.Data()) < MAX_CHILDREN
      modifies page`dirty, page.bytes
      ensures page.dirty && Ok()
      ensures var n := NodeOf(old(page.Data()));
              NodeOf(page.Data()) == Absorb(n, Rank(n.seps, split.record), split.record, split.page)
    {
      hide Rank, RecLess, Seps, Kids, Shifted, InsertAt, NodeOf, Absorb, Routing.Sorted;
      ghost var b := page.Data();
      var count := GetChildCount();
      var recordCount: nat := count - 1;
      var idx := SearchChildIdx(split.record);
      ShiftUp(recordCount, idx, idx);
      ShiftedInsert(Seps(b), Seps(page.Data()), recordCount, idx, split.record);
      ShiftedInsert(Kids(b), Kids(page.Data()), recordCount + 1, idx + 1, split.page);
      PutSplit(idx, split);
      SetChildCount(count + 1);
      AbsorbedNode(b, page.Data(), idx, split);
    }

    /** Case 3, first part: the root is full. The arrays take the split as far as they go; the record and the
        child that no longer fit come back. */
    method AbsorbOverflowing(split: Split) returns (lastRecord: Rec, lastChild: int32)
      requires Ok() && ChildCount(page.Data()) == MAX_CHILDREN
      modifies page`dirty, page.bytes
      ensures page.dirty || (!old(page.dirty) && page.Data() == old(page.Data()))
      ensures var n := NodeOf(old(page.Data()));
              var i := Rank(n.seps, split.record);
              var seps, kids := InsertAt(n.seps, i, split.record), InsertAt(n.kids, i + 1, split.page);
              && Seps(page.Data()) == seps[..MAX_RECORDS] && lastRecord == seps[MAX_RECORDS]
              && Kids(page.Data()) == kids[..MAX_CHILDREN] && lastChild == kids[MAX_CHILDREN]
    {
      hide Rank, RecLess, Seps, Kids, Shifted, InsertAt, NodeOf;
      ghost var b := page.Data();
      FullNode(b);
      var idx := SearchChildIdx(split.record);
      lastRecord := GetRecord(MAX_RECORDS - 1);
      lastChild := GetChild(MAX_CHILDREN - 1);
      if idx == MAX_CHILDREN - 1 {
        lastRecord := split.record;
        lastChild := split.page;
        InsertedLast(Seps(b), split.record);
        InsertedLast(Kids(b), split.page);
      } else {
        ShiftIn(idx, split);
      }
    }

    /** The shift loop of case 3 and the writes after it: the last record and the last child fall out. */
    method ShiftIn(idx: nat, split: Split)
      requires page.Ok() && idx < MAX_RECORDS
      modifies page`dirty, page.bytes
      ensures page.dirty
      ensures var seps := InsertAt(Seps(old(page.Data())), idx, split.record);
              Seps(page.Data()) == seps[..MAX_RECORDS] && seps[MAX_RECORDS] == Seps(old(page.Data()))[MAX_RECORDS - 1]
      ensures var kids := InsertAt(Kids(old(page.Data())), idx + 1, split.page);
              && Kids(page.Data()) == kids[..MAX_CHILDREN]
              && kids[MAX_CHILDREN] == Kids(old(page.Data()))[MAX_CHILDREN - 1]
    {
      hide Seps, Kids, Shifted, InsertAt;
      ghost var b := page.Data();
      ShiftUp(MAX_RECORDS - 1, idx + 1, idx);
      ShiftedOverflow(Seps(b), Seps(page.Data()), idx, split.record);
      ShiftedOverflow(Kids(b), Kids(page.Data()), idx + 1, split.page);
      PutSplit(idx, split);
    }

    /** Writes a new left directory: the first 102 records and 103 children of this one. */
    method FillLeft(lhs: BPlusTreeDir)
      requires page.Ok() && lhs.page.Ok() && lhs.page != page && lhs.page.bytes != page.bytes
      modifies lhs.page`dirty, lhs.page.bytes
      ensures page.Data() == old(page.Data()) && lhs.page.dirty && DirOk(lhs.page.Data())
      ensures NodeOf(lhs.page.Data()) == Node(Seps(page.Data())[..102], Kids(page.Data())[..103])
    {
      hide Seps, Kids;
      ghost var seps, kids := Seps(page.Data()), Kids(page.Data());
      for i := 0 to 102
        invariant page.Ok() && lhs.page.Ok() && page.Data() == old(page.Data())
        invariant Kids(lhs.page.Data())[..i] == kids[..i] && Seps(lhs.page.Data())[..i] == seps[..i]
      {
        var child := GetChild(i);
        CopyEntry(Kids(lhs.page.Data()), kids, i, i);
        lhs.SetChild(i, child);
        var record := GetRecord(i);
        CopyEntry(Seps(lhs.page.Data()), seps, i, i);
        lhs.SetRecord(i, record);
      }
      var child := GetChild(102);
      CopyEntry(Kids(lhs.page.Data()), kids, 102, 102);
      lhs.SetChild(102, child);
      lhs.SetChildCount(103);
    }

    /** Writes a new right directory: the records from 103 and the children from 103 on, then the last record
        and child, which this one has no room for. */
    method FillRight(rhs: BPlusTreeDir, lastRecord: Rec, lastChild: int32)
      requires page.Ok() && rhs.page.Ok() && rhs.page != page && rhs.page.bytes != page.bytes
      modifies rhs.page`dirty, rhs.page.bytes
      ensures page.Data() == old(page.Data()) && rhs.page.dirty && DirOk(rhs.page.Data())
      ensures NodeOf(rhs.page.Data()) ==
                Node(Seps(page.Data())[103..] + [lastRecord], Kids(page.Data())[103..] + [lastChild])
    {
      hide Seps, Kids;
      ghost var seps, kids := Seps(page.Data())[103..], Kids(page.Data())[103..];
      var j := 0;
      for i := 103 to MAX_RECORDS
        invariant j == i - 103
        invariant page.Ok() && rhs.page.Ok() && page.Data() == old(page.Data())
        invariant Kids(rhs.page.Data())[..j] == kids[..j] && Seps(rhs.page.Data())[..j] == seps[..j]
      {
        var child := GetChild(i);
        CopyEntry(Kids(rhs.page.Data()), kids, j, j);
        rhs.SetChild(j, child);
        var record := GetRecord(i);
        CopyEntry(Seps(rhs.page.Data()), seps, j, j);
        rhs.SetRecord(j, record);
        j := j + 1;
      }
      FinishRight(rhs, lastRecord, lastChild);
    }

    method FinishRight(rhs: BPlusTreeDir, lastRecord: Rec, lastChild: int32)
      requires page.Ok() && rhs.page.Ok() && rhs.page != page && rhs.page.bytes != page.bytes
      requires Kids(rhs.page.Data())[..101] == Kids(page.Data())[103..][..101]
      requires Seps(rhs.page.Data())[..101] == Seps(page.Data())[103..][..101]
      modifies rhs.page`dirty, rhs.page.bytes
      ensures page.Data() == old(page.Data()) && rhs.page.dirty && DirOk(rhs.page.Data())
      ensures NodeOf(rhs.page.Data()) ==
                Node(Seps(page.Data())[103..] + [lastRecord], Kids(page.Data())[103..] + [lastChild])
    {
      hide Seps, Kids;
      ghost var b := rhs.page.Data();
      var child := GetChild(MAX_CHILDREN - 1);
      rhs.SetChild(101, child);
      rhs.SetChild(102, lastChild);
      rhs.SetRecord(101, lastRecord);
      rhs.SetChildCount(103);
      assert Kids(rhs.page.Data())[..103] == Kids(b)[..101] + [child, lastChild];
      assert Kids(page.Data())[103..] == Kids(page.Data())[103..][..101] + [child];
      assert Seps(rhs.page.Data())[..102] == Seps(b)[..101] + [lastRecord];
      assert Seps(page.Data())[103..] == Seps(page.Data())[103..][..101];
    }

    /** The root keeps two children, the new directories, and the record between them. */
    method BecomeParent(lhs: int, rhs: int, record: Rec)
      requires page.Ok() && 0 < lhs < 0x8000_0000 && 0 < rhs < 0x8000_0000
      modifies page`dirty, page.bytes
      ensures page.dirty && DirOk(page.Data()) && NodeOf(page.Data()) == Node([record], [-lhs, -rhs])
    {
      hide Seps, Kids;
      SetChildCount(2);
      SetChild(0, -lhs);
      SetChild(1, -rhs);
      SetRecord(0, record);
    }
  }

  /** What became of an insertion into a leaf; the last two are the parts of it that are not written. */
  datatype LeafOutcome = Accepted | Duplicate | NeedsRoom(index: nat) | NeedsSplit(index: nat)

  datatype BPlusTreeLeaf = BPlusTreeLeaf(page: Page) {

    method GetRecordCount() returns (n: int32)
      requires page.Ok()
      ensures n == RecordCount(page.Data())
    {
      n := page.ReadInt32(0);
    }

    method GetNextPageNumber() returns (n: int32)
      requires page.Ok()
      ensures n == NextLeaf(page.Data())
    {
      n := page.ReadInt32(4);
    }

    method GetRecord(i: nat) returns (r: Rec)
      requires page.Ok() && i < LEAF_MAX
      ensures r == LeafSlots(page.Data())[i]
    {
      r := ReadRec(page, OFFSET_RECORDS + 16 * i);
    }

    method SetRecord(i: nat, r: Rec)
      requires page.Ok() && i < LEAF_MAX
      modifies page`dirty, page.bytes
      ensures page.dirty && RecordCount(page.Data()) == RecordCount(old(page.Data()))
      ensures NextLeaf(page.Data()) == NextLeaf(old(page.Data()))
      ensures LeafSlots(page.Data()) == LeafSlots(old(page.Data()))[i := r]
    {
      SetLeafRec(page.Data(), i, r);
      WriteRec(page, OFFSET_RECORDS + 16 * i, r);
    }

    method SetRecordCount(n: int32)
      requires page.Ok()
      modifies page`dirty, page.bytes
      ensures page.dirty && RecordCount(page.Data()) == n
      ensures NextLeaf(page.Data()) == NextLeaf(old(page.Data()))
      ensures LeafSlots(page.Data()) == LeafSlots(old(page.Data()))
    {
      SetLeafCount(page.Data(), n);
      page.WriteInt32(0, n);
    }

    /** How the record stands to record i of the leaf. */
    method CompareAt(i: nat, record: Rec) returns (less: bool, greater: bool)
      requires page.Ok() && i < |LeafRecs(page.Data())|
      ensures less == RecLess(record, LeafRecs(page.Data())[i]) && greater == RecLess(LeafRecs(page.Data())[i], record)
    {
      hide RecLess, LeafSlots, LeafRecs;
      LeafRecAt(page.Data(), i);
      var there := GetRecord(i);
      less, greater := RecLess(record, there), RecLess(there, record);
    }

    /** Binary search for the lower bound. On a leaf without records it looks at the first slot all the same and
        may return 1. The indices it reads are in probed. */
    method SearchIndex(record: Rec) returns (idx: nat, ghost probed: set<nat>)
      requires page.Ok() && LeafOk(page.Data())
      ensures LeafRecs(page.Data()) != [] ==> forall i :: i in probed ==> i < |LeafRecs(page.Data())|
      ensures LeafRecs(page.Data()) != [] ==> idx == LowerBound(LeafRecs(page.Data()), record)
      ensures LeafRecs(page.Data()) == [] ==> idx == if RecLess(LeafSlots(page.Data())[0], record) then 1 else 0
    {
      hide AllBelow, RecLess, LeafSlots, LowerBound, LessBefore, GreaterAfter, Increasing, LeafOk, LeafRecs;
      ghost var b := page.Data();
      ghost var rs := LeafRecs(b);
      LeafCount(b);
      var lo: int := 0;
      var count := GetRecordCount();
      var hi: int := count - 1;
      NothingOutside(rs, record);
      probed := {};
      NoneBelow(|rs|);
      while lo < hi
        invariant AllBelow(probed, |rs|)
        invariant 0 <= lo && -1 <= hi < |rs| && (rs != [] ==> lo < |rs|) && (rs == [] ==> lo == 0)
        invariant lo - 1 <= hi && LessBefore(rs, lo, record) && GreaterAfter(rs, hi, record)
        decreases hi - lo
      {
        Middle(lo, hi);
        var mid := (lo + hi) / 2;
        var less, greater := CompareAt(mid, record);
        AllBelowMore(probed, mid, |rs|);
        probed := probed + {mid};
        if less {
          GreaterFrom(rs, mid, record);
          hi := mid - 1;
        } else if greater {
          LessUpTo(rs, mid, record);
          lo := mid + 1;
        } else {
          SearchHits(rs, record, mid);
          AllBelowMeans(probed, |rs|);
          return mid, probed;
        }
      }
      AllBelowMore(probed, lo, |rs|);
      probed := probed + {lo};
      if rs != [] {
        AllBelowMeans(probed, |rs|);
        LeafRecAt(b, lo);
        GreaterWeaken(rs, hi, lo, record);
        SearchEnds(rs, record, lo);
      }
      var last := GetRecord(lo);
      idx := if RecLess(last, record) then lo + 1 else lo;
    }

    /** The written part of an insertion: a leaf without records takes its first one, and a record found at its
        place is not inserted again. */
    method InsertRecord(record: Rec) returns (o: LeafOutcome)
      requires page.Ok() && LeafOk(page.Data())
      modifies page`dirty, page.bytes
      ensures page.Ok() && LeafOk(page.Data())
      ensures var b := old(page.Data());
              if LeafRecs(b) == [] then
                o == Accepted && page.dirty && LeafRecs(page.Data()) == [record] && NextLeaf(page.Data()) == NextLeaf(b)
              else
                && page.Data() == b && page.dirty == old(page.dirty)
                && o == if TakenForDuplicate(b, record) then Duplicate
                        else if RecordCount(b) < LEAF_MAX then NeedsRoom(LowerBound(LeafRecs(b), record))
                        else NeedsSplit(LowerBound(LeafRecs(b), record))
    {
      hide RecLess, LeafSlots, LowerBound;
      var recordCount := GetRecordCount();
      if recordCount == 0 {
        SetRecord(0, record);
        SetRecordCount(1);
        assert LeafRecs(page.Data()) == [record];
        return Accepted;
      }
      var index, _ := SearchIndex(record);
      if index < LEAF_MAX {
        var there := GetRecord(index);
        if there == record {
          return Duplicate;
        }
      }
      o := if recordCount < LEAF_MAX then NeedsRoom(index) else NeedsSplit(index);
    }
  }

  lemma Middle(lo: int, hi: int)
    requires lo < hi
    ensures lo <= (lo + hi) / 2 < hi
  {
  }

  predicate AllBelow(indices: set<nat>, n: nat) {
    forall i :: i in indices ==> i < n
  }

  lemma AllBelowMore(indices: set<nat>, i: nat, n: nat)
    requires AllBelow(indices, n)
    ensures i < n ==> AllBelow(indices + {i}, n)
  {
  }

  lemma AllBelowMeans(indices: set<nat>, n: nat)
    requires AllBelow(indices, n)
    ensures forall i :: i in indices ==> i < n
  {
  }

  lemma NoneBelow(n: nat)
    ensures AllBelow({}, n)
  {
  }

  lemma CopyEntry<T>(s: seq<T>, t: seq<T>, i: nat, j: nat)
    requires i == j && i < |s| && i < |t| && s[..i] == t[..i]
    ensures s[i := t[i]][..i + 1] == t[..i + 1]
  {
  }

  /** A full array shifted up to the hole and filled there is the one with an entry inserted, cut to size; the
      old last entry falls out. */
  lemma ShiftedOverflow<T>(s0: seq<T>, s: seq<T>, hole: nat, x: T)
    requires |s0| > 0 && Shifted(s0, s, hole, |s0| - 1, hole) && hole < |s0|
    ensures s[hole := x] == InsertAt(s0, hole, x)[..|s0|] && InsertAt(s0, hole, x)[|s0|] == s0[|s0| - 1]
  {
    var t, u := InsertAt(s0, hole, x), s[hole := x];
    forall j | 0 <= j < |s0| ensures u[j] == t[j] {
      if j > hole { assert s[j] == s0[j - 1]; }
    }
    assert u == t[..|s0|];
  }

  lemma InsertedLast<T>(s: seq<T>, x: T)
    ensures InsertAt(s, |s|, x)[..|s|] == s && InsertAt(s, |s|, x)[|s|] == x
  {
  }

  lemma FullNode(b: Block)
    requires ChildCount(b) == MAX_CHILDREN
    ensures NodeOf(b) == Node(Seps(b), Kids(b))
  {
  }

  /** A page whose arrays have the split inserted is the directory that absorbed it. */
  lemma AbsorbedNode(b: Block, w: Block, idx: nat, split: Split)
    requires DirOk(b) && NodeOk(NodeOf(b)) && ChildCount(b) < MAX_CHILDREN && ChildCount(w) == ChildCount(b) + 1
    requires idx == Rank(NodeOf(b).seps, split.record)
    requires Seps(w)[..ChildCount(b)] == InsertAt(Seps(b)[..ChildCount(b) - 1], idx, split.record)
    requires Kids(w)[..ChildCount(b) + 1] == InsertAt(Kids(b)[..ChildCount(b)], idx + 1, split.page)
    ensures DirOk(w) && NodeOf(w) == Absorb(NodeOf(b), idx, split.record, split.page) && NodeOk(NodeOf(w))
  {
    hide Rank, RecLess, Seps, Kids;
    AbsorbSorted(NodeOf(b), split.record);
  }

  lemma ShiftNothing<T>(s: seq<T>, hi: nat, hole: nat)
    requires hole <= hi < |s|
    ensures Shifted(s, s, hi, hi, hole)
  {
  }
}
