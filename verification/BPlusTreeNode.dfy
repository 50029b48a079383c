/** The bytes of B+ tree pages and what they mean (src/storage/b_plus_tree/b_plus_tree_utils.h,
    b_plus_tree_dir.h, b_plus_tree_leaf.h). A directory page is a child count, an array of child pointers
    and an array of separating records; a leaf page is a record count, the number of the next leaf and an
    array of records. */
module BPlusTreeNodes {
  import opened Bytes
  import opened HeapModel

  datatype Rec = Rec(key: int64, rid: RID)

  predicate RecLess(a: Rec, b: Rec) {
    a.key < b.key || (a.key == b.key && RidLess(a.rid, b.rid))
  }

  lemma RecOrder(a: Rec, b: Rec, c: Rec)
    ensures !RecLess(a, a)
    ensures RecLess(a, b) && RecLess(b, c) ==> RecLess(a, c)
    ensures a != b ==> RecLess(a, b) || RecLess(b, a)
    ensures !(RecLess(a, b) && RecLess(b, a))
    ensures !RecLess(b, a) && RecLess(b, c) ==> RecLess(a, c)
    ensures RecLess(a, b) && !RecLess(c, b) ==> RecLess(a, c)
  {
  }

  // ---------- records in a page ----------

  function EncRec(r: Rec): (s: seq<byte>)
    ensures |s| == 16
  {
    Enc64(r.key) + (Enc32(r.rid.page) + Enc32(r.rid.slot))
  }

  function GetRec(b: seq<byte>, off: nat): Rec
    requires off + 16 <= |b|
  {
    Rec(Get64(b, off), RID(Get32(b, off + 8), Get32(b, off + 12)))
  }

  lemma GetRecOfEnc(b: seq<byte>, off: nat, r: Rec)
    requires off + 16 <= |b| && b[off..off + 16] == EncRec(r)
    ensures GetRec(b, off) == r
  {
    hide Dec32, Dec64;
    SliceOfThree(Enc64(r.key), Enc32(r.rid.page), Enc32(r.rid.slot));
    SliceOfSlice(b, off, off + 16, 0, 8);
    SliceOfSlice(b, off, off + 16, 8, 12);
    SliceOfSlice(b, off, off + 16, 12, 16);
  }

  lemma GetRecSame(b: seq<byte>, b': seq<byte>, off: nat)
    requires off + 16 <= |b| == |b'| && b'[off..off + 16] == b[off..off + 16]
    ensures GetRec(b', off) == GetRec(b, off)
  {
    hide Dec32, Dec64;
    SliceOfSlice(b, off, off + 16, 0, 8);
    SliceOfSlice(b, off, off + 16, 8, 12);
    SliceOfSlice(b, off, off + 16, 12, 16);
    SliceOfSlice(b', off, off + 16, 0, 8);
    SliceOfSlice(b', off, off + 16, 8, 12);
    SliceOfSlice(b', off, off + 16, 12, 16);
  }

  /** Record (1, RID(2, 3)): the key, the page, the slot. */
  lemma RecBytes()
    ensures EncRec(Rec(1, RID(2, 3))) == [1, 0, 0, 0, 0, 0, 0, 0] + ([2, 0, 0, 0] + [3, 0, 0, 0])
  {
    hide Enc64, Enc32;
    SmallBytes(1);
    NumberBytes(2, 2, 0);
    NumberBytes(3, 3, 0);
  }

  /** The records of a page are as many as fit. */
  lemma Capacities()
    ensures MAX_CHILDREN == MAX_RECORDS + 1 && OFFSET_RECORD == 4 + 4 * MAX_CHILDREN
    ensures OFFSET_RECORD + 16 * MAX_RECORDS <= SIZE < 4 + 4 * (MAX_CHILDREN + 1) + 16 * (MAX_RECORDS + 1)
    ensures 8 + 16 * LEAF_MAX <= SIZE < 8 + 16 * (LEAF_MAX + 1)
  {
  }

  // ---------- directory pages ----------

  const MAX_RECORDS := 204
  const MAX_CHILDREN := 205
  const OFFSET_CHILDREN := 4
  const OFFSET_RECORD := 824

  function ChildCount(b: Block): int32 {
    Get32(b, 0)
  }

  function Child(b: Block, i: nat): int32
    requires i < MAX_CHILDREN
  {
    Get32(b, OFFSET_CHILDREN + 4 * i)
  }

  /** The slot before the first record overlaps the last children: reading it is harmless but meaningless. */
  function Sep(b: Block, i: int): Rec
    requires -1 <= i < MAX_RECORDS
  {
    GetRec(b, OFFSET_RECORD + 16 * i)
  }

  /** The whole child array, used or not. */
  function Kids(b: Block): (s: seq<int32>)
    ensures |s| == MAX_CHILDREN && forall i :: 0 <= i < |s| ==> s[i] == Child(b, i)
  {
    seq(MAX_CHILDREN, i requires 0 <= i < MAX_CHILDREN => Child(b, i))
  }

  /** The whole record array, used or not. */
  function Seps(b: Block): (s: seq<Rec>)
    ensures |s| == MAX_RECORDS && forall i :: 0 <= i < |s| ==> s[i] == Sep(b, i)
  {
    seq(MAX_RECORDS, i requires 0 <= i < MAX_RECORDS => Sep(b, i))
  }

  /** The accessors refine two independent arrays and a count: each setter changes one entry of one of them. */
  lemma SetChild(b: Block, i: nat, c: int32)
    requires i < MAX_CHILDREN
    ensures var w := Put(b, OFFSET_CHILDREN + 4 * i, Enc32(c));
            ChildCount(w) == ChildCount(b) && Kids(w) == Kids(b)[i := c] && Seps(w) == Seps(b)
  {
    hide Dec32, Put, Enc32, Sep;
    var w := Put(b, OFFSET_CHILDREN + 4 * i, Enc32(c));
    assert w[0..4] == b[0..4];
    forall j | 0 <= j < MAX_CHILDREN ensures Child(w, j) == Kids(b)[i := c][j] {
      if j != i {
        assert w[OFFSET_CHILDREN + 4 * j..OFFSET_CHILDREN + 4 * j + 4] ==
              b[OFFSET_CHILDREN + 4 * j..OFFSET_CHILDREN + 4 * j + 4];
      }
    }
    forall j | 0 <= j < MAX_RECORDS ensures Sep(w, j) == Sep(b, j) {
      SepSame(b, w, j);
    }
  }

  lemma SepSame(b: Block, w: Block, j: nat)
    requires j < MAX_RECORDS
    requires w[OFFSET_RECORD + 16 * j..OFFSET_RECORD + 16 * j + 16] ==
              b[OFFSET_RECORD + 16 * j..OFFSET_RECORD + 16 * j + 16]
    ensures Sep(w, j) == Sep(b, j)
  {
    GetRecSame(b, w, OFFSET_RECORD + 16 * j);
  }

  lemma SetSep(b: Block, i: nat, r: Rec)
    requires i < MAX_RECORDS
    ensures var w := Put(b, OFFSET_RECORD + 16 * i, EncRec(r));
            ChildCount(w) == ChildCount(b) && Kids(w) == Kids(b) && Seps(w) == Seps(b)[i := r]
  {
    hide Dec32, Put, EncRec, Sep;
    var w := Put(b, OFFSET_RECORD + 16 * i, EncRec(r));
    assert w[0..4] == b[0..4];
    forall j | 0 <= j < MAX_CHILDREN ensures Child(w, j) == Child(b, j) {
      assert w[OFFSET_CHILDREN + 4 * j..OFFSET_CHILDREN + 4 * j + 4] ==
            b[OFFSET_CHILDREN + 4 * j..OFFSET_CHILDREN + 4 * j + 4];
    }
    forall j | 0 <= j < MAX_RECORDS ensures Sep(w, j) == Seps(b)[i := r][j] {
      if j == i {
        SepSet(w, i, r);
      } else {
        SepSame(b, w, j);
      }
    }
  }

  lemma SepSet(w: Block, i: nat, r: Rec)
    requires i < MAX_RECORDS && w[OFFSET_RECORD + 16 * i..OFFSET_RECORD + 16 * i + 16] == EncRec(r)
    ensures Sep(w, i) == r
  {
    GetRecOfEnc(w, OFFSET_RECORD + 16 * i, r);
  }

  lemma SetCount(b: Block, n: int32)
    ensures var w := Put(b, 0, Enc32(n));
            ChildCount(w) == n && Kids(w) == Kids(b) && Seps(w) == Seps(b)
  {
    hide Dec32, Put, Enc32, Sep;
    var w := Put(b, 0, Enc32(n));
    forall j | 0 <= j < MAX_CHILDREN ensures Child(w, j) == Child(b, j) {
      assert w[OFFSET_CHILDREN + 4 * j..OFFSET_CHILDREN + 4 * j + 4] ==
            b[OFFSET_CHILDREN + 4 * j..OFFSET_CHILDREN + 4 * j + 4];
    }
    forall j | 0 <= j < MAX_RECORDS ensures Sep(w, j) == Sep(b, j) {
      SepSame(b, w, j);
    }
  }

  /** A directory: n separators between n + 1 children. */
  datatype Node = Node(seps: seq<Rec>, kids: seq<int32>)

  predicate DirOk(b: Block) {
    1 <= ChildCount(b) <= MAX_CHILDREN
  }

  function NodeOf(b: Block): (n: Node)
    requires DirOk(b)
    ensures |n.kids| == ChildCount(b) == |n.seps| + 1
  {
    Node(Seps(b)[..ChildCount(b) - 1], Kids(b)[..ChildCount(b)])
  }

  /** A directory of two children, byte by byte. */
  lemma TwoChildrenBytes(b: Block, p: int32, q: int32, r: Rec)
    requires b[0..4] == [2, 0, 0, 0] && b[4..8] == Enc32(p) && b[8..12] == Enc32(q) && b[824..840] == EncRec(r)
    ensures DirOk(b) && NodeOf(b) == Node([r], [p, q])
  {
    hide Dec32, Enc32, GetRec, EncRec;
    Dec32Bytes([2, 0, 0, 0]);
    GetRecOfEnc(b, 824, r);
    assert Seps(b)[..1] == [Sep(b, 0)] && Kids(b)[..2] == [Child(b, 0), Child(b, 1)];
  }

  // ---------- leaf pages ----------

  const LEAF_MAX := 255
  const OFFSET_RECORDS := 8

  function RecordCount(b: Block): int32 {
    Get32(b, 0)
  }

  function NextLeaf(b: Block): int32 {
    Get32(b, 4)
  }

  function LeafRec(b: Block, i: nat): Rec
    requires i < LEAF_MAX
  {
    GetRec(b, OFFSET_RECORDS + 16 * i)
  }

  /** The whole record array of a leaf, used or not. */
  function LeafSlots(b: Block): (s: seq<Rec>)
    ensures |s| == LEAF_MAX && forall i :: 0 <= i < |s| ==> s[i] == LeafRec(b, i)
  {
    seq(LEAF_MAX, i requires 0 <= i < LEAF_MAX => LeafRec(b, i))
  }

  function LeafRecs(b: Block): seq<Rec> {
    if 0 <= RecordCount(b) <= LEAF_MAX then LeafSlots(b)[..RecordCount(b)] else []
  }

  /** A leaf of two records, byte by byte. */
  lemma TwoRecordsBytes(b: Block, next: int32, r: Rec, s: Rec)
    requires b[0..4] == [2, 0, 0, 0] && b[4..8] == Enc32(next) && b[8..24] == EncRec(r) && b[24..40] == EncRec(s)
    ensures NextLeaf(b) == next && LeafRecs(b) == [r, s]
  {
    hide Dec32, Enc32, GetRec, EncRec;
    Dec32Bytes([2, 0, 0, 0]);
    GetRecOfEnc(b, 8, r);
    GetRecOfEnc(b, 24, s);
    assert LeafSlots(b)[..2] == [LeafRec(b, 0), LeafRec(b, 1)];
  }

  predicate Increasing(rs: seq<Rec>) {
    forall i, j :: 0 <= i < j < |rs| ==> RecLess(rs[i], rs[j])
  }

  predicate LeafOk(b: Block) {
    0 <= RecordCount(b) <= LEAF_MAX && 0 <= NextLeaf(b) && Increasing(LeafRecs(b))
  }

  lemma LeafCount(b: Block)
    requires LeafOk(b)
    ensures |LeafRecs(b)| == RecordCount(b) <= LEAF_MAX && NextLeaf(b) >= 0 && Increasing(LeafRecs(b))
  {
  }

  /** A leaf may be full. */
  lemma FullLeaf(b: Block)
    requires RecordCount(b) == 255 && 0 <= NextLeaf(b) && Increasing(LeafSlots(b))
    ensures LeafOk(b) && LeafRecs(b) == LeafSlots(b)
  {
  }

  lemma LeafRecAt(b: Block, i: nat)
    requires i < |LeafRecs(b)|
    ensures i < LEAF_MAX && LeafRecs(b)[i] == LeafSlots(b)[i]
  {
  }

  lemma SetLeafRec(b: Block, i: nat, r: Rec)
    requires i < LEAF_MAX
    ensures var w := Put(b, OFFSET_RECORDS + 16 * i, EncRec(r));
            RecordCount(w) == RecordCount(b) && NextLeaf(w) == NextLeaf(b) && LeafSlots(w) == LeafSlots(b)[i := r]
  {
    hide Dec32, Put, EncRec, GetRec;
    var w := Put(b, OFFSET_RECORDS + 16 * i, EncRec(r));
    assert w[0..4] == b[0..4] && w[4..8] == b[4..8];
    forall j | 0 <= j < LEAF_MAX ensures LeafRec(w, j) == LeafSlots(b)[i := r][j] {
      if j == i {
        GetRecOfEnc(w, OFFSET_RECORDS + 16 * i, r);
      } else {
        GetRecSame(b, w, OFFSET_RECORDS + 16 * j);
      }
    }
  }

  lemma SetLeafCount(b: Block, n: int32)
    ensures var w := Put(b, 0, Enc32(n));
            RecordCount(w) == n && NextLeaf(w) == NextLeaf(b) && LeafSlots(w) == LeafSlots(b)
  {
    hide Dec32, Put, Enc32, GetRec;
    var w := Put(b, 0, Enc32(n));
    assert w[4..8] == b[4..8];
    forall j | 0 <= j < LEAF_MAX ensures LeafRec(w, j) == LeafRec(b, j) {
      GetRecSame(b, w, OFFSET_RECORDS + 16 * j);
    }
  }
}
