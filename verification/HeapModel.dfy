/** What a heap file means: its pages' tables, a partial map from record identifiers to records, and the
    order in which a scan lists them. */
module HeapModel {
  import opened Bytes
  import opened Values
  import opened SlottedPages

  datatype RID = RID(page: int32, slot: int32)

  predicate RidLess(a: RID, b: RID) {
    a.page < b.page || (a.page == b.page && a.slot < b.slot)
  }

  type Heap = seq<Table>

  function HeapOf(pages: seq<Block>, ts: Schema): (h: Heap)
    ensures |h| == |pages| && forall p :: 0 <= p < |h| ==> h[p] == TableOf(pages[p], ts)
  {
    seq(|pages|, p requires 0 <= p < |pages| => TableOf(pages[p], ts))
  }

  predicate HeapLaid(pages: seq<Block>, ts: Schema) {
    forall p :: 0 <= p < |pages| ==> Layout(pages[p], ts)
  }

  function Lookup(h: Heap, rid: RID): Option<Row> {
    if 0 <= rid.page < |h| && 0 <= rid.slot < |h[rid.page]| then h[rid.page][rid.slot] else None
  }

  /** h' is h with row in slot s of page p: a free slot of an existing page, or the first of a new page. */
  predicate Inserted(h: Heap, h': Heap, p: nat, s: nat, row: Row) {
    if p < |h| then
      s == FreeSlot(h[p]) && h' == h[p := WithRow(h[p], s, row)]
    else
      p == |h| && s == 0 && h' == h + [[Some(row)]]
  }

  /** Insertion as a step of a map: a free identifier gains the record, every other one keeps what it had. */
  lemma InsertedMap(h: Heap, h': Heap, p: nat, s: nat, row: Row)
    requires Inserted(h, h', p, s, row) && p < 0x8000_0000 && s < 0x8000_0000
    ensures Lookup(h, RID(p, s)) == None && Lookup(h', RID(p, s)) == Some(row)
    ensures forall rid :: rid != RID(p, s) ==> Lookup(h', rid) == Lookup(h, rid)
  {
    forall rid | rid != RID(p, s) ensures Lookup(h', rid) == Lookup(h, rid) {
      if p == |h| && rid.page == p {
        assert h'[p] == [Some(row)];
      }
    }
  }

  // ---------- scanning ----------

  datatype Entry = Entry(rid: RID, row: Row)

  predicate Narrow(h: Heap) {
    |h| < 0x8000_0000 && forall p :: 0 <= p < |h| ==> |h[p]| < 0x8000_0000
  }

  /** The live records of the first `total` pages from slot s of page p on, in order of their identifiers. */
  function ScanFrom(h: Heap, p: nat, s: nat, total: nat): seq<Entry>
    requires total <= |h| && Narrow(h)
    decreases total - p, if p < total then |h[p]| - s else 0
  {
    if p >= total then []
    else if s >= |h[p]| then ScanFrom(h, p + 1, 0, total)
    else Here(h, p, s) + ScanFrom(h, p, s + 1, total)
  }

  /** The record of one slot, if it is live. */
  function Here(h: Heap, p: nat, s: nat): seq<Entry>
    requires Narrow(h) && p < |h| && s < |h[p]|
  {
    if h[p][s].Some? then [Entry(RID(p, s), h[p][s].value)] else []
  }

  function Scan(h: Heap): seq<Entry>
    requires Narrow(h)
  {
    ScanFrom(h, 0, 0, |h|)
  }

  predicate NotBefore(rid: RID, p: nat, s: nat) {
    rid.page > p || (rid.page == p && rid.slot >= s)
  }

  lemma HereExact(h: Heap, p: nat, s: nat, e: Entry)
    requires Narrow(h) && p < |h| && s < |h[p]|
    ensures e in Here(h, p, s) <==> Lookup(h, e.rid) == Some(e.row) && e.rid.page == p && e.rid.slot == s
    ensures NotBefore(e.rid, p, s) <==> NotBefore(e.rid, p, s + 1) || (e.rid.page == p && e.rid.slot == s)
  {
  }

  /** One entry belongs to a scan from slot s of page p. */
  predicate Due(h: Heap, p: nat, s: nat, total: nat, e: Entry) {
    Lookup(h, e.rid) == Some(e.row) && NotBefore(e.rid, p, s) && e.rid.page < total
  }

  lemma {:induction false} ScanFromExact(h: Heap, p: nat, s: nat, total: nat, e: Entry)
    requires total <= |h| && Narrow(h)
    ensures e in ScanFrom(h, p, s, total) <==> Due(h, p, s, total, e)
    decreases total - p, if p < total then |h[p]| - s else 0
  {
    hide Due, Here;
    if p >= total {
      DueNever(h, p, s, total, e);
    } else if s >= |h[p]| {
      ScanFromExact(h, p + 1, 0, total, e);
      DuePast(h, p, s, total, e);
    } else {
      ScanFromExact(h, p, s + 1, total, e);
      DueHere(h, p, s, total, e);
    }
  }

  lemma DueNever(h: Heap, p: nat, s: nat, total: nat, e: Entry)
    requires p >= total
    ensures !Due(h, p, s, total, e)
  {
  }

  lemma DueHere(h: Heap, p: nat, s: nat, total: nat, e: Entry)
    requires Narrow(h) && total <= |h| && p < total && s < |h[p]|
    ensures Due(h, p, s, total, e) <==> e in Here(h, p, s) || Due(h, p, s + 1, total, e)
  {
    HereExact(h, p, s, e);
  }

  lemma DuePast(h: Heap, p: nat, s: nat, total: nat, e: Entry)
    requires total <= |h| && p < total && s >= |h[p]|
    ensures Due(h, p, s, total, e) <==> Due(h, p + 1, 0, total, e)
  {
    LookupPast(h, p, s, e.rid);
  }

  /** No record of page p stands at or after its last slot. */
  lemma LookupPast(h: Heap, p: nat, s: nat, rid: RID)
    requires p < |h| && s >= |h[p]|
    ensures Lookup(h, rid).Some? ==> (NotBefore(rid, p, s) <==> NotBefore(rid, p + 1, 0))
  {
  }

  predicate InOrder(es: seq<Entry>) {
    forall i, j :: 0 <= i < j < |es| ==> RidLess(es[i].rid, es[j].rid)
  }

  lemma HereFirst(h: Heap, p: nat, s: nat, es: seq<Entry>)
    requires Narrow(h) && p < |h| && s < |h[p]|
    requires InOrder(es) && forall i :: 0 <= i < |es| ==> NotBefore(es[i].rid, p, s + 1)
    ensures InOrder(Here(h, p, s) + es)
  {
  }

  lemma {:induction false} ScanFromSorted(h: Heap, p: nat, s: nat, total: nat)
    requires total <= |h| && Narrow(h)
    ensures InOrder(ScanFrom(h, p, s, total))
    decreases total - p, if p < total then |h[p]| - s else 0
  {
    hide Here, InOrder, Lookup, NotBefore;
    if p >= total {
      NoneInOrder();
    } else if s >= |h[p]| {
      ScanFromSorted(h, p + 1, 0, total);
    } else {
      ScanFromSorted(h, p, s + 1, total);
      var es := ScanFrom(h, p, s + 1, total);
      forall i | 0 <= i < |es| ensures NotBefore(es[i].rid, p, s + 1) {
        ScanFromExact(h, p, s + 1, total, es[i]);
      }
      HereFirst(h, p, s, es);
    }
  }

  lemma NoneInOrder()
    ensures InOrder([])
  {
  }

  /** A scan lists exactly the live records, each once, in increasing order of their identifiers. */
  lemma ScanExact(h: Heap)
    requires Narrow(h)
    ensures InOrder(Scan(h))
    ensures forall e :: e in Scan(h) <==> Lookup(h, e.rid) == Some(e.row)
  {
    ScanFromSorted(h, 0, 0, |h|);
    forall e ensures e in Scan(h) <==> Lookup(h, e.rid) == Some(e.row) {
      ScanFromExact(h, 0, 0, |h|, e);
    }
  }

  /** The rows of a scan, without their identifiers. */
  function AllRows(h: Heap): seq<Row> {
    if h == [] then [] else Live(h[0]) + AllRows(h[1..])
  }

  /** Every page compacted. */
  function Vacuumed(h: Heap): (h': Heap)
    ensures |h'| == |h|
  {
    seq(|h|, p requires 0 <= p < |h| => Full(Live(h[p])))
  }

  /** Vacuuming keeps the records a scan lists, and their order. */
  lemma {:induction false} VacuumKeepsRows(h: Heap)
    ensures AllRows(Vacuumed(h)) == AllRows(h)
  {
    if h != [] {
      VacuumKeepsRows(h[1..]);
      LiveOfFull(Live(h[0]));
      assert Vacuumed(h)[1..] == Vacuumed(h[1..]);
    }
  }

  function RowsOf(es: seq<Entry>): seq<Row> {
    if es == [] then [] else [es[0].row] + RowsOf(es[1..])
  }

  lemma {:induction false} RowsOfConcat(a: seq<Entry>, b: seq<Entry>)
    ensures RowsOf(a + b) == RowsOf(a) + RowsOf(b)
  {
    if a == [] {
      assert a + b == b;
    } else {
      RowsOfConcat(a[1..], b);
      assert (a + b)[1..] == a[1..] + b;
      Associative([a[0].row], RowsOf(a[1..]), RowsOf(b));
    }
  }

  lemma RowsOfHere(h: Heap, p: nat, s: nat)
    requires Narrow(h) && p < |h| && s < |h[p]|
    ensures Live(h[p][s..]) == RowsOf(Here(h, p, s)) + Live(h[p][s + 1..])
  {
    assert h[p][s..][1..] == h[p][s + 1..] && h[p][s..][0] == h[p][s];
  }

  lemma {:induction false} ScanFromRows(h: Heap, p: nat, s: nat)
    requires Narrow(h) && p < |h| && s <= |h[p]|
    ensures RowsOf(ScanFrom(h, p, s, |h|)) == Live(h[p][s..]) + AllRows(h[p + 1..])
    decreases |h| - p, |h[p]| - s
  {
    hide Here, Live, AllRows;
    if s < |h[p]| {
      ScanFromRows(h, p, s + 1);
      RowsOfConcat(Here(h, p, s), ScanFrom(h, p, s + 1, |h|));
      RowsOfHere(h, p, s);
      Associative(RowsOf(Here(h, p, s)), Live(h[p][s + 1..]), AllRows(h[p + 1..]));
    } else {
      LiveNothing(h[p][s..]);
      if p + 1 < |h| {
        ScanFromRows(h, p + 1, 0);
        AllRowsFrom(h, p + 1);
      } else {
        AllRowsNothing(h[p + 1..]);
      }
    }
  }

  lemma LiveNothing(t: Table)
    requires |t| == 0
    ensures Live(t) == []
  {
  }

  lemma AllRowsNothing(h: Heap)
    requires |h| == 0
    ensures AllRows(h) == []
  {
  }

  lemma AllRowsFrom(h: Heap, p: nat)
    requires p < |h|
    ensures AllRows(h[p..]) == Live(h[p][0..]) + AllRows(h[p + 1..])
  {
    assert h[p..][1..] == h[p + 1..] && h[p..][0] == h[p] && h[p][0..] == h[p];
  }

  lemma ScanRows(h: Heap)
    requires Narrow(h)
    ensures RowsOf(Scan(h)) == AllRows(h)
  {
    if h != [] {
      ScanFromRows(h, 0, 0);
      AllRowsFrom(h, 0);
      assert h[0..] == h;
    }
  }

  /** A scan after vacuuming every page lists the same records in the same order as before. */
  lemma VacuumKeepsScan(h: Heap)
    requires Narrow(h) && Narrow(Vacuumed(h))
    ensures RowsOf(Scan(Vacuumed(h))) == RowsOf(Scan(h))
  {
    ScanRows(h);
    ScanRows(Vacuumed(h));
    VacuumKeepsRows(h);
  }

  // ---------- one step of a scan ----------

  lemma ScanSkipsPage(h: Heap, p: nat, s: nat, total: nat)
    requires total <= |h| && Narrow(h) && p < total && s >= |h[p]|
    ensures ScanFrom(h, p, s, total) == ScanFrom(h, p + 1, 0, total)
  {
  }

  lemma ScanSlot(h: Heap, p: nat, s: nat, total: nat)
    requires total <= |h| && Narrow(h) && p < total && s < |h[p]|
    ensures ScanFrom(h, p, s, total) == Here(h, p, s) + ScanFrom(h, p, s + 1, total)
  {
  }

  /** A page without slots adds nothing to a scan. */
  lemma ScanOfEmptyPage(h: Heap)
    requires |h| == 1 && |h[0]| == 0
    ensures Narrow(h) && Scan(h) == []
  {
    assert ScanFrom(h, 0, 0, 1) == ScanFrom(h, 1, 0, 1);
  }

  // ---------- a scan that believes the file is shorter ----------

  lemma {:induction false} ScanSplit(h: Heap, p: nat, s: nat, total: nat)
    requires total <= |h| && Narrow(h) && (p < total || (p == total && s == 0))
    ensures ScanFrom(h, p, s, |h|) == ScanFrom(h, p, s, total) + ScanFrom(h, total, 0, |h|)
    decreases total - p, if p < total then |h[p]| - s else 0
  {
    hide Here;
    if p < total {
      if s >= |h[p]| {
        ScanSplit(h, p + 1, 0, total);
      } else {
        ScanSplit(h, p, s + 1, total);
        Associative(Here(h, p, s), ScanFrom(h, p, s + 1, total), ScanFrom(h, total, 0, |h|));
      }
    }
  }

  /** A scan of the first `total` pages lists all live records exactly when no later page has one. */
  lemma StaleScan(h: Heap, total: nat)
    requires total <= |h| && Narrow(h)
    ensures ScanFrom(h, 0, 0, total) == Scan(h) <==> forall rid: RID :: rid.page >= total ==> Lookup(h, rid) == None
  {
    var late := ScanFrom(h, total, 0, |h|);
    ScanSplit(h, 0, 0, total);
    if late == [] {
      forall rid: RID | rid.page >= total ensures Lookup(h, rid) == None {
        if Lookup(h, rid).Some? {
          ScanFromExact(h, total, 0, |h|, Entry(rid, Lookup(h, rid).value));
        }
      }
    } else {
      ScanFromExact(h, total, 0, |h|, late[0]);
      assert late[0].rid.page >= total && Lookup(h, late[0].rid).Some?;
    }
  }

  /** A record such a scan misses: the file had one page without records when the scan was made, and a second
      page came since. */
  lemma MissedRecord(row: Row)
    ensures var h := [[], [Some(row)]];
            Narrow(h) && ScanFrom(h, 0, 0, 1) == [] && Scan(h) == [Entry(RID(1, 0), row)]
  {
    var h: Heap := [[], [Some(row)]];
    assert h[1][0] == Some(row);
    assert ScanFrom(h, 1, 0, 1) == [] && ScanFrom(h, 2, 0, 2) == [];
    assert ScanFrom(h, 1, 1, 2) == ScanFrom(h, 2, 0, 2);
    assert ScanFrom(h, 1, 0, 2) == Here(h, 1, 0) + ScanFrom(h, 1, 1, 2);
  }
}
