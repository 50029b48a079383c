/** The bytes of a heap file page (src/storage/heap_file/heap_file_page.cc). A page starts with the number of
    directory slots and the free space, then the slots, which grow upwards; the records grow downwards from
    the end of the page. A slot is the offset of its record, or -1 once its record is deleted.
    TableOf(b) is what a page means: its slots in order, each a record or nothing. */
module SlottedPages {
  import opened Bytes
  import opened Values

  function DirCount(b: Block): int32 {
    Get32(b, 0)
  }

  function FreeSpace(b: Block): int32 {
    Get32(b, 4)
  }

  function Slot(b: Block, i: nat): int32
    requires 8 + 4 * i + 4 <= SIZE
  {
    Get32(b, 8 + 4 * i)
  }

  /** Where the records start: the directory and the free space end here. */
  function Start(b: Block): int {
    8 + 4 * DirCount(b) + FreeSpace(b)
  }

  type Table = seq<Option<Row>>

  function RowAt(b: Block, ts: Schema, i: nat): Option<Row>
    requires 8 + 4 * i + 4 <= SIZE
  {
    if Slot(b, i) <= 0 then None
    else match Parse(b, Slot(b, i), ts)
      case Bad => None
      case Parsed(row, _) => Some(row)
  }

  function TableOf(b: Block, ts: Schema): Table {
    if DirCount(b) < 0 || 8 + 4 * DirCount(b) > SIZE then []
    else seq(DirCount(b), i requires 0 <= i < DirCount(b) => RowAt(b, ts, i))
  }

  function SizeOf(o: Option<Row>): nat {
    if o.None? then 0 else |Enc(o.value)|
  }

  /** Bytes of all live records. */
  function LiveSize(t: Table): nat {
    if t == [] then 0 else SizeOf(t[0]) + LiveSize(t[1..])
  }

  predicate Bounds(b: Block) {
    0 <= DirCount(b) && 0 <= FreeSpace(b) && 8 + 5 * DirCount(b) + FreeSpace(b) <= SIZE
  }

  /** Slot i is deleted, or the offset of a whole record in the record area. */
  predicate SlotOk(b: Block, ts: Schema, i: nat)
    requires 8 + 4 * i + 4 <= SIZE
  {
    Slot(b, i) == -1 || (Start(b) <= Slot(b, i) < SIZE && Slot(b, i) > 0 && Parse(b, Slot(b, i), ts).Parsed?)
  }

  /** The records of slots i and j do not overlap. */
  predicate Apart(b: Block, ts: Schema, i: nat, j: nat)
    requires 8 + 4 * i + 4 <= SIZE && 8 + 4 * j + 4 <= SIZE
  {
    RowAt(b, ts, i).Some? && RowAt(b, ts, j).Some? ==>
      || Slot(b, i) + |Enc(RowAt(b, ts, i).value)| <= Slot(b, j)
      || Slot(b, j) + |Enc(RowAt(b, ts, j).value)| <= Slot(b, i)
  }

  /** What every page of a heap file keeps. */
  predicate Layout(b: Block, ts: Schema) {
    && Bounds(b)
    && (DirCount(b) == 0 ==> FreeSpace(b) == SIZE - 8)
    && (forall i :: 0 <= i < DirCount(b) ==> SlotOk(b, ts, i))
    && (forall i, j :: 0 <= i < j < DirCount(b) ==> Apart(b, ts, i, j))
    && Start(b) + LiveSize(TableOf(b, ts)) <= SIZE
  }

  /** No byte belongs to two records, and none outside the record area belongs to one. */
  lemma RecordsApart(b: Block, ts: Schema, i: nat, j: nat, k: int)
    requires Layout(b, ts) && i < j < DirCount(b) && RowAt(b, ts, i).Some? && RowAt(b, ts, j).Some?
    ensures var inI := Slot(b, i) <= k < Slot(b, i) + |Enc(RowAt(b, ts, i).value)|;
            var inJ := Slot(b, j) <= k < Slot(b, j) + |Enc(RowAt(b, ts, j).value)|;
            !(inI && inJ) && (inI || inJ ==> 8 + 4 * DirCount(b) + FreeSpace(b) <= k < SIZE)
  {
    hide Enc, Parse, LiveSize, TableOf;
    assert Apart(b, ts, i, j) && SlotOk(b, ts, i) && SlotOk(b, ts, j);
    EncOfParse(b, Slot(b, i), ts);
    EncOfParse(b, Slot(b, j), ts);
  }

  // ---------- storing a record in slot i ----------

  /** What storing row in slot i of b leaves behind; i is a deleted slot or the first one past the directory. */
  predicate Stored(b: Block, b': Block, i: nat, row: Row)
    requires Bounds(b) && i <= DirCount(b)
  {
    var dc := if i == DirCount(b) then i + 1 else DirCount(b);
    var off := Start(b) - |Enc(row)|;
    && off >= 8 + 4 * dc
    && DirCount(b') == dc && FreeSpace(b') == off - 8 - 4 * dc && Slot(b', i) == off
    && HoldsAt(b', off, Enc(row))
    && (forall j :: 0 <= j < DirCount(b) && j != i ==> Slot(b', j) == Slot(b, j))
    && b'[Start(b)..] == b[Start(b)..]
  }

  lemma SliceOfTail<T>(s: seq<T>, start: nat, i: nat, j: nat)
    requires start <= i <= j <= |s|
    ensures s[i..j] == s[start..][i - start..j - start]
  {
  }

  /** A record outside the changed bytes reads back the same. */
  lemma ParseMoves(b: Block, b': Block, start: nat, off: nat, ts: Schema)
    requires start <= off <= SIZE && b'[start..] == b[start..] && Parse(b, off, ts).Parsed?
    ensures Parse(b', off, ts) == Parse(b, off, ts)
    ensures off + |Enc(Parse(b, off, ts).row)| <= SIZE
  {
    hide Parse, Enc;
    var p := Parse(b, off, ts);
    EncOfParse(b, off, ts);
    SliceOfTail(b, start, off, p.end);
    SliceOfTail(b', start, off, p.end);
    ParseOfEnc(b', off, p.row, ts);
  }

  lemma {:induction false} LiveSizeUpdate(t: Table, i: nat, o: Option<Row>)
    requires i < |t|
    ensures LiveSize(t[i := o]) == LiveSize(t) - SizeOf(t[i]) + SizeOf(o)
    decreases i
  {
    hide SizeOf;
    var u := t[i := o];
    if i == 0 {
      assert u[1..] == t[1..];
    } else {
      LiveSizeUpdate(t[1..], i - 1, o);
      assert u[1..] == t[1..][i - 1 := o];
    }
  }

  lemma {:induction false} LiveSizeAppend(t: Table, o: Option<Row>)
    ensures LiveSize(t + [o]) == LiveSize(t) + SizeOf(o)
  {
    hide SizeOf;
    if t == [] {
      assert (t + [o])[1..] == [];
    } else {
      LiveSizeAppend(t[1..], o);
      assert (t + [o])[1..] == t[1..] + [o];
    }
  }

  /** The record stored reads back. */
  lemma StoredRow(b: Block, b': Block, ts: Schema, i: nat, row: Row)
    requires Bounds(b) && i <= DirCount(b) && HasSchema(row, ts) && ts != [] && Stored(b, b', i, row)
    ensures Bounds(b') && Start(b') == Slot(b', i) && Slot(b', i) + |Enc(row)| == Start(b)
    ensures SlotOk(b', ts, i) && RowAt(b', ts, i) == Some(row)
  {
    hide Parse, Enc;
    ParseOfEnc(b', Start(b) - |Enc(row)|, row, ts);
  }

  /** The other records read back as before. */
  lemma StoredOther(b: Block, b': Block, ts: Schema, i: nat, row: Row, j: nat)
    requires Bounds(b) && i <= DirCount(b) && Stored(b, b', i, row) && j < DirCount(b) && j != i && SlotOk(b, ts, j)
    ensures Slot(b', j) == Slot(b, j) && RowAt(b', ts, j) == RowAt(b, ts, j) && SlotOk(b', ts, j)
  {
    hide Parse, Enc;
    if Slot(b, j) != -1 {
      ParseMoves(b, b', Start(b), Slot(b, j), ts);
    }
  }

  /** The table after storing row in slot i. */
  function WithRow(t: Table, i: nat, row: Row): Table
    requires i <= |t|
  {
    if i == |t| then t + [Some(row)] else t[i := Some(row)]
  }

  lemma StoredTable(b: Block, b': Block, ts: Schema, i: nat, row: Row)
    requires Layout(b, ts) && i <= DirCount(b) && HasSchema(row, ts) && ts != [] && Stored(b, b', i, row)
    ensures TableOf(b', ts) == WithRow(TableOf(b, ts), i, row)
  {
    hide Stored, SlotOk, RowAt, Apart, LiveSize;
    StoredRow(b, b', ts, i, row);
    StoredCount(b, b', i, row);
    forall j | 0 <= j < DirCount(b) && j != i ensures RowAt(b', ts, j) == RowAt(b, ts, j) {
      StoredOther(b, b', ts, i, row, j);
    }
  }

  lemma StoredCount(b: Block, b': Block, i: nat, row: Row)
    requires Bounds(b) && i <= DirCount(b) && Stored(b, b', i, row)
    ensures DirCount(b') == if i == DirCount(b) then i + 1 else DirCount(b)
    ensures FreeSpace(b') == FreeSpace(b) - |Enc(row)| - if i == DirCount(b) then 4 else 0
  {
  }

  /** Where a record is stored: right before the others, with its offset in its slot. */
  lemma StoredBytes(b: Block, b': Block, i: nat, row: Row)
    requires Bounds(b) && i <= DirCount(b) && Stored(b, b', i, row)
    ensures var dc := if i == DirCount(b) then i + 1 else DirCount(b);
            var off := 8 + 4 * DirCount(b) + FreeSpace(b) - |Enc(row)|;
            && off >= 8 + 4 * dc
            && b'[0..4] == Enc32(dc) && b'[4..8] == Enc32(off - 8 - 4 * dc)
            && b'[8 + 4 * i..12 + 4 * i] == Enc32(off) && b'[off..off + |Enc(row)|] == Enc(row)
  {
    hide Dec32, Enc32, Enc;
    EncDec32(b'[0..4]);
    EncDec32(b'[4..8]);
    EncDec32(b'[8 + 4 * i..12 + 4 * i]);
  }

  /** Storing a record in a free slot keeps the layout; the table gains exactly that record. */
  lemma StoreKeeps(b: Block, b': Block, ts: Schema, i: nat, row: Row)
    requires Layout(b, ts) && i <= DirCount(b) && HasSchema(row, ts) && ts != [] && Stored(b, b', i, row)
    requires i < DirCount(b) ==> Slot(b, i) == -1
    ensures Layout(b', ts) && TableOf(b', ts) == WithRow(TableOf(b, ts), i, row)
  {
    hide Parse, Enc, Stored, Slot, LiveSize, Get32;
    StoredRow(b, b', ts, i, row);
    StoredCount(b, b', i, row);
    StoredTable(b, b', ts, i, row);
    forall j | 0 <= j < DirCount(b') ensures SlotOk(b', ts, j) {
      if j != i { StoredOther(b, b', ts, i, row, j); }
    }
    forall j, k | 0 <= j < k < DirCount(b') ensures Apart(b', ts, j, k) {
      if j != i { StoredOther(b, b', ts, i, row, j); }
      if k != i { StoredOther(b, b', ts, i, row, k); }
      if j != i && k != i { assert Apart(b, ts, j, k); }
    }
    var t := TableOf(b, ts);
    if i == |t| {
      LiveSizeAppend(t, Some(row));
    } else {
      assert t[i] == None;
      LiveSizeUpdate(t, i, Some(row));
    }
  }

  // ---------- a page without records, and the choice of a slot ----------

  predicate Blank(b: Block) {
    DirCount(b) == 0 && FreeSpace(b) == SIZE - 8
  }

  /** The bytes of a page without slots: no slots, and 4088 bytes free. */
  lemma BlankBytes(b: Block)
    ensures Blank(b) <==> b[0..4] == Enc32(0) && b[4..8] == Enc32(4088)
  {
    hide Dec32, Enc32;
    EncDec32(b[0..4]);
    EncDec32(b[4..8]);
  }

  /** 4088 is 248 + 15 * 256. */
  lemma FreeSpaceBytes()
    ensures Enc32(0) == [0, 0, 0, 0] && Enc32(4088) == [248, 15, 0, 0]
  {
    hide Dec32, Enc32;
    NumberBytes(0, 0, 0);
    NumberBytes(4088, 248, 15);
  }

  lemma BlankLayout(b: Block, ts: Schema)
    requires Blank(b)
    ensures Layout(b, ts) && TableOf(b, ts) == []
  {
  }

  /** The slot an insertion uses: the first one without a record, or a new one at the end. */
  function FreeSlot(t: Table): (i: nat)
    ensures i <= |t|
    ensures forall j :: 0 <= j < i ==> t[j].Some?
    ensures i < |t| ==> t[i] == None
  {
    if t == [] then 0 else if t[0] == None then 0 else 1 + FreeSlot(t[1..])
  }

  /** Whether a record of the given size fits. */
  predicate Fits(b: Block, ts: Schema, size: nat) {
    var t := TableOf(b, ts);
    FreeSpace(b) >= size + if FreeSlot(t) == |t| then 4 else 0
  }

  lemma LayoutBounds(b: Block, ts: Schema)
    requires Layout(b, ts)
    ensures Bounds(b) && |TableOf(b, ts)| == DirCount(b)
  {
  }

  lemma LiveSlot(b: Block, ts: Schema, i: nat)
    requires Layout(b, ts) && i < DirCount(b)
    ensures TableOf(b, ts)[i] == RowAt(b, ts, i) && (Slot(b, i) > 0 <==> RowAt(b, ts, i).Some?)
    ensures Slot(b, i) > 0 ==> Slot(b, i) < SIZE && Parse(b, Slot(b, i), ts).Parsed?
    ensures Slot(b, i) > 0 ==> RowAt(b, ts, i).value == Parse(b, Slot(b, i), ts).row
    ensures Slot(b, i) <= 0 ==> Slot(b, i) == -1
  {
    assert SlotOk(b, ts, i);
  }

  lemma FreeSlotFrom(t: Table, k: nat)
    requires k <= |t|
    ensures FreeSlot(t[k..]) == if k == |t| || t[k] == None then 0 else 1 + FreeSlot(t[k + 1..])
  {
    if k < |t| {
      assert t[k..][0] == t[k] && t[k..][1..] == t[k + 1..];
    }
  }

  lemma FreeSlotDead(b: Block, ts: Schema)
    requires Layout(b, ts)
    ensures FreeSlot(TableOf(b, ts)) < DirCount(b) ==> Slot(b, FreeSlot(TableOf(b, ts))) == -1
  {
    var i := FreeSlot(TableOf(b, ts));
    if i < DirCount(b) {
      assert SlotOk(b, ts, i);
    }
  }

  /** A page without slots takes any record that fits a page at all. One whose slots are all deleted may not: its
      free space does not come back. */
  lemma BlankFits(b: Block, ts: Schema, size: nat)
    requires Blank(b)
    ensures Fits(b, ts, size) <==> size <= 4084
  {
    BlankLayout(b, ts);
  }

  /** No page at all takes a longer one. */
  lemma TooLong(b: Block, ts: Schema, size: nat)
    requires Layout(b, ts) && size + 4 > SIZE - 8
    ensures !Fits(b, ts, size)
  {
    LayoutBounds(b, ts);
    if DirCount(b) == 0 {
      assert FreeSlot(TableOf(b, ts)) == 0;
    }
  }

  // ---------- deleting ----------

  /** Marking a slot deleted removes its record from the table and nothing else. */
  lemma DeleteKeeps(b: Block, ts: Schema, i: nat)
    requires Layout(b, ts) && i < DirCount(b)
    ensures var b' := Put(b, 8 + 4 * i, Enc32(-1));
            Layout(b', ts) && TableOf(b', ts) == TableOf(b, ts)[i := None] && FreeSpace(b') == FreeSpace(b)
  {
    hide Parse, Enc, LiveSize, Put, RowAt, Slot, Get32, Apart;
    var b' := Put(b, 8 + 4 * i, Enc32(-1));
    DeleteHeader(b, i);
    forall j | 0 <= j < DirCount(b) && j != i
      ensures Slot(b', j) == Slot(b, j) && RowAt(b', ts, j) == RowAt(b, ts, j) && SlotOk(b', ts, j)
    {
      DeleteOther(b, b', ts, i, j);
    }
    DeleteApart(b, b', ts, i);
    DeleteTable(b, b', ts, i);
    LiveSizeUpdate(TableOf(b, ts), i, None);
  }

  lemma DeleteHeader(b: Block, i: nat)
    requires Bounds(b) && i < DirCount(b)
    ensures var b' := Put(b, 8 + 4 * i, Enc32(-1));
            DirCount(b') == DirCount(b) && FreeSpace(b') == FreeSpace(b) && Slot(b', i) == -1
  {
  }

  lemma DeleteTable(b: Block, b': Block, ts: Schema, i: nat)
    requires Bounds(b) && i < DirCount(b) == DirCount(b') && Slot(b', i) == -1
    requires forall j :: 0 <= j < DirCount(b) && j != i ==> RowAt(b', ts, j) == RowAt(b, ts, j)
    ensures TableOf(b', ts) == TableOf(b, ts)[i := None]
  {
    hide Parse, Slot;
  }

  lemma DeleteOther(b: Block, b': Block, ts: Schema, i: nat, j: nat)
    requires Bounds(b) && i < DirCount(b) && j < DirCount(b) && j != i && SlotOk(b, ts, j)
    requires b' == Put(b, 8 + 4 * i, Enc32(-1)) && Start(b') == Start(b)
    ensures Slot(b', j) == Slot(b, j) && RowAt(b', ts, j) == RowAt(b, ts, j) && SlotOk(b', ts, j)
  {
    hide Parse, Enc;
    assert b'[8 + 4 * j..8 + 4 * j + 4] == b[8 + 4 * j..8 + 4 * j + 4];
    if Slot(b, j) != -1 {
      ParseMoves(b, b', Start(b), Slot(b, j), ts);
    }
  }

  lemma DeleteApart(b: Block, b': Block, ts: Schema, i: nat)
    requires Layout(b, ts) && i < DirCount(b) == DirCount(b') && Slot(b', i) == -1
    requires forall j :: 0 <= j < DirCount(b) && j != i ==>
              Slot(b', j) == Slot(b, j) && RowAt(b', ts, j) == RowAt(b, ts, j)
    ensures forall j, k :: 0 <= j < k < DirCount(b) ==> Apart(b', ts, j, k)
  {
    hide Parse, Enc, LiveSize, Slot;
    forall j, k | 0 <= j < k < DirCount(b) ensures Apart(b', ts, j, k) {
      if j != i && k != i { assert Apart(b, ts, j, k); }
    }
  }

  // ---------- compacting ----------

  /** The live records in slot order. */
  function Live(t: Table): seq<Row> {
    if t == [] then [] else (if t[0].None? then [] else [t[0].value]) + Live(t[1..])
  }

  /** A table with every slot live. */
  function Full(rows: seq<Row>): (t: Table)
    ensures |t| == |rows|
  {
    seq(|rows|, i requires 0 <= i < |rows| => Some(rows[i]))
  }

  lemma {:induction false} LiveAppend(t: Table, o: Option<Row>)
    ensures Live(t + [o]) == Live(t) + if o.None? then [] else [o.value]
  {
    if t == [] {
      assert (t + [o])[1..] == [];
    } else {
      LiveAppend(t[1..], o);
      assert (t + [o])[1..] == t[1..] + [o];
    }
  }

  lemma {:induction false} LiveSizePrefix(t: Table, i: nat)
    requires i <= |t|
    ensures LiveSize(t[..i]) <= LiveSize(t)
    decreases |t| - i
  {
    hide SizeOf;
    if i == |t| {
      assert t[..i] == t;
    } else {
      LiveSizePrefix(t, i + 1);
      assert t[..i + 1] == t[..i] + [t[i]];
      LiveSizeAppend(t[..i], t[i]);
    }
  }

  lemma {:induction false} LiveOfFull(rows: seq<Row>)
    ensures Live(Full(rows)) == rows && LiveSize(Full(rows)) == RowsSize(rows)
  {
    if rows != [] {
      assert Full(rows)[1..] == Full(rows[1..]);
      LiveOfFull(rows[1..]);
    }
  }

  function RowsSize(rows: seq<Row>): nat {
    if rows == [] then 0 else |Enc(rows[0])| + RowsSize(rows[1..])
  }

  lemma {:induction false} LiveSizeOfLive(t: Table)
    ensures LiveSize(t) == RowsSize(Live(t)) && |Live(t)| <= |t|
  {
    if t != [] {
      LiveSizeOfLive(t[1..]);
      if t[0].Some? {
        assert Live(t)[0] == t[0].value && Live(t)[1..] == Live(t[1..]);
      } else {
        assert Live(t) == Live(t[1..]);
      }
    }
  }

  /** A buffer with a header put in front of it. */
  function Headed(buf: Block, dc: int32, fs: int32): Block {
    Put(Put(buf, 0, Enc32(dc)), 4, Enc32(fs))
  }

  lemma HeadedIs(buf: Block, dc: int32, fs: int32)
    ensures DirCount(Headed(buf, dc, fs)) == dc && FreeSpace(Headed(buf, dc, fs)) == fs
  {
    hide Dec32;
    var h := Headed(buf, dc, fs);
    assert h[0..4] == Put(buf, 0, Enc32(dc))[0..4];
  }

  lemma HeadedElsewhere(buf: Block, dc: int32, fs: int32, lo: nat, hi: nat)
    requires 8 <= lo <= hi <= SIZE
    ensures Headed(buf, dc, fs)[lo..hi] == buf[lo..hi]
  {
    hide Put;
    assert Headed(buf, dc, fs)[lo..hi] == Put(buf, 0, Enc32(dc))[lo..hi] == buf[lo..hi];
  }

  /** One more record written into the compacted copy is one more record stored in a new slot of it. */
  lemma CompactIsStored(buf: Block, dc: nat, fs: nat, row: Row, buf': Block)
    requires dc < SIZE && fs < SIZE && fs >= |Enc(row)| + 4 && 8 + 5 * dc + fs <= SIZE
    requires var off := 8 + 4 * dc + fs - |Enc(row)|; buf' == Put(Put(buf, 8 + 4 * dc, Enc32(off)), off, Enc(row))
    ensures Bounds(Headed(buf, dc, fs)) && DirCount(Headed(buf, dc, fs)) == dc
    ensures Stored(Headed(buf, dc, fs), Headed(buf', dc + 1, fs - |Enc(row)| - 4), dc, row)
  {
    hide Dec32, Put, Enc, Headed;
    var off := 8 + 4 * dc + fs - |Enc(row)|;
    var h, h' := Headed(buf, dc, fs), Headed(buf', dc + 1, fs - |Enc(row)| - 4);
    var mid := Put(buf, 8 + 4 * dc, Enc32(off));
    HeadedIs(buf, dc, fs);
    HeadedIs(buf', dc + 1, fs - |Enc(row)| - 4);
    HeadedElsewhere(buf', dc + 1, fs - |Enc(row)| - 4, 8 + 4 * dc, 8 + 4 * dc + 4);
    HeadedElsewhere(buf', dc + 1, fs - |Enc(row)| - 4, off, off + |Enc(row)|);
    assert buf'[8 + 4 * dc..8 + 4 * dc + 4] == mid[8 + 4 * dc..8 + 4 * dc + 4];
    forall j | 0 <= j < dc ensures Slot(h', j) == Slot(h, j) {
      CompactElsewhere(buf, dc, fs, row, buf', 8 + 4 * j, 8 + 4 * j + 4);
    }
    CompactElsewhere(buf, dc, fs, row, buf', 8 + 4 * dc + fs, SIZE);
    assert h'[Start(h)..] == h'[Start(h)..SIZE] && h[Start(h)..] == h[Start(h)..SIZE];
  }

  lemma CompactElsewhere(buf: Block, dc: nat, fs: nat, row: Row, buf': Block, lo: nat, hi: nat)
    requires dc < SIZE && fs < SIZE && fs >= |Enc(row)| + 4 && 8 + 5 * dc + fs <= SIZE
    requires var off := 8 + 4 * dc + fs - |Enc(row)|; buf' == Put(Put(buf, 8 + 4 * dc, Enc32(off)), off, Enc(row))
    requires 8 <= lo <= hi <= SIZE && (hi <= 8 + 4 * dc || 8 + 4 * dc + fs <= lo)
    ensures Headed(buf', dc + 1, fs - |Enc(row)| - 4)[lo..hi] == Headed(buf, dc, fs)[lo..hi]
  {
    hide Put, Enc, Headed;
    HeadedElsewhere(buf', dc + 1, fs - |Enc(row)| - 4, lo, hi);
    HeadedElsewhere(buf, dc, fs, lo, hi);
    var off := 8 + 4 * dc + fs - |Enc(row)|;
    assert buf'[lo..hi] == Put(buf, 8 + 4 * dc, Enc32(off))[lo..hi] == buf[lo..hi];
  }

  /** How far compacting page b has come after slots 0..i: buf with header (dc, fs) holds their live records. */
  predicate Compacted(b: Block, ts: Schema, i: nat, buf: Block, dc: nat, fs: nat)
    requires Layout(b, ts) && i <= DirCount(b)
  {
    var rows := Live(TableOf(b, ts)[..i]);
    && dc == |rows| && dc < SIZE && fs < SIZE && fs == SIZE - 8 - RowsSize(rows) - 4 * |rows|
    && Layout(Headed(buf, dc, fs), ts) && TableOf(Headed(buf, dc, fs), ts) == Full(rows)
  }

  lemma CompactStart(b: Block, ts: Schema, buf: Block)
    requires Layout(b, ts)
    ensures Compacted(b, ts, 0, buf, 0, SIZE - 8)
  {
    HeadedIs(buf, 0, SIZE - 8);
    BlankLayout(Headed(buf, 0, SIZE - 8), ts);
  }

  /** There is room for every live record: the compacted free space never falls below the original one. */
  lemma CompactRoom(b: Block, ts: Schema, i: nat)
    requires Layout(b, ts) && i <= DirCount(b)
    ensures var rows := Live(TableOf(b, ts)[..i]);
            SIZE - 8 - RowsSize(rows) - 4 * |rows| >= FreeSpace(b) + 4 * (DirCount(b) - i)
  {
    hide Enc, RowAt, SlotOk, Apart, LiveSize, RowsSize, Live;
    var t := TableOf(b, ts);
    LiveSizePrefix(t, i);
    LiveSizeOfLive(t[..i]);
  }

  lemma CompactStep(b: Block, ts: Schema, i: nat, buf: Block, dc: nat, fs: nat, buf': Block)
    requires Layout(b, ts) && i < DirCount(b) && Compacted(b, ts, i, buf, dc, fs) && ts != []
    requires RowAt(b, ts, i).Some?
    requires var row := RowAt(b, ts, i).value; var off := 8 + 4 * dc + fs - |Enc(row)|;
             HasSchema(row, ts) && fs >= |Enc(row)| + 4 && 8 + 5 * dc + fs <= SIZE
             && buf' == Put(Put(buf, 8 + 4 * dc, Enc32(off)), off, Enc(row))
    ensures Compacted(b, ts, i + 1, buf', dc + 1, fs - |Enc(RowAt(b, ts, i).value)| - 4)
  {
    hide Enc, Parse, SlotOk, Apart, Stored, LiveSize, RowsSize, Live, RowAt, Headed, Put, Slot, Layout, Start, Enc32;
    LayoutBounds(b, ts);
    var row := RowAt(b, ts, i).value;
    var t := TableOf(b, ts);
    CompactIsStored(buf, dc, fs, row, buf');
    StoreKeeps(Headed(buf, dc, fs), Headed(buf', dc + 1, fs - |Enc(row)| - 4), ts, dc, row);
    LiveStep(b, ts, i);
    RowsSizeAppend(Live(t[..i]), row);
    assert Full(Live(t[..i]) + [row]) == Full(Live(t[..i])) + [Some(row)];
  }

  lemma LiveStep(b: Block, ts: Schema, i: nat)
    requires Bounds(b) && i < DirCount(b)
    ensures |TableOf(b, ts)| == DirCount(b)
    ensures var t := TableOf(b, ts);
            Live(t[..i + 1]) == Live(t[..i]) + if RowAt(b, ts, i).None? then [] else [RowAt(b, ts, i).value]
  {
    hide TableOf, RowAt, Live;
    var t := TableOf(b, ts);
    TableOfAt(b, ts, i);
    CutAt(t, i);
    LiveAppend(t[..i], t[i]);
  }

  lemma TableOfAt(b: Block, ts: Schema, i: nat)
    requires Bounds(b) && i < DirCount(b)
    ensures |TableOf(b, ts)| == DirCount(b) && TableOf(b, ts)[i] == RowAt(b, ts, i)
  {
  }

  lemma {:induction false} RowsSizeAppend(rows: seq<Row>, row: Row)
    ensures RowsSize(rows + [row]) == RowsSize(rows) + |Enc(row)|
  {
    if rows == [] {
      assert (rows + [row])[1..] == [];
    } else {
      RowsSizeAppend(rows[1..], row);
      assert (rows + [row])[1..] == rows[1..] + [row];
    }
  }

  lemma CompactSkip(b: Block, ts: Schema, i: nat, buf: Block, dc: nat, fs: nat)
    requires Layout(b, ts) && i < DirCount(b) && Compacted(b, ts, i, buf, dc, fs) && RowAt(b, ts, i).None?
    ensures Compacted(b, ts, i + 1, buf, dc, fs)
  {
    hide RowAt, Live, TableOf, SlotOk, Apart, Headed, RowsSize, Layout;
    LayoutBounds(b, ts);
    LiveStep(b, ts, i);
    assert Live(TableOf(b, ts)[..i]) + [] == Live(TableOf(b, ts)[..i]);
  }

  /** A live record fits the compacted copy, and its bytes in the page are its encoding. */
  lemma CompactFits(b: Block, ts: Schema, i: nat, buf: Block, dc: nat, fs: nat)
    requires Layout(b, ts) && i < DirCount(b) && Compacted(b, ts, i, buf, dc, fs) && RowAt(b, ts, i).Some?
    ensures var row := RowAt(b, ts, i).value;
            && HasSchema(row, ts) && fs >= |Enc(row)| + 4 && 8 + 5 * dc + fs <= SIZE
            && Slot(b, i) > 0 && HoldsAt(b, Slot(b, i), Enc(row))
  {
    hide Parse, Enc, Apart, LiveSize, Live, RowsSize, TableOf, Slot, Headed;
    var row := RowAt(b, ts, i).value;
    LiveSlot(b, ts, i);
    EncOfParse(b, Slot(b, i), ts);
    HeadedIs(buf, dc, fs);
    LayoutBounds(Headed(buf, dc, fs), ts);
    LiveStep(b, ts, i);
    RowsSizeAppend(Live(TableOf(b, ts)[..i]), row);
    CompactRoom(b, ts, i + 1);
  }

  lemma CompactEnd(b: Block, ts: Schema, buf: Block, dc: nat, fs: nat)
    requires Layout(b, ts) && Compacted(b, ts, DirCount(b), buf, dc, fs)
    ensures dc < SIZE && fs < SIZE
    ensures var h := Headed(buf, dc, fs);
            var rows := Live(TableOf(b, ts));
            && Layout(h, ts) && TableOf(h, ts) == Full(rows)
            && FreeSpace(h) == SIZE - 8 - RowsSize(rows) - 4 * |rows| >= FreeSpace(b)
  {
    hide Layout, TableOf, Live, RowsSize, Headed;
    LayoutBounds(b, ts);
    assert TableOf(b, ts)[..DirCount(b)] == TableOf(b, ts);
    HeadedIs(buf, dc, fs);
    CompactRoom(b, ts, DirCount(b));
  }

  lemma PutAll(b: Block, s: Block)
    ensures Put(b, 0, s) == s
  {
  }
}
