/** Operations on one heap file page (src/storage/heap_file/heap_file_page.cc). */
module HeapFilePages {
  import opened Bytes
  import opened Values
  import opened Pages
  import opened SlottedPages

  /** A record buffer; its values are overwritten in place, their types stay. */
  class Record {
    var values: Row

    constructor (ts: Schema)
      ensures HasSchema(values, ts)
    {
      values := seq(|ts|, i requires 0 <= i < |ts| => if ts[i] == INT then IntValue(0) else StrValue([]));
    }
  }

  /** The bytes a record takes in a page. */
  method RecordSize(record: Row) returns (size: nat)
    ensures size == |Enc(record)|
  {
    size := 0;
    for i := 0 to |record|
      invariant size == |Enc(record[..i])|
    {
      EncSplit(record, i);
      match record[i] {
        case IntValue(_) => size := size + 8;
        case StrValue(s) => size := size + 1 + |s|;
      }
    }
    assert record[..|record|] == record;
  }

  /** The page after the writes of an insertion into slot i, made one after the other: the count if the slot
      is new, the free space, the slot, the record. */
  function Written(b: Block, i: nat, row: Row): Block
    requires Bounds(b) && i <= DirCount(b)
    requires Start(b) - |Enc(row)| >= 8 + 4 * (if i == DirCount(b) then i + 1 else DirCount(b))
  {
    var dc := if i == DirCount(b) then i + 1 else DirCount(b);
    var off := Start(b) - |Enc(row)|;
    var b0 := if i == DirCount(b) then Put(b, 0, Enc32(dc)) else b;
    Put(Put(Put(b0, 4, Enc32(off - 8 - 4 * dc)), 8 + 4 * i, Enc32(off)), off, Enc(row))
  }

  lemma WrittenBy(b: Block, i: nat, row: Row, dc: nat, fs: nat, b0: Block, w: Block)
    requires Bounds(b) && i <= DirCount(b) && dc == (if i == DirCount(b) then i + 1 else DirCount(b))
    requires dc < SIZE && 8 + 4 * dc + fs == Start(b) - |Enc(row)|
    requires b0 == if i == DirCount(b) then Put(b, 0, Enc32(dc)) else b
    requires w == Put(Put(Put(b0, 4, Enc32(fs)), 8 + 4 * i, Enc32(8 + 4 * dc + fs)), 8 + 4 * dc + fs, Enc(row))
    ensures w == Written(b, i, row)
  {
    hide Put, Enc, Enc32, Get32;
  }

  lemma WrittenHeader(b: Block, i: nat, row: Row)
    requires Bounds(b) && i <= DirCount(b)
    requires Start(b) - |Enc(row)| >= 8 + 4 * (if i == DirCount(b) then i + 1 else DirCount(b))
    ensures var dc := if i == DirCount(b) then i + 1 else DirCount(b);
            var off := Start(b) - |Enc(row)|;
            var w := Written(b, i, row);
            DirCount(w) == dc && FreeSpace(w) == off - 8 - 4 * dc && Slot(w, i) == off && HoldsAt(w, off, Enc(row))
  {
    hide Enc, Dec32, Put, Enc32;
    var dc := if i == DirCount(b) then i + 1 else DirCount(b);
    var off := Start(b) - |Enc(row)|;
    var b0 := if i == DirCount(b) then Put(b, 0, Enc32(dc)) else b;
    var b1 := Put(b0, 4, Enc32(off - 8 - 4 * dc));
    var b2 := Put(b1, 8 + 4 * i, Enc32(off));
    var b3 := Put(b2, off, Enc(row));
    assert b3[0..4] == b2[0..4] == b1[0..4] == b0[0..4];
    assert b3[4..8] == b2[4..8] == b1[4..8];
    assert b3[8 + 4 * i..8 + 4 * i + 4] == b2[8 + 4 * i..8 + 4 * i + 4];
  }

  lemma WrittenElsewhere(b: Block, i: nat, row: Row, lo: nat, hi: nat)
    requires Bounds(b) && i <= DirCount(b)
    requires Start(b) - |Enc(row)| >= 8 + 4 * (if i == DirCount(b) then i + 1 else DirCount(b))
    requires 8 <= lo <= hi <= SIZE
    requires (hi <= Start(b) - |Enc(row)| && (hi <= 8 + 4 * i || 8 + 4 * i + 4 <= lo)) || Start(b) <= lo
    ensures Written(b, i, row)[lo..hi] == b[lo..hi]
  {
    hide Enc, Dec32, Enc32, Put, Get32;
    var dc := if i == DirCount(b) then i + 1 else DirCount(b);
    var off := Start(b) - |Enc(row)|;
    var b0 := if i == DirCount(b) then Put(b, 0, Enc32(dc)) else b;
    var b1 := Put(b0, 4, Enc32(off - 8 - 4 * dc));
    var b2 := Put(b1, 8 + 4 * i, Enc32(off));
    var b3 := Put(b2, off, Enc(row));
    assert b3[lo..hi] == b2[lo..hi] == b1[lo..hi] == b0[lo..hi] == b[lo..hi];
  }

  lemma WrittenIsStored(b: Block, i: nat, row: Row)
    requires Bounds(b) && i <= DirCount(b)
    requires Start(b) - |Enc(row)| >= 8 + 4 * (if i == DirCount(b) then i + 1 else DirCount(b))
    ensures Stored(b, Written(b, i, row), i, row)
  {
    hide Enc, Dec32, Put, Written;
    var w := Written(b, i, row);
    WrittenHeader(b, i, row);
    forall j | 0 <= j < DirCount(b) && j != i ensures Slot(w, j) == Slot(b, j) {
      WrittenElsewhere(b, i, row, 8 + 4 * j, 8 + 4 * j + 4);
    }
    WrittenElsewhere(b, i, row, Start(b), SIZE);
    assert w[Start(b)..] == w[Start(b)..SIZE] && b[Start(b)..] == b[Start(b)..SIZE];
  }

  /** Some slot that is free, or the one after the last. */
  predicate Usable(b: Block, i: nat)
    requires Bounds(b)
  {
    i <= DirCount(b) && (i < DirCount(b) ==> Slot(b, i) == -1)
  }

  /** A record fits exactly if some page can be had from this one by storing it in a slot that may be used. */
  lemma FitsExact(b: Block, ts: Schema, row: Row)
    requires Layout(b, ts)
    ensures Bounds(b)
    ensures Fits(b, ts, |Enc(row)|) <==> exists i: nat, b': Block :: Usable(b, i) && Stored(b, b', i, row)
  {
    hide Layout, TableOf, Enc, Stored, Slot, FreeSlot, Written;
    LayoutBounds(b, ts);
    var k := FreeSlot(TableOf(b, ts));
    if Fits(b, ts, |Enc(row)|) {
      FreeSlotDead(b, ts);
      WrittenIsStored(b, k, row);
      var b': Block := Written(b, k, row);
      assert Usable(b, k) && Stored(b, b', k, row);
    }
    forall i: nat, b': Block | Usable(b, i) && Stored(b, b', i, row) ensures Fits(b, ts, |Enc(row)|) {
      StoredRoom(b, b', i, row);
      if i < DirCount(b) {
        DeadSlot(b, ts, i);
        FreeSlotFirst(TableOf(b, ts), i);
      }
    }
  }

  lemma StoredRoom(b: Block, b': Block, i: nat, row: Row)
    requires Bounds(b) && i <= DirCount(b) && Stored(b, b', i, row)
    ensures FreeSpace(b) >= |Enc(row)| + if i == DirCount(b) then 4 else 0
  {
  }

  lemma DeadSlot(b: Block, ts: Schema, i: nat)
    requires Layout(b, ts) && i < DirCount(b) && Slot(b, i) == -1
    ensures i < |TableOf(b, ts)| && TableOf(b, ts)[i] == None
  {
    LiveSlot(b, ts, i);
  }

  lemma FreeSlotFirst(t: Table, i: nat)
    requires i < |t| && t[i] == None
    ensures FreeSlot(t) <= i
  {
  }

  /** In numbers: its size, if a slot is deleted; four bytes more for a new slot, if none is. */
  lemma FitsNumbers(b: Block, ts: Schema, size: nat)
    requires Layout(b, ts)
    ensures Bounds(b)
    ensures (exists i :: 0 <= i < DirCount(b) && Slot(b, i) == -1) ==> (Fits(b, ts, size) <==> size <= FreeSpace(b))
    ensures (forall i :: 0 <= i < DirCount(b) ==> Slot(b, i) != -1) ==>
              (Fits(b, ts, size) <==> size + 4 <= FreeSpace(b))
  {
    hide Layout, TableOf, Slot, FreeSlot;
    LayoutBounds(b, ts);
    FreeSlotDead(b, ts);
    if i :| 0 <= i < DirCount(b) && Slot(b, i) == -1 {
      DeadSlot(b, ts, i);
      FreeSlotFirst(TableOf(b, ts), i);
    }
  }

  lemma CopyOne<T>(s: seq<T>, r: seq<T>, i: nat)
    requires |s| == |r| && i < |r| && s[..i] == r[..i]
    ensures s[i := r[i]][..i + 1] == r[..i + 1]
    ensures i + 1 == |r| ==> s[i := r[i]] == r
  {
  }

  /** A value of a record stands behind the values before it. */
  lemma ReadsBack(b: Block, base: nat, row: Row, k: nat)
    requires HoldsAt(b, base, Enc(row)) && k < |row|
    ensures ParseValue(b, base + |Enc(row[..k])|, TypeOf(row[k])) == Some(row[k])
    ensures |Enc(row[..k + 1])| == |Enc(row[..k])| + |EncValue(row[k])|
    ensures base + |Enc(row[..k + 1])| <= SIZE
  {
    hide Enc, EncValue, ParseValue;
    EncSplit(row, k);
    HoldsAtParts(b, base, Enc(row[..k + 1]), Enc(row[k + 1..]));
    HoldsAtParts(b, base, Enc(row[..k]), EncValue(row[k]));
    ParseValueOfEnc(b, base + |Enc(row[..k])|, row[k]);
  }

  /** memcpy into a buffer. */
  method CopyInto(buf: array<byte>, off: nat, s: seq<byte>)
    requires buf.Length == SIZE && off + |s| <= SIZE
    modifies buf
    ensures buf[..] == Put(old(buf[..]), off, s)
  {
    forall k | 0 <= k < |s| {
      buf[off + k] := s[k];
    }
  }

  /** The handle of a heap file page: nothing but a reference to its page. */
  datatype HeapFilePage = HeapFilePage(page: Page) {

    ghost predicate Laid(ts: Schema)
      reads page, page.bytes
    {
      page.Ok() && Layout(page.Data(), ts)
    }

    method GetDirCount() returns (n: int32)
      requires page.Ok()
      ensures n == DirCount(page.Data())
    {
      n := page.ReadInt32(0);
    }

    method GetFreeSpace() returns (n: int32)
      requires page.Ok()
      ensures n == FreeSpace(page.Data())
    {
      n := page.ReadInt32(4);
    }

    method GetDir(i: nat) returns (n: int32)
      requires page.Ok() && 8 + 4 * i + 4 <= SIZE
      ensures n == Slot(page.Data(), i)
    {
      n := page.ReadInt32(8 + 4 * i);
    }

    /** A new page comes with all bytes zero; it is made a page without records. */
    method Initialise()
      requires page.Ok()
      modifies page`dirty, page.bytes
      ensures var b := old(page.Data());
              if DirCount(b) == 0 && FreeSpace(b) == 0 then
                page.dirty && page.Data() == Put(b, 4, Enc32(SIZE - 8)) && Blank(page.Data())
              else
                page.dirty == old(page.dirty) && page.Data() == b
    {
      var dirCount := GetDirCount();
      var freeSpace := GetFreeSpace();
      if dirCount == 0 && freeSpace == 0 {
        page.WriteInt32(4, SIZE - 8);
        assert page.Data()[0..4] == old(page.Data())[0..4];
      }
    }

    /** Reads the record of a slot into out; false, and out untouched, if the slot is deleted. */
    method GetRecord(dirPos: nat, out: Record, ghost ts: Schema) returns (found: bool)
      requires Laid(ts) && dirPos < DirCount(page.Data()) && HasSchema(out.values, ts)
      modifies out
      ensures HasSchema(out.values, ts)
      ensures var o := RowAt(page.Data(), ts, dirPos);
              found == o.Some? && out.values == if found then o.value else old(out.values)
    {
      ghost var b := page.Data();
      assert SlotOk(b, ts, dirPos);
      var offset: int := GetDir(dirPos);
      if offset <= 0 {
        return false;
      }
      ghost var row := RowAt(b, ts, dirPos).value;
      EncOfParse(b, offset, ts);
      ReadValues(offset, out, row);
      found := true;
    }

    /** The loop of get_record: overwrites out, value by value, with what stands at offset. */
    method ReadValues(start: nat, out: Record, ghost row: Row)
      requires page.Ok() && HoldsAt(page.Data(), start, Enc(row))
      requires |out.values| == |row| && forall i :: 0 <= i < |row| ==> TypeOf(out.values[i]) == TypeOf(row[i])
      modifies out
      ensures out.values == row
    {
      hide Enc, HoldsAt;
      var offset := start;
      EncNothing();
      assert row[..0] == [];
      for i := 0 to |out.values|
        invariant |out.values| == |row| && out.values[..i] == row[..i]
        invariant forall j :: 0 <= j < |row| ==> TypeOf(out.values[j]) == TypeOf(row[j])
        invariant offset == start + |Enc(row[..i])|
      {
        var v;
        v, offset := ReadValue(offset, out.values[i], row[i], start, row, i);
        CopyOne(out.values, row, i);
        out.values := out.values[i := v];
      }
    }

    method ReadValue(start: nat, was: Value, ghost v: Value, ghost base: nat, ghost row: Row, ghost k: nat)
      returns (r: Value, end: nat)
      requires page.Ok() && HoldsAt(page.Data(), base, Enc(row)) && k < |row| && v == row[k]
      requires start == base + |Enc(row[..k])| && TypeOf(was) == TypeOf(v)
      ensures r == v && end == base + |Enc(row[..k + 1])|
    {
      hide Enc, HoldsAt, Dec64;
      ReadsBack(page.Data(), base, row, k);
      match was {
        case IntValue(_) =>
          var i := page.ReadInt64(start);
          r, end := IntValue(i), start + 8;
        case StrValue(_) =>
          var len := page.ReadUint8(start);
          var s := page.Read(start + 1, len);
          r, end := StrValue(s), start + 1 + len;
      }
    }

    method DeleteRecord(dirPos: nat, ghost ts: Schema)
      requires Laid(ts) && dirPos < DirCount(page.Data())
      modifies page`dirty, page.bytes
      ensures page.dirty && Laid(ts)
      ensures TableOf(page.Data(), ts) == TableOf(old(page.Data()), ts)[dirPos := None]
      ensures FreeSpace(page.Data()) == FreeSpace(old(page.Data()))
    {
      DeleteKeeps(page.Data(), ts, dirPos);
      page.WriteInt32(8 + 4 * dirPos, -1);
    }

    /** The second loop of try_insert_record: the bytes of the record, value by value. */
    method WriteValues(start: nat, record: Row)
      requires page.Ok() && start + |Enc(record)| <= SIZE
      modifies page`dirty, page.bytes
      ensures page.Data() == Put(old(page.Data()), start, Enc(record))
      ensures old(page.dirty) ==> page.dirty
    {
      var offset := start;
      ghost var b := page.Data();
      assert Put(b, start, []) == b;
      for i := 0 to |record|
        invariant offset == start + |Enc(record[..i])| <= SIZE
        invariant page.Data() == Put(b, start, Enc(record[..i]))
        invariant old(page.dirty) ==> page.dirty
      {
        EncSplit(record, i);
        PutAppend(b, start, Enc(record[..i]), EncValue(record[i]));
        offset := WriteValue(offset, record[i]);
      }
      assert record[..|record|] == record;
    }

    method WriteValue(start: nat, v: Value) returns (end: nat)
      requires page.Ok() && start + |EncValue(v)| <= SIZE
      modifies page`dirty, page.bytes
      ensures page.dirty && page.Data() == Put(old(page.Data()), start, EncValue(v)) && end == start + |EncValue(v)|
    {
      match v {
        case IntValue(i) =>
          page.WriteInt64(start, i);
          end := start + 8;
        case StrValue(s) =>
          page.WriteInt8(start, |s|);
          page.Write(start + 1, s);
          PutAppend(old(page.Data()), start, [|s|], s);
          end := start + 1 + |s|;
      }
    }

    /** The first loop of try_insert_record. */
    method FindSlot(ghost ts: Schema) returns (dirPos: nat)
      requires Laid(ts)
      ensures dirPos == FreeSlot(TableOf(page.Data(), ts))
    {
      hide Layout, TableOf, FreeSlot;
      ghost var b := page.Data();
      ghost var t := TableOf(b, ts);
      LayoutBounds(b, ts);
      dirPos := 0;
      var dirCount := GetDirCount();
      var dir := GetDir(dirPos);
      while dir > 0 && dirPos < dirCount
        invariant dirPos <= dirCount && dir == Slot(b, dirPos)
        invariant dirPos + FreeSlot(t[dirPos..]) == FreeSlot(t[0..])
        decreases dirCount - dirPos
      {
        LiveSlot(b, ts, dirPos);
        FreeSlotFrom(t, dirPos);
        dirPos := dirPos + 1;
        dir := GetDir(dirPos);
      }
      if dirPos < dirCount {
        LiveSlot(b, ts, dirPos);
      }
      FreeSlotFrom(t, dirPos);
      assert t[0..] == t;
    }

    /** The writes of an insertion once its slot and the new header are known. */
    method StoreRecord(dirPos: nat, dirCount: nat, freeSpace: nat, record: Row)
      requires page.Ok() && 8 + 4 * dirPos + 4 <= SIZE && 8 + dirCount * 4 + freeSpace + |Enc(record)| <= SIZE
      modifies page`dirty, page.bytes
      ensures var off := 8 + dirCount * 4 + freeSpace;
              var b := Put(Put(old(page.Data()), 4, Enc32(freeSpace)), 8 + 4 * dirPos, Enc32(off));
              page.Data() == Put(b, off, Enc(record))
      ensures page.dirty
    {
      page.WriteInt32(4, freeSpace);
      var offset := 8 + dirCount * 4 + freeSpace;
      page.WriteInt32(8 + 4 * dirPos, offset);
      WriteValues(offset, record);
    }

    /** Inserts the record if it fits: into the first deleted slot, else into a new one. */
    method TryInsertRecord(record: Row, ghost ts: Schema) returns (ok: bool, dirPos: nat)
      requires Laid(ts) && HasSchema(record, ts) && ts != []
      modifies page`dirty, page.bytes
      ensures Laid(ts) && ok == Fits(old(page.Data()), ts, |Enc(record)|)
      ensures !ok ==> page.Data() == old(page.Data()) && page.dirty == old(page.dirty)
      ensures ok ==> var t := TableOf(old(page.Data()), ts);
                     page.dirty && dirPos == FreeSlot(t) && TableOf(page.Data(), ts) == WithRow(t, dirPos, record)
      ensures ok ==> FreeSpace(page.Data()) == FreeSpace(old(page.Data())) - |Enc(record)|
                                               - if dirPos == DirCount(old(page.Data())) then 4 else 0
      ensures dirPos < SIZE
    {
      hide Layout, Enc, Stored, Put, Enc32, Get32, TableOf, FreeSlot, WithRow, Written;
      ghost var b := page.Data();
      LayoutBounds(b, ts);
      var neededRecordSize := RecordSize(record);
      dirPos := FindSlot(ts);
      var dirCount: int := GetDirCount();
      var freeSpace: int := GetFreeSpace();
      if dirPos < dirCount {
        if freeSpace < neededRecordSize {
          return false, dirPos;
        }
        freeSpace := freeSpace - neededRecordSize;
      } else {
        if freeSpace < neededRecordSize + 4 {
          return false, dirPos;
        }
        dirCount := dirCount + 1;
        page.WriteInt32(0, dirCount);
        freeSpace := freeSpace - (neededRecordSize + 4);
      }
      ghost var b0 := page.Data();
      StoreRecord(dirPos, dirCount, freeSpace, record);
      ok := true;
      WrittenBy(b, dirPos, record, dirCount, freeSpace, b0, page.Data());
      WrittenIsStored(b, dirPos, record);
      StoredCount(b, page.Data(), dirPos, record);
      FreeSlotDead(b, ts);
      StoreKeeps(b, page.Data(), ts, dirPos, record);
      StoredRow(b, page.Data(), ts, dirPos, record);
    }

    /** Rewrites the page with its live records packed at the end and no deleted slots. */
    method Vacuum(schema: Schema)
      requires Laid(schema) && schema != []
      modifies page`dirty, page.bytes
      ensures Laid(schema) && page.dirty
      ensures TableOf(page.Data(), schema) == Full(Live(TableOf(old(page.Data()), schema)))
      ensures FreeSpace(page.Data()) ==
        SIZE - 8 - RowsSize(Live(TableOf(old(page.Data()), schema))) - 4 * |Live(TableOf(old(page.Data()), schema))|
      ensures FreeSpace(page.Data()) >= FreeSpace(old(page.Data()))
    {
      hide Layout, TableOf, Compacted, Live, RowsSize, Put, Enc;
      ghost var b := page.Data();
      LayoutBounds(b, schema);
      var pageBuf := new byte[SIZE];
      var dirCount: nat := 0;
      var freeSpace: nat := SIZE - 8;
      var recordBuf := new Record(schema);
      CompactStart(b, schema, pageBuf[..]);
      var count := GetDirCount();
      for i := 0 to count
        invariant page.Data() == b && pageBuf.Length == SIZE && HasSchema(recordBuf.values, schema)
        invariant Compacted(b, schema, i, pageBuf[..], dirCount, freeSpace)
      {
        dirCount, freeSpace := CompactSlot(i, pageBuf, dirCount, freeSpace, recordBuf, schema);
      }
      ghost var buf: Block := pageBuf[..];
      page.Write(0, pageBuf[..]);
      PutAll(b, buf);
      CompactEnd(b, schema, buf, dirCount, freeSpace);
      page.WriteInt32(0, dirCount);
      page.WriteInt32(4, freeSpace);
      assert page.Data() == Headed(buf, dirCount, freeSpace);
    }

    /** dirs[slot] = offset, and the bytes of the record at `from` to that offset of the copy. */
    method CopyRecord(pageBuf: array<byte>, slot: nat, offset: nat, from: nat, size: nat)
      requires page.Ok() && pageBuf.Length == SIZE && pageBuf != page.bytes
      requires 8 + 4 * slot + 4 <= SIZE && offset + size <= SIZE && from + size <= SIZE
      modifies pageBuf
      ensures pageBuf[..] ==
        Put(Put(old(pageBuf[..]), 8 + 4 * slot, Enc32(offset)), offset, old(page.Data())[from..from + size])
    {
      CopyInto(pageBuf, 8 + 4 * slot, Enc32(offset));
      var bytes := page.Read(from, size);
      CopyInto(pageBuf, offset, bytes);
    }

    /** The body of vacuum's loop: copies the record of slot i, if it is live, to the compacted copy. */
    method CompactSlot(i: nat, pageBuf: array<byte>, dirCount0: nat, freeSpace0: nat, recordBuf: Record, schema: Schema)
      returns (dirCount: nat, freeSpace: nat)
      requires Laid(schema) && schema != [] && i < DirCount(page.Data())
      requires pageBuf.Length == SIZE && pageBuf != page.bytes && HasSchema(recordBuf.values, schema)
      requires Compacted(page.Data(), schema, i, pageBuf[..], dirCount0, freeSpace0)
      modifies pageBuf, recordBuf
      ensures HasSchema(recordBuf.values, schema)
      ensures Compacted(page.Data(), schema, i + 1, pageBuf[..], dirCount, freeSpace)
    {
      hide Layout, TableOf, Compacted, Parse, Put, Enc, Enc32, RowAt, Slot;
      ghost var b, buf := page.Data(), pageBuf[..];
      dirCount, freeSpace := dirCount0, freeSpace0;
      LayoutBounds(b, schema);
      LiveSlot(b, schema, i);
      var dir := GetDir(i);
      if dir < 0 {
        CompactSkip(b, schema, i, buf, dirCount, freeSpace);
        return;
      }
      var _ := GetRecord(i, recordBuf, schema);
      ghost var row := recordBuf.values;
      CompactFits(b, schema, i, buf, dirCount, freeSpace);
      var recordSize := RecordSize(recordBuf.values);
      dirCount := dirCount + 1;
      freeSpace := freeSpace - (recordSize + 4);
      var offset := (2 + dirCount) * 4 + freeSpace;
      CopyRecord(pageBuf, dirCount - 1, offset, dir, recordSize);
      CompactStep(b, schema, i, buf, dirCount0, freeSpace0, pageBuf[..]);
    }
  }
}
