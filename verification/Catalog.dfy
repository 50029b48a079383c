/** The catalog (src/system/catalog.cc): its tables, found by name, and how they are saved and loaded. */
module Catalogs {
  import opened Bytes
  import opened Values
  import opened StringKeys
  import opened CatalogFiles

  /** Table i is the first of that name. */
  predicate IsFirst(ts: seq<TableInfo>, name: seq<byte>, i: int) {
    0 <= i < |ts| && ts[i].name == name && forall j :: 0 <= j < i ==> ts[j].name != name
  }

  /** The entry of every name is the first table of that name. */
  predicate NamesOk(ts: seq<TableInfo>, idx: map<Name, nat>) {
    && (forall n :: n in idx ==> IsFirst(ts, n, idx[n]))
    && forall i :: 0 <= i < |ts| ==> ts[i].name in idx
  }

  /** So the names found are determined by the tables' names. */
  lemma NamesUnique(ts: seq<TableInfo>, idx: map<Name, nat>, ts': seq<TableInfo>, idx': map<Name, nat>)
    requires NamesOk(ts, idx) && NamesOk(ts', idx')
    requires |ts'| == |ts| && forall i :: 0 <= i < |ts| ==> ts'[i].name == ts[i].name
    ensures idx' == idx
  {
    forall n | n in idx ensures n in idx' && idx'[n] == idx[n] {
      assert ts'[idx[n]].name in idx';
    }
    forall n | n in idx' ensures n in idx {
      assert ts[idx'[n]].name in idx;
    }
  }

  /** map::insert: a name already there keeps its entry. */
  function WithName(idx: map<Name, nat>, n: Name, k: nat): map<Name, nat> {
    if n in idx then idx else idx[n := k]
  }

  lemma NamesAppend(ts: seq<TableInfo>, idx: map<Name, nat>, t: TableInfo)
    requires NamesOk(ts, idx)
    ensures NamesOk(ts + [t], WithName(idx, t.name, |ts|))
  {
    var ts' := ts + [t];
    forall i | 0 <= i < |ts'| ensures ts'[i].name in WithName(idx, t.name, |ts|) {
      if i < |ts| { assert ts'[i] == ts[i]; }
    }
    if t.name !in idx {
      forall i | 0 <= i < |ts| ensures ts[i].name != t.name {
      }
    }
  }

  lemma NamesReplace(ts: seq<TableInfo>, idx: map<Name, nat>, k: nat, t: TableInfo)
    requires NamesOk(ts, idx) && k < |ts| && t.name == ts[k].name
    ensures NamesOk(ts[k := t], idx)
  {
  }

  /** A name taken or free in lower case is taken or free in any case. */
  lemma NewName(ts: seq<TableInfo>, name: Name)
    ensures LowerNames(ts) ==> (HasName(ts, Lower(name)) <==> HasNameButCase(ts, name))
    ensures Lower(Lower(name)) == Lower(name)
    ensures forall n: Name :: SameButCase(n, name) <==> Lower(n) == Lower(name)
    ensures SameButCase(Lower(name), name)
  {
    hide Lower, SameButCase, HasName, HasNameButCase, LowerNames;
    LowerTwice(name);
    LowerMeets(Lower(name), name);
    if LowerNames(ts) {
      FoundInAnyCase(ts, name);
    }
    forall n: Name ensures SameButCase(n, name) <==> Lower(n) == Lower(name) {
      LowerMeets(n, name);
    }
  }

  lemma NamesReopened(ts: seq<TableInfo>, idx: map<Name, nat>)
    requires NamesOk(ts, idx)
    ensures NamesOk(ReopenedAll(ts), idx)
  {
    forall i | 0 <= i < |ts| ensures ReopenedAll(ts)[i].name == ts[i].name {
    }
    forall i | 0 <= i < |ts| ensures ReopenedAll(ts)[i].name in idx {
      assert ts[i].name in idx;
    }
  }

  method ReadInt64(file: Stream) returns (r: Option<int64>)
    modifies file`pos, file`fail
    ensures r.None? ==> old(file.fail) || Int64At(file.data, old(file.pos)).Throws?
    ensures r.Some? ==> !old(file.fail) && !file.fail && Int64At(file.data, old(file.pos)) == Got(r.value, file.pos)
  {
    hide Or, Dec64, ByteAt;
    var res: int := 0;
    var buf := file.Read(8);
    if file.fail {
      return None;
    }
    for i := 0 to 8
      invariant !file.fail && file.pos == old(file.pos) + 8 && |buf| == 8 && buf == file.data[old(file.pos)..file.pos]
      invariant i < 8 ==> res == Unsigned(buf[..i])
      invariant i == 8 ==> res == Dec64(buf)
    {
      OrByte(buf[..i], buf[i]);
      assert buf[..i] + [buf[i]] == buf[..i + 1];
      assert buf[..8] == buf;
      res := Or(res, ByteAt(buf[i], i));
    }
    r := Some(res);
  }

  method WriteInt64(file: Stream, n: int64)
    requires !file.fail && file.pos <= |file.data|
    modifies file`pos, file`data
    ensures file.data == Overwritten(old(file.data), old(file.pos), Enc64(n))
    ensures file.pos == old(file.pos) + 8 <= |file.data|
  {
    hide Enc64, Shr;
    var buf: seq<byte> := [];
    for i := 0 to 8
      invariant !file.fail && file.pos == old(file.pos) && file.data == old(file.data)
      invariant |buf| == i && forall k :: 0 <= k < i ==> buf[k] == Enc64(n)[k]
    {
      Enc64Byte(n, i);
      buf := buf + [Shr(n, 8 * i) % 256];
    }
    assert buf == Enc64(n);
    file.Write(buf);
  }

  /** A string cut short is returned all the same, but the stream has failed. */
  method ReadString(file: Stream) returns (r: Option<Name>)
    modifies file`pos, file`fail
    ensures r.None? ==> old(file.fail) || StringAt(file.data, old(file.pos)).Throws?
    ensures r.Some? ==> !old(file.fail)
    ensures r.Some? && file.fail ==> StringAt(file.data, old(file.pos)).Throws?
    ensures r.Some? && !file.fail ==> StringAt(file.data, old(file.pos)) == Got(r.value, file.pos)
  {
    hide Dec64;
    var len := ReadInt64(file);
    if len.None? || len.value < 0 {
      return None;
    }
    var buf := file.Read(len.value);
    if file.fail {
      buf := [];
    }
    r := Some(buf);
  }

  method WriteString(file: Stream, s: Name)
    requires !file.fail && file.pos <= |file.data|
    modifies file`pos, file`data
    ensures file.data == Overwritten(old(file.data), old(file.pos), EncString(s))
    ensures file.pos == old(file.pos) + |EncString(s)| <= |file.data|
  {
    hide Enc64, Overwritten;
    OverwrittenTwice(file.data, file.pos, Enc64(|s|), s);
    WriteInt64(file, |s|);
    file.Write(s);
  }

  /** The columns of one table. */
  method ReadColumns(file: Stream, n: int64) returns (r: Option<seq<Column>>)
    requires !file.fail
    modifies file`pos, file`fail
    ensures r.None? || file.fail ==> ColumnsAt(file.data, old(file.pos), n, []).Throws?
    ensures r.Some? && !file.fail ==> ColumnsAt(file.data, old(file.pos), n, []) == Got(r.value, file.pos)
  {
    hide Int64At, StringAt;
    var columns: seq<Column> := [];
    var c: int := 0;
    var cardinality: int := n;
    ghost var whole := ColumnsAt(file.data, file.pos, n, []);
    while c < cardinality
      invariant 0 <= c && (n >= 0 ==> c <= n)
      invariant if file.fail then whole.Throws? else whole == ColumnsAt(file.data, file.pos, cardinality - c, columns)
    {
      var code := ReadInt64(file);
      if code.None? {
        return None;
      }
      var name := ReadString(file);
      if name.None? {
        return None;
      }
      columns := columns + [Column(name.value, ToInt32(code.value))];
      c := c + 1;
    }
    r := Some(columns);
  }

  method ReadIndex(file: Stream, name: Name) returns (r: Option<Option<IndexInfo>>)
    modifies file`pos, file`fail
    ensures r.None? ==> old(file.fail) || IndexAt(file.data, old(file.pos), name).Throws?
    ensures r.Some? ==> !old(file.fail) && !file.fail
    ensures r.Some? ==> IndexAt(file.data, old(file.pos), name) == Got(r.value, file.pos)
  {
    hide Dec64, Lower, ToInt32;
    var kind := ReadInt64(file);
    if kind.None? {
      return None;
    }
    if ToInt32(kind.value) == B_PLUS_TREE_CODE {
      var key := ReadInt64(file);
      if key.None? {
        return None;
      }
      r := Some(Some(IndexInfo(ToInt32(key.value), Lower(name))));
    } else {
      r := Some(None);
    }
  }

  method ReadTable(file: Stream) returns (r: Option<TableInfo>)
    requires !file.fail
    modifies file`pos, file`fail
    ensures r.None? ==> TableAt(file.data, old(file.pos)).Throws?
    ensures r.Some? ==> !file.fail && TableAt(file.data, old(file.pos)) == Got(r.value, file.pos)
  {
    hide Int64At, StringAt, ColumnsAt, IndexAt;
    var name := ReadString(file);
    if name.None? {
      return None;
    }
    var cardinality := ReadInt64(file);
    if cardinality.None? {
      return None;
    }
    var columns := ReadColumns(file, cardinality.value);
    if columns.None? {
      return None;
    }
    var index := ReadIndex(file, name.value);
    if index.None? {
      return None;
    }
    r := Some(TableInfo(name.value, columns.value, index.value));
  }

  class Catalog {
    var tables: seq<TableInfo>
    var tableNameIdx: map<Name, nat>
    const file: Stream

    ghost predicate Valid()
      reads this, file
    {
      !file.fail && NamesOk(tables, tableNameIdx)
    }

    constructor (file: Stream)
      requires !file.fail
      ensures this.file == file && tables == [] && Valid()
    {
      this.file, tables, tableNameIdx := file, [], map[];
    }

    /** The part of the original's constructor after opening the file; false if it throws. */
    method Load() returns (ok: bool)
      requires Valid() && tables == []
      modifies this, file`pos, file`fail
      ensures ok == CatalogAt(file.data).Got?
      ensures ok ==> Valid() && tables == CatalogAt(file.data).value
    {
      hide Int64At, TableAt, NamesOk;
      if file.data == [] {
        return true;
      }
      file.SeekBegin();
      var tablesCount := ReadInt64(file);
      if tablesCount.None? {
        return false;
      }
      var i: int := 0;
      var n: int := tablesCount.value;
      ghost var whole := TablesAt(file.data, file.pos, n, []);
      while i < n
        invariant 0 <= i && (n >= 0 ==> i <= n)
        invariant Valid() && whole == TablesAt(file.data, file.pos, n - i, tables)
      {
        var table := ReadTable(file);
        if table.None? {
          return false;
        }
        NamesAppend(tables, tableNameIdx, table.value);
        tableNameIdx := WithName(tableNameIdx, table.value.name, |tables|);
        tables := tables + [table.value];
        i := i + 1;
      }
      return true;
    }

    /** The destructor. The file is written from the start and not cut, so the end of a longer one stays. */
    method Save()
      requires Valid() && AllSized(tables)
      modifies file`pos, file`data
      ensures Valid() && file.data == Overwritten(old(file.data), 0, EncCatalog(tables))
    {
      hide Enc64, Overwritten, NamesOk, EncTable;
      file.SeekBegin();
      ghost var b := file.data;
      WriteInt64(file, |tables|);
      ghost var head := Enc64(|tables|);
      assert head + EncTables(tables[..0]) == head;
      for i := 0 to |tables|
        invariant Valid() && file.pos <= |file.data|
        invariant file.pos == |head + EncTables(tables[..i])|
        invariant file.data == Overwritten(b, 0, head + EncTables(tables[..i]))
      {
        EncTablesSnoc(tables, i);
        Associative(head, EncTables(tables[..i]), EncTable(tables[i]));
        OverwrittenTwice(b, 0, head + EncTables(tables[..i]), EncTable(tables[i]));
        WriteTable(file, tables[i]);
      }
      assert tables[..|tables|] == tables;
    }

    /** create_table; false if it throws. */
    method CreateTable(tableName: Name, columns: seq<Column>) returns (ok: bool)
      requires Valid()
      modifies this
      ensures Valid() && ok == (forall t :: t in old(tables) ==> t.name != Lower(tableName))
      ensures tables == if ok then old(tables) + [TableInfo(Lower(tableName), columns, None)] else old(tables)
      ensures tableNameIdx == if ok then old(tableNameIdx)[Lower(tableName) := |old(tables)|] else old(tableNameIdx)
      ensures LowerNames(old(tables)) ==> LowerNames(tables) && ok == !HasNameButCase(old(tables), tableName)
      ensures ok ==> forall n: Name :: SameButCase(n, tableName) ==> Lower(n) in tableNameIdx
    {
      hide Lower, SameButCase, HasNameButCase;
      NewName(tables, tableName);
      var name := Lower(tableName);
      if name in tableNameIdx {
        return false;
      }
      NamesAppend(tables, tableNameIdx, TableInfo(name, columns, None));
      tableNameIdx := WithName(tableNameIdx, name, |tables|);
      tables := tables + [TableInfo(name, columns, None)];
      return true;
    }

    /** get_table_pos; None if it throws. */
    method GetTablePos(tableName: Name) returns (r: Option<nat>)
      requires Valid()
      ensures r.Some? ==> r.value < |tables| && tables[r.value].name == Lower(tableName)
      ensures forall i :: 0 <= i < |tables| && (r.Some? ==> i < r.value) ==> tables[i].name != Lower(tableName)
      ensures r.Some? ==> SameButCase(tables[r.value].name, tableName)
      ensures LowerNames(tables) ==> (r.None? <==> !HasNameButCase(tables, tableName))
    {
      hide Lower, SameButCase, HasNameButCase;
      NewName(tables, tableName);
      var name := Lower(tableName);
      r := if name in tableNameIdx then Some(tableNameIdx[name]) else None;
    }

    method TableExists(tableName: Name) returns (b: bool)
      requires Valid()
      ensures b <==> exists t :: t in tables && t.name == Lower(tableName)
      ensures LowerNames(tables) ==> (b <==> HasNameButCase(tables, tableName))
    {
      hide Lower, SameButCase, HasNameButCase;
      NewName(tables, tableName);
      b := Lower(tableName) in tableNameIdx;
      if b {
        assert tables[tableNameIdx[Lower(tableName)]] in tables;
      }
    }

    /** get_datatype; None if it throws. */
    method GetDatatype(tableName: Name, colName: Name) returns (r: Option<int32>)
      requires Valid()
      ensures r.Some? ==> exists i, k ::
        && IsFirst(tables, Lower(tableName), i)
        && 0 <= k < |tables[i].columns| && tables[i].columns[k] == Column(colName, r.value)
        && forall j :: 0 <= j < k ==> tables[i].columns[j].name != colName
      ensures r.None? ==> forall i, k ::
        IsFirst(tables, Lower(tableName), i) && 0 <= k < |tables[i].columns| ==> tables[i].columns[k].name != colName
    {
      hide Lower;
      var pos := GetTablePos(tableName);
      if pos.None? {
        return None;
      }
      var columns := tables[pos.value].columns;
      for k := 0 to |columns|
        invariant forall j :: 0 <= j < k ==> columns[j].name != colName
      {
        if columns[k].name == colName {
          return Some(columns[k].code);
        }
      }
      return None;
    }

    /** create_index, apart from filling the index; false if it throws. The suffix is not written to the file. */
    method CreateIndex(tableName: Name, keyCol: int32) returns (ok: bool)
      requires Valid()
      modifies this`tables
      ensures Valid() && |tables| == |old(tables)| && tableNameIdx == old(tableNameIdx)
      ensures ok == (Lower(tableName) in tableNameIdx && old(tables)[tableNameIdx[Lower(tableName)]].index.None?)
      ensures !ok ==> tables == old(tables)
      ensures ok ==> var k := tableNameIdx[Lower(tableName)];
                     var info := IndexInfo(keyCol, Lower(tableName) + SUFFIX);
                     && tables == old(tables)[k := old(tables)[k].(index := Some(info))]
                     && info.base == Lower(tableName) + ['.' as int, 'b' as int, 'p' as int, 't' as int]
      ensures LowerNames(old(tables)) ==> LowerNames(tables)
    {
      hide Lower;
      var pos := GetTablePos(tableName);
      if pos.None? || tables[pos.value].index.Some? {
        return false;
      }
      var t := tables[pos.value].(index := Some(IndexInfo(keyCol, Lower(tableName) + SUFFIX)));
      NamesReplace(tables, tableNameIdx, pos.value, t);
      tables := tables[pos.value := t];
      return true;
    }
  }

  /** ".bpt" */
  const SUFFIX: seq<byte> := [46, 98, 112, 116]

  method WriteTable(file: Stream, t: TableInfo)
    requires !file.fail && file.pos <= |file.data| && Sized(t)
    modifies file`pos, file`data
    ensures file.data == Overwritten(old(file.data), old(file.pos), EncTable(t))
    ensures file.pos == old(file.pos) + |EncTable(t)| <= |file.data|
  {
    hide Enc64, Overwritten, EncString, EncColumns, EncIndex;
    ghost var b, p := file.data, file.pos;
    var n := |t.columns|;
    WriteString(file, t.name);
    WriteInt64(file, n);
    OverwrittenTwice(b, p, EncString(t.name), Enc64(n));
    WriteColumns(file, t.columns);
    OverwrittenTwice(b, p, EncString(t.name) + Enc64(n), EncColumns(t.columns));
    WriteIndex(file, t.index);
    OverwrittenTwice(b, p, EncString(t.name) + Enc64(n) + EncColumns(t.columns), EncIndex(t.index));
    FourParts(EncString(t.name), Enc64(n), EncColumns(t.columns), EncIndex(t.index));
  }

  lemma FourParts<T>(a: seq<T>, b: seq<T>, c: seq<T>, d: seq<T>)
    ensures a + b + c + d == a + (b + (c + d))
  {
  }

  method WriteColumns(file: Stream, cs: seq<Column>)
    requires !file.fail && file.pos <= |file.data|
    modifies file`pos, file`data
    ensures file.data == Overwritten(old(file.data), old(file.pos), EncColumns(cs))
    ensures file.pos == old(file.pos) + |EncColumns(cs)| <= |file.data|
  {
    hide Enc64, Overwritten, EncString;
    ghost var b, p := file.data, file.pos;
    OverwrittenNothing(b, p);
    for i := 0 to |cs|
      invariant file.pos == p + |EncColumns(cs[..i])| <= |file.data|
      invariant file.data == Overwritten(b, p, EncColumns(cs[..i]))
    {
      ghost var s := EncColumns(cs[..i]);
      EncColumnsSnoc(cs, i);
      WriteInt64(file, cs[i].code);
      OverwrittenTwice(b, p, s, Enc64(cs[i].code));
      WriteString(file, cs[i].name);
      OverwrittenTwice(b, p, s + Enc64(cs[i].code), EncString(cs[i].name));
      Associative(s, Enc64(cs[i].code), EncString(cs[i].name));
    }
    assert cs[..|cs|] == cs;
  }

  method WriteIndex(file: Stream, o: Option<IndexInfo>)
    requires !file.fail && file.pos <= |file.data|
    modifies file`pos, file`data
    ensures file.data == Overwritten(old(file.data), old(file.pos), EncIndex(o))
    ensures file.pos == old(file.pos) + |EncIndex(o)| <= |file.data|
  {
    hide Enc64, Overwritten;
    if o.None? {
      WriteInt64(file, NONE_CODE);
    } else {
      OverwrittenTwice(file.data, file.pos, Enc64(B_PLUS_TREE_CODE), Enc64(o.value.keyCol));
      WriteInt64(file, B_PLUS_TREE_CODE);
      WriteInt64(file, o.value.keyCol);
    }
  }

  lemma OverwrittenNothing(b: seq<byte>, off: nat)
    requires off <= |b|
    ensures Overwritten(b, off, []) == b
  {
  }

  lemma {:induction false} EncColumnsSnoc(cs: seq<Column>, i: nat)
    requires i < |cs|
    ensures EncColumns(cs[..i + 1]) == EncColumns(cs[..i]) + EncColumn(cs[i])
    decreases i
  {
    hide EncColumn;
    if i == 0 {
      assert cs[..1] == [cs[0]] && cs[..1][1..] == [];
    } else {
      EncColumnsSnoc(cs[1..], i - 1);
      assert cs[..i + 1][1..] == cs[1..][..i] && cs[..i][1..] == cs[1..][..i - 1] && cs[1..][i - 1] == cs[i];
      Associative(EncColumn(cs[0]), EncColumns(cs[1..][..i - 1]), EncColumn(cs[i]));
    }
  }

  lemma {:induction false} EncTablesSnoc(ts: seq<TableInfo>, i: nat)
    requires i < |ts| && forall j :: 0 <= j < |ts| ==> Sized(ts[j])
    ensures EncTables(ts[..i + 1]) == EncTables(ts[..i]) + EncTable(ts[i])
    decreases i
  {
    hide EncTable;
    if i == 0 {
      assert ts[..1] == [ts[0]] && ts[..1][1..] == [];
    } else {
      EncTablesSnoc(ts[1..], i - 1);
      assert ts[..i + 1][1..] == ts[1..][..i] && ts[..i][1..] == ts[1..][..i - 1] && ts[1..][i - 1] == ts[i];
      Associative(EncTable(ts[0]), EncTables(ts[1..][..i - 1]), EncTable(ts[i]));
    }
  }

  /** Closing and opening again: every table is found under the same names as before, with the same columns
      and the same key column, whatever an earlier catalog left at the end of the file. */
  method Restart(c: Catalog) returns (c': Catalog)
    requires c.Valid() && AllSized(c.tables)
    modifies c.file
    ensures c'.Valid() && c'.tables == ReopenedAll(c.tables) && c'.tableNameIdx == c.tableNameIdx
    ensures LowerNames(c.tables) ==> LowerNames(c'.tables)
    ensures c'.tables == c.tables <==>
            forall i :: 0 <= i < |c.tables| && c.tables[i].index.Some? ==>
                  c.tables[i].index.value.base == Lower(c.tables[i].name)
  {
    hide Lower, NamesOk, EncCatalog, CatalogAt;
    ghost var b, code := c.file.data, EncCatalog(c.tables);
    c.Save();
    OverwrittenTail(b, code);
    ghost var tail := c.file.data[|code|..];
    CatalogBack(c.tables, tail);
    var file := new Stream(c.file.data);
    c' := new Catalog(file);
    var ok := c'.Load();
    NamesReopened(c.tables, c.tableNameIdx);
    NamesUnique(ReopenedAll(c.tables), c.tableNameIdx, c'.tables, c'.tableNameIdx);
    ReopenExact(c.tables);
  }

  lemma OverwrittenTail(b: seq<byte>, s: seq<byte>)
    ensures var r := Overwritten(b, 0, s); |s| <= |r| && r == s + r[|s|..]
  {
  }

  /** A table indexed by create_index does not come back with its index. */
  lemma SuffixLost(t: TableInfo)
    requires t.index.Some? && t.index.value.base == Lower(t.name) + SUFFIX
    ensures Reopened(t) != t && Reopened(t).index.Some?
  {
    assert |t.index.value.base| != |Lower(t.name)|;
  }

  /** create_index and then a restart: the table has an index again, with the same key column, but its files
      are looked for under a name without the suffix. */
  method IndexAndRestart(c: Catalog, tableName: Name, keyCol: int32) returns (ok: bool, c': Catalog)
    requires c.Valid() && AllSized(c.tables)
    modifies c`tables, c.file
    ensures c'.Valid() && c'.tableNameIdx == c.tableNameIdx && |c'.tables| == |c.tables|
    ensures ok ==> var name := Lower(tableName);
                   && name in c.tableNameIdx && c.tableNameIdx[name] < |c.tables|
                   && c.tables[c.tableNameIdx[name]].index == Some(IndexInfo(keyCol, name + SUFFIX))
                   && c'.tables[c.tableNameIdx[name]].index == Some(IndexInfo(keyCol, name))
                   && c'.tables != c.tables
  {
    hide Lower, EncCatalog, CatalogAt;
    ok := c.CreateIndex(tableName, keyCol);
    assert AllSized(c.tables);
    c' := Restart(c);
    if ok {
      var k := c.tableNameIdx[Lower(tableName)];
      LowerTwice(tableName);
      SuffixLost(c.tables[k]);
      assert c'.tables[k] == Reopened(c.tables[k]);
    }
  }
}
