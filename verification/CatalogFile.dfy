/** The catalog's file format (src/system/catalog.cc): nested lists with length prefixes, written and read
    through a stream that remembers a failed read. */
module CatalogFiles {
  import opened Bytes
  import opened Values
  import opened StringKeys

  /** A file stream, as far as the catalog uses one: a read past the end makes it fail, and once it has failed
      nothing is read or written any more. */
  class Stream {
    var data: seq<byte>
    var pos: nat
    var fail: bool

    constructor (data: seq<byte>)
      ensures this.data == data && pos == 0 && !fail
    {
      this.data, pos, fail := data, 0, false;
    }

    method SeekBegin()
      modifies `pos
      ensures pos == if fail then old(pos) else 0
    {
      pos := if fail then pos else 0;
    }

    /** Up to n bytes. */
    method Read(n: nat) returns (s: seq<byte>)
      modifies `pos, `fail
      ensures fail == (old(fail) || old(pos) + n > |data|)
      ensures !fail ==> s == data[old(pos)..old(pos) + n] && pos == old(pos) + n
    {
      if fail {
        return [];
      }
      if pos + n <= |data| {
        s := data[pos..pos + n];
        pos := pos + n;
      } else {
        s := if pos <= |data| then data[pos..] else [];
        pos, fail := |data|, true;
      }
    }

    method Write(s: seq<byte>)
      requires pos <= |data|
      modifies `pos, `data
      ensures fail ==> data == old(data) && pos == old(pos)
      ensures !fail ==> data == Overwritten(old(data), old(pos), s) && pos == old(pos) + |s| <= |data|
    {
      if !fail {
        data := Overwritten(data, pos, s);
        pos := pos + |s|;
      }
    }
  }

  /** b with the bytes from off on replaced by s, and longer if s does not fit. */
  function Overwritten(b: seq<byte>, off: nat, s: seq<byte>): (r: seq<byte>)
    requires off <= |b|
    ensures |r| >= off + |s| && r[..off] == b[..off] && r[off..off + |s|] == s
  {
    b[..off] + s + if off + |s| <= |b| then b[off + |s|..] else []
  }

  /** Two adjacent writes are one write. */
  lemma OverwrittenTwice(b: seq<byte>, off: nat, s: seq<byte>, t: seq<byte>)
    requires off <= |b|
    ensures Overwritten(Overwritten(b, off, s), off + |s|, t) == Overwritten(b, off, s + t)
  {
  }

  // ---------- int64 ----------

  /** x >> k */
  function Shr(x: int, k: nat): int {
    if k == 0 then x else Shr(x, k - 1) / 2
  }

  lemma ShrByte(x: int, k: nat)
    ensures Shr(x, k + 8) == Shr(x, k) / 256
  {
    assert Shr(x, k + 2) == Shr(x, k) / 4;
    assert Shr(x, k + 4) == Shr(x, k + 2) / 4;
    assert Shr(x, k + 6) == Shr(x, k + 4) / 4;
    assert Shr(x, k + 8) == Shr(x, k + 6) / 4;
  }

  lemma ShlByte(x: int, k: nat)
    ensures Shl(x, k + 8) == 256 * Shl(x, k)
  {
    assert Shl(x, k + 2) == 4 * Shl(x, k);
    assert Shl(x, k + 4) == 4 * Shl(x, k + 2);
    assert Shl(x, k + 6) == 4 * Shl(x, k + 4);
    assert Shl(x, k + 8) == 4 * Shl(x, k + 6);
  }

  lemma {:induction false} OrCommutes(x: int, y: int)
    ensures Or(x, y) == Or(y, x)
    decreases StringKeys.Abs(x) + StringKeys.Abs(y)
  {
    if !(-1 <= x <= 0 && -1 <= y <= 0) {
      OrCommutes(x / 2, y / 2);
    }
  }

  lemma {:induction false} UnsignedSnoc(s: seq<byte>, b: byte)
    ensures Unsigned(s + [b]) == Unsigned(s) + b * Pow256(|s|)
  {
    if s == [] {
      assert (s + [b])[1..] == [];
    } else {
      UnsignedSnoc(s[1..], b);
      assert (s + [b])[1..] == s[1..] + [b];
      Distribute(b, Pow256(|s| - 1));
    }
  }

  lemma Distribute(b: int, p: int)
    ensures 256 * (b * p) == b * (256 * p)
  {
  }

  /** static_cast<int64_t>(byte) << (8 * i) */
  function ByteAt(b: byte, i: nat): int {
    Shl(if i == 7 then Signed(b) else b, 8 * i)
  }

  lemma {:induction false} ShlIs(x: int, i: nat)
    ensures Shl(x, 8 * i) == x * Pow256(i)
  {
    if i > 0 {
      ShlIs(x, i - 1);
      ShlByte(x, 8 * (i - 1));
      Distribute(x, Pow256(i - 1));
    }
  }

  /** Or-ing in byte number i appends it to the number read so far. */
  lemma OrByte(s: seq<byte>, b: byte)
    requires |s| < 8
    ensures Or(Unsigned(s), ByteAt(b, |s|)) == if |s| < 7 then Unsigned(s + [b]) else Dec64(s + [b])
  {
    var x := if |s| == 7 then Signed(b) else b;
    UnsignedBound(s);
    ShlIs(1, |s|);
    ShlIs(x, |s|);
    OrCommutes(Unsigned(s), Shl(x, 8 * |s|));
    OrBelow(x, Unsigned(s), 8 * |s|);
    UnsignedSnoc(s, b);
    if |s| == 7 {
      TopByte(Unsigned(s), b);
    }
  }

  lemma TopByte(u: nat, b: byte)
    requires u < Pow256(7)
    ensures var w := u + b * Pow256(7);
            u + Signed(b) * Pow256(7) == if w >= 0x8000_0000_0000_0000 then w - 0x1_0000_0000_0000_0000 else w
  {
    assert Pow256(7) == 0x100_0000_0000_0000 by {
      Pow256Values();
      assert Pow256(8) == 256 * Pow256(7);
    }
  }

  lemma {:induction false} LittleEndianDigit(u: nat, i: nat, n: nat)
    requires i < n
    ensures LittleEndian(u, n)[i] == Shr(u, 8 * i) % 256
    decreases i
  {
    assert Shr(u, 0) == u;
    if i > 0 {
      LittleEndianDigit(u / 256, i - 1, n - 1);
      ShrByte(u, 0);
      ShrShr(u, 8, 8 * (i - 1));
    }
  }

  lemma {:induction false} ShrShr(x: int, j: nat, k: nat)
    ensures Shr(Shr(x, j), k) == Shr(x, j + k)
  {
    if k > 0 {
      ShrShr(x, j, k - 1);
    }
  }

  /** Adding 2^64 changes none of the eight low bytes. */
  lemma {:induction false} ShrWrapped(n: int, i: nat)
    requires i <= 8
    ensures Shr(n + Pow256(8), 8 * i) == Shr(n, 8 * i) + Pow256(8 - i)
  {
    hide Pow256;
    if i > 0 {
      ShrWrapped(n, i - 1);
      ShrByte(n, 8 * (i - 1));
      ShrByte(n + Pow256(8), 8 * (i - 1));
      Pow256Next(8 - i);
      HighBytes(Shr(n, 8 * (i - 1)), Pow256(8 - i));
    }
  }

  lemma HighBytes(x: int, y: int)
    ensures (x + 256 * y) / 256 == x / 256 + y
  {
  }

  /** Byte i of the encoding of n is (n >> 8 * i) & 0xFF, for negative n too. */
  lemma Enc64Byte(n: int64, i: nat)
    requires i < 8
    ensures Enc64(n)[i] == Shr(n, 8 * i) % 256
  {
    hide Shr, LittleEndian, Dec64;
    Pow256Values();
    var u := if n < 0 then n + Pow256(8) else n;
    LittleEndianDigit(u, i, 8);
    if n < 0 {
      ShrWrapped(n, i);
      Pow256Next(7 - i);
      LowByte(Shr(n, 8 * i), Pow256(7 - i));
    }
  }

  lemma Pow256Next(i: nat)
    ensures Pow256(i + 1) == 256 * Pow256(i)
  {
  }

  lemma LowByte(x: int, y: int)
    ensures (x + 256 * y) % 256 == x % 256
  {
  }

  // ---------- what the bytes mean ----------

  /** A name is shorter than 2^63 bytes, as every string is. */
  type Name = s: seq<byte> | |s| < 0x8000_0000_0000_0000 witness []

  /** Types of columns and of indexes are read back as plain numbers, whatever they are. */
  datatype Column = Column(name: Name, code: int32)

  /** A B+ tree index: its key column, and the name its two files start with. */
  datatype IndexInfo = IndexInfo(keyCol: int32, base: seq<byte>)

  datatype TableInfo = TableInfo(name: Name, columns: seq<Column>, index: Option<IndexInfo>)

  const NONE_CODE: int64 := 0
  const B_PLUS_TREE_CODE: int64 := 1

  /** A conversion to a 32-bit type. */
  function ToInt32(x: int): (y: int32)
    ensures -0x8000_0000 <= x < 0x8000_0000 ==> y == x
  {
    var u := x % 0x1_0000_0000;
    if u >= 0x8000_0000 then u - 0x1_0000_0000 else u
  }

  /** Lower case. */
  function Lower(s: seq<byte>): (r: seq<byte>)
    ensures |r| == |s|
  {
    seq(|s|, i requires 0 <= i < |s| => if 65 <= s[i] <= 90 then s[i] + 32 else s[i])
  }

  lemma LowerTwice(s: seq<byte>)
    ensures Lower(Lower(s)) == Lower(s)
  {
  }

  /** The same byte, or the two cases of one letter. */
  predicate SameLetter(a: byte, b: byte) {
    a == b || ('A' as int <= a <= 'Z' as int && b == a + 32) || ('A' as int <= b <= 'Z' as int && a == b + 32)
  }

  predicate SameButCase(s: seq<byte>, t: seq<byte>) {
    |s| == |t| && forall i :: 0 <= i < |s| ==> SameLetter(s[i], t[i])
  }

  /** Lower has no capital letter, changes nothing else, and makes a capital letter the small one. */
  lemma LowerBytes(s: seq<byte>, i: nat)
    requires i < |s|
    ensures var c := Lower(s)[i];
            && !('A' as int <= c <= 'Z' as int)
            && if 'A' as int <= s[i] <= 'Z' as int then c - s[i] == 'a' as int - 'A' as int else c == s[i]
  {
  }

  /** Two names are the same to the catalog exactly if they agree up to the case of letters. */
  lemma LowerMeets(s: seq<byte>, t: seq<byte>)
    ensures Lower(s) == Lower(t) <==> SameButCase(s, t)
  {
    hide Lower, SameLetter;
    if Lower(s) == Lower(t) {
      assert |s| == |Lower(s)| == |Lower(t)| == |t|;
      forall i | 0 <= i < |s| ensures SameLetter(s[i], t[i]) {
        LetterMeets(s, t, i);
      }
    }
    if SameButCase(s, t) {
      forall i | 0 <= i < |s| ensures Lower(s)[i] == Lower(t)[i] {
        LetterMeets(s, t, i);
      }
    }
  }

  lemma LetterMeets(s: seq<byte>, t: seq<byte>, i: nat)
    requires i < |s| && i < |t|
    ensures Lower(s)[i] == Lower(t)[i] <==> SameLetter(s[i], t[i])
  {
  }

  predicate HasName(ts: seq<TableInfo>, name: seq<byte>) {
    exists t :: t in ts && t.name == name
  }

  predicate HasNameButCase(ts: seq<TableInfo>, name: seq<byte>) {
    exists t :: t in ts && SameButCase(t.name, name)
  }

  /** The names of the tables are in lower case, as create_table makes them. */
  predicate LowerNames(ts: seq<TableInfo>) {
    forall t :: t in ts ==> t.name == Lower(t.name)
  }

  /** Then a lookup finds a table of that name in any case. */
  lemma FoundInAnyCase(ts: seq<TableInfo>, name: seq<byte>)
    requires LowerNames(ts)
    ensures HasName(ts, Lower(name)) <==> HasNameButCase(ts, name)
  {
    hide Lower, SameButCase;
    forall t | t in ts ensures t.name == Lower(name) <==> SameButCase(t.name, name) {
      LowerMeets(t.name, name);
    }
  }

  /** A catalog file may have names with capital letters, which no lookup finds: lookups find tables in any case
      exactly if for every table there is one whose name is its name in lower case. */
  lemma FoundInAnyCaseExact(ts: seq<TableInfo>)
    ensures (forall name: Name :: HasName(ts, Lower(name)) <==> HasNameButCase(ts, name)) <==>
            forall t :: t in ts ==> HasName(ts, Lower(t.name))
  {
    hide Lower, SameButCase, HasName, HasNameButCase;
    if forall name: Name :: HasName(ts, Lower(name)) <==> HasNameButCase(ts, name) {
      forall t | t in ts ensures HasName(ts, Lower(t.name)) {
        OwnName(ts, t);
      }
    }
    if forall t :: t in ts ==> HasName(ts, Lower(t.name)) {
      forall name: Name ensures HasName(ts, Lower(name)) <==> HasNameButCase(ts, name) {
        EveryCase(ts, name);
      }
    }
  }

  lemma OwnName(ts: seq<TableInfo>, t: TableInfo)
    requires t in ts
    ensures HasNameButCase(ts, t.name)
  {
    LowerMeets(t.name, t.name);
  }

  lemma EveryCase(ts: seq<TableInfo>, name: seq<byte>)
    requires forall t :: t in ts ==> HasName(ts, Lower(t.name))
    ensures HasName(ts, Lower(name)) <==> HasNameButCase(ts, name)
  {
    hide Lower, SameButCase;
    if t :| t in ts && t.name == Lower(name) {
      LowerTwice(name);
      LowerMeets(t.name, name);
    }
    if t :| t in ts && SameButCase(t.name, name) {
      LowerMeets(t.name, name);
    }
  }

  function EncString(s: Name): seq<byte> {
    Enc64(|s|) + s
  }

  function EncColumn(c: Column): seq<byte> {
    Enc64(c.code) + EncString(c.name)
  }

  function EncColumns(cs: seq<Column>): seq<byte> {
    if cs == [] then [] else EncColumn(cs[0]) + EncColumns(cs[1..])
  }

  function EncIndex(o: Option<IndexInfo>): seq<byte> {
    if o.None? then Enc64(NONE_CODE) else Enc64(B_PLUS_TREE_CODE) + Enc64(o.value.keyCol)
  }

  /** No index is eight zero bytes; a B+ tree is a one, seven zero bytes, and the key column. */
  lemma IndexBytes(o: Option<IndexInfo>)
    ensures EncIndex(o) ==
              if o.None? then [0, 0, 0, 0, 0, 0, 0, 0] else [1, 0, 0, 0, 0, 0, 0, 0] + Enc64(o.value.keyCol)
  {
    hide Unsigned, Dec64;
    SmallBytes(0);
    SmallBytes(1);
  }

  predicate Sized(t: TableInfo) {
    |t.columns| < 0x8000_0000_0000_0000
  }

  function EncTable(t: TableInfo): seq<byte>
    requires Sized(t)
  {
    EncString(t.name) + (Enc64(|t.columns|) + (EncColumns(t.columns) + EncIndex(t.index)))
  }

  predicate AllSized(ts: seq<TableInfo>) {
    |ts| < 0x8000_0000_0000_0000 && forall i :: 0 <= i < |ts| ==> Sized(ts[i])
  }

  function EncTables(ts: seq<TableInfo>): seq<byte>
    requires forall i :: 0 <= i < |ts| ==> Sized(ts[i])
  {
    if ts == [] then [] else EncTable(ts[0]) + EncTables(ts[1..])
  }

  function EncCatalog(ts: seq<TableInfo>): (s: seq<byte>)
    requires AllSized(ts)
    ensures |s| >= 8
  {
    Enc64(|ts|) + EncTables(ts)
  }

  /** A catalog of one table t with one integer column id and no index, byte by byte. */
  lemma OneTableBytes()
    ensures EncCatalog([TableInfo(['t' as int], [Column(['i' as int, 'd' as int], 1)], None)]) ==
              [1, 0, 0, 0, 0, 0, 0, 0]
              + ([1, 0, 0, 0, 0, 0, 0, 0, 't' as int]
                 + ([1, 0, 0, 0, 0, 0, 0, 0]
                    + ([1, 0, 0, 0, 0, 0, 0, 0, 2, 0, 0, 0, 0, 0, 0, 0, 'i' as int, 'd' as int]
                       + [0, 0, 0, 0, 0, 0, 0, 0])))
  {
    hide Enc64, EncString, EncColumn, EncIndex;
    OneColumnBytes();
    NamedT();
    IndexBytes(None);
    SmallBytes(1);
    var c := Column(['i' as int, 'd' as int], 1);
    var t := TableInfo(['t' as int], [c], None);
    assert EncColumns([c]) == EncColumn(c);
    assert EncTables([t]) == EncTable(t);
  }

  lemma OneColumnBytes()
    ensures EncColumn(Column(['i' as int, 'd' as int], 1)) ==
              [1, 0, 0, 0, 0, 0, 0, 0, 2, 0, 0, 0, 0, 0, 0, 0, 'i' as int, 'd' as int]
  {
    hide Enc64;
    SmallBytes(1);
    SmallBytes(2);
  }

  lemma NamedT()
    ensures EncString(['t' as int]) == [1, 0, 0, 0, 0, 0, 0, 0, 't' as int]
  {
    hide Enc64;
    SmallBytes(1);
  }

  // ---------- reading ----------

  /** Reading throws, or gets a value and goes on at end. */
  datatype Reading<+T> = Throws | Got(value: T, end: nat)

  function Int64At(b: seq<byte>, off: nat): Reading<int64> {
    if off + 8 <= |b| then Got(Get64(b, off), off + 8) else Throws
  }

  /** A string cut short by the end of the file counts as an error, because whatever is read next throws. */
  function StringAt(b: seq<byte>, off: nat): Reading<Name> {
    match Int64At(b, off)
    case Throws => Throws
    case Got(n, p) => if n < 0 || p + n > |b| then Throws else Got(b[p..p + n], p + n)
  }

  function ColumnAt(b: seq<byte>, off: nat): Reading<Column> {
    match Int64At(b, off)
    case Throws => Throws
    case Got(code, p) =>
      match StringAt(b, p)
      case Throws => Throws
      case Got(name, q) => Got(Column(name, ToInt32(code)), q)
  }

  /** n more columns after those in acc; a negative count is none. */
  function ColumnsAt(b: seq<byte>, off: nat, n: int, acc: seq<Column>): Reading<seq<Column>>
    decreases n
  {
    if n <= 0 then Got(acc, off)
    else
      match ColumnAt(b, off)
      case Throws => Throws
      case Got(c, p) => ColumnsAt(b, p, n - 1, acc + [c])
  }

  /** The index is opened under the table's name; an unknown index type is no index. */
  function IndexAt(b: seq<byte>, off: nat, name: Name): Reading<Option<IndexInfo>> {
    match Int64At(b, off)
    case Throws => Throws
    case Got(kind, p) =>
      if ToInt32(kind) != B_PLUS_TREE_CODE then Got(None, p)
      else
        match Int64At(b, p)
        case Throws => Throws
        case Got(key, q) => Got(Some(IndexInfo(ToInt32(key), Lower(name))), q)
  }

  /** The conversion keeps the four low bytes. */
  lemma ToInt32Bytes(s: seq<byte>)
    requires |s| == 8
    ensures ToInt32(Dec64(s)) == Dec32(s[..4])
  {
    hide Dec64, Dec32;
    Dec64Bytes(s);
    Dec32Bytes(s[..4]);
    LowByFour(FourDigits(s[0], s[1], s[2], s[3]), Dec32(s[4..]));
  }

  lemma LowByFour(x: nat, y: int)
    requires x < 0x1_0000_0000
    ensures (x + 0x1_0000_0000 * y) % 0x1_0000_0000 == x
  {
  }

  /** A type whose four low bytes are the number 1 is a B+ tree, whose key column follows; any other is no index. */
  lemma IndexRead(b: seq<byte>, off: nat, name: Name)
    ensures off + 8 <= |b| && b[off..off + 4] != [1, 0, 0, 0] ==> IndexAt(b, off, name) == Got(None, off + 8)
    ensures off + 16 <= |b| && b[off..off + 4] == [1, 0, 0, 0] ==>
              && IndexAt(b, off, name) ==
                   Got(Some(IndexInfo(Dec32(b[off + 8..off + 12]), Lower(name))), off + 16)
    ensures IndexAt(b, off, name).Throws? <==>
              off + 8 > |b| || (off + 16 > |b| && b[off..off + 4] == [1, 0, 0, 0])
  {
    hide ToInt32, Dec64, Dec32, Lower;
    if off + 8 <= |b| {
      var s := b[off..off + 8];
      ToInt32Bytes(s);
      assert s[..4] == b[off..off + 4];
      OneIs(s[..4]);
    }
    if off + 16 <= |b| {
      var s := b[off + 8..off + 16];
      ToInt32Bytes(s);
      assert s[..4] == b[off + 8..off + 12];
    }
  }

  lemma OneIs(s: seq<byte>)
    requires |s| == 4
    ensures Dec32(s) == 1 <==> s == [1, 0, 0, 0]
  {
    hide Dec32;
    Dec32Bytes(s);
    Dec32Bytes([1, 0, 0, 0]);
  }

  /** The columns and the index of a table, its name and number of columns being read. */
  function BodyAt(b: seq<byte>, off: nat, name: Name, n: int): Reading<TableInfo> {
    match ColumnsAt(b, off, n, [])
    case Throws => Throws
    case Got(cs, p) =>
      match IndexAt(b, p, name)
      case Throws => Throws
      case Got(o, q) => Got(TableInfo(name, cs, o), q)
  }

  function TableAt(b: seq<byte>, off: nat): Reading<TableInfo> {
    match StringAt(b, off)
    case Throws => Throws
    case Got(name, p) =>
      match Int64At(b, p)
      case Throws => Throws
      case Got(n, q) => BodyAt(b, q, name, n)
  }

  function TablesAt(b: seq<byte>, off: nat, n: int, acc: seq<TableInfo>): Reading<seq<TableInfo>>
    decreases n
  {
    if n <= 0 then Got(acc, off)
    else
      match TableAt(b, off)
      case Throws => Throws
      case Got(t, p) => TablesAt(b, p, n - 1, acc + [t])
  }

  /** A file without bytes is a catalog without tables. */
  function CatalogAt(b: seq<byte>): Reading<seq<TableInfo>> {
    if b == [] then Got([], 0)
    else
      match Int64At(b, 0)
      case Throws => Throws
      case Got(n, p) => TablesAt(b, p, n, [])
  }

  // ---------- round trip ----------

  /** A table as a reopened catalog has it. */
  function Reopened(t: TableInfo): TableInfo {
    if t.index.None? then t else t.(index := Some(t.index.value.(base := Lower(t.name))))
  }

  function ReopenedAll(ts: seq<TableInfo>): (r: seq<TableInfo>)
    ensures |r| == |ts| && forall i :: 0 <= i < |r| ==> r[i] == Reopened(ts[i])
  {
    seq(|ts|, i requires 0 <= i < |ts| => Reopened(ts[i]))
  }

  lemma Int64Back(b: seq<byte>, off: nat, x: int64)
    requires HoldsAt(b, off, Enc64(x))
    ensures Int64At(b, off) == Got(x, off + 8)
  {
    hide Dec64, Enc64;
  }

  lemma StringBack(b: seq<byte>, off: nat, s: Name)
    requires HoldsAt(b, off, EncString(s))
    ensures StringAt(b, off) == Got(s, off + |EncString(s)|)
  {
    hide Dec64, Enc64, HoldsAt;
    HoldsAtParts(b, off, Enc64(|s|), s);
    Int64Back(b, off, |s|);
    HoldsAtSlice(b, off + 8, s);
  }

  lemma HoldsAtSlice(b: seq<byte>, off: nat, s: seq<byte>)
    requires HoldsAt(b, off, s)
    ensures off + |s| <= |b| && b[off..off + |s|] == s
  {
  }

  lemma ColumnBack(b: seq<byte>, off: nat, c: Column)
    requires HoldsAt(b, off, EncColumn(c))
    ensures ColumnAt(b, off) == Got(c, off + |EncColumn(c)|)
  {
    hide Dec64, Enc64, HoldsAt, EncString, StringAt, Int64At;
    HoldsAtParts(b, off, Enc64(c.code), EncString(c.name));
    Int64Back(b, off, c.code);
    StringBack(b, off + 8, c.name);
  }

  lemma {:induction false} ColumnsBack(b: seq<byte>, off: nat, cs: seq<Column>, acc: seq<Column>)
    requires HoldsAt(b, off, EncColumns(cs))
    ensures ColumnsAt(b, off, |cs|, acc) == Got(acc + cs, off + |EncColumns(cs)|)
    decreases |cs|
  {
    hide HoldsAt, EncColumn, ColumnAt;
    if cs != [] {
      HoldsAtParts(b, off, EncColumn(cs[0]), EncColumns(cs[1..]));
      ColumnBack(b, off, cs[0]);
      ColumnsBack(b, off + |EncColumn(cs[0])|, cs[1..], acc + [cs[0]]);
      Associative(acc, [cs[0]], cs[1..]);
      assert [cs[0]] + cs[1..] == cs;
    } else {
      assert acc + cs == acc;
    }
  }

  lemma IndexBack(b: seq<byte>, off: nat, o: Option<IndexInfo>, name: Name)
    requires HoldsAt(b, off, EncIndex(o))
    ensures IndexAt(b, off, name) ==
              Got(if o.None? then o else Some(o.value.(base := Lower(name))), off + |EncIndex(o)|)
  {
    hide Dec64, Enc64, HoldsAt, Int64At, Lower;
    if o.None? {
      Int64Back(b, off, NONE_CODE);
    } else {
      HoldsAtParts(b, off, Enc64(B_PLUS_TREE_CODE), Enc64(o.value.keyCol));
      Int64Back(b, off, B_PLUS_TREE_CODE);
      Int64Back(b, off + 8, o.value.keyCol);
    }
  }

  lemma TableBack(b: seq<byte>, off: nat, t: TableInfo)
    requires Sized(t) && HoldsAt(b, off, EncTable(t))
    ensures TableAt(b, off) == Got(Reopened(t), off + |EncTable(t)|)
  {
    hide Dec64, Enc64, HoldsAt, Int64At, StringAt, IndexAt, ColumnsAt, EncString, EncColumns, EncIndex, Lower;
    var head, cols, index := Enc64(|t.columns|), EncColumns(t.columns), EncIndex(t.index);
    var p := off + |EncString(t.name)|;
    HoldsAtParts(b, off, EncString(t.name), head + (cols + index));
    HoldsAtParts(b, p, head, cols + index);
    HoldsAtParts(b, p + 8, cols, index);
    StringBack(b, off, t.name);
    Int64Back(b, p, |t.columns|);
    ColumnsBack(b, p + 8, t.columns, []);
    assert [] + t.columns == t.columns;
    IndexBack(b, p + 8 + |cols|, t.index, t.name);
  }

  lemma {:induction false} TablesBack(b: seq<byte>, off: nat, ts: seq<TableInfo>, acc: seq<TableInfo>)
    requires (forall i :: 0 <= i < |ts| ==> Sized(ts[i])) && HoldsAt(b, off, EncTables(ts))
    ensures TablesAt(b, off, |ts|, acc) == Got(acc + ReopenedAll(ts), off + |EncTables(ts)|)
    decreases |ts|
  {
    hide HoldsAt, EncTable, TableAt, Reopened;
    if ts != [] {
      HoldsAtParts(b, off, EncTable(ts[0]), EncTables(ts[1..]));
      TableBack(b, off, ts[0]);
      var r := Reopened(ts[0]);
      TablesBack(b, off + |EncTable(ts[0])|, ts[1..], acc + [r]);
      Associative(acc, [r], ReopenedAll(ts[1..]));
      assert [r] + ReopenedAll(ts[1..]) == ReopenedAll(ts);
    } else {
      assert acc + ReopenedAll(ts) == acc;
    }
  }

  /** Round trip: what the destructor wrote reads back, whatever an earlier and longer catalog left behind it
      in the file; only the names of index files are forgotten. */
  lemma CatalogBack(ts: seq<TableInfo>, tail: seq<byte>)
    requires AllSized(ts)
    ensures CatalogAt(EncCatalog(ts) + tail) == Got(ReopenedAll(ts), |EncCatalog(ts)|)
  {
    hide Dec64, Enc64, HoldsAt, Int64At, TablesAt, EncTables;
    var b := EncCatalog(ts) + tail;
    HoldsInFront(EncCatalog(ts), tail);
    HoldsAtParts(b, 0, Enc64(|ts|), EncTables(ts));
    Int64Back(b, 0, |ts|);
    TablesBack(b, 8, ts, []);
    assert [] + ReopenedAll(ts) == ReopenedAll(ts);
  }

  lemma HoldsInFront(s: seq<byte>, t: seq<byte>)
    ensures HoldsAt(s + t, 0, s)
  {
  }

  /** A catalog comes back whole exactly when each index file is named after its table. */
  lemma ReopenExact(ts: seq<TableInfo>)
    ensures ReopenedAll(ts) == ts <==>
            forall i :: 0 <= i < |ts| && ts[i].index.Some? ==> ts[i].index.value.base == Lower(ts[i].name)
  {
    hide Lower;
    if ReopenedAll(ts) == ts {
      forall i | 0 <= i < |ts| && ts[i].index.Some? ensures ts[i].index.value.base == Lower(ts[i].name) {
        assert ReopenedAll(ts)[i] == ts[i];
      }
    }
  }

  /** Reopening a second time loses nothing more. */
  lemma ReopenTwice(ts: seq<TableInfo>)
    ensures ReopenedAll(ReopenedAll(ts)) == ReopenedAll(ts)
  {
    ReopenExact(ReopenedAll(ts));
  }
}
