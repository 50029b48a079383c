/** Values, their order, and the byte form records have inside a heap page
    (src/relational_model/value.cc, src/storage/heap_file/heap_file_page.cc). */
module Values {
  import opened Bytes

  datatype DataType = STR | INT

  /** A NUL-terminated string without its terminator. */
  type CString = s: seq<byte> | |s| <= 255 && 0 !in s witness []

  datatype Value = IntValue(i: int64) | StrValue(s: CString)

  type Row = seq<Value>
  type Schema = seq<DataType>

  function TypeOf(v: Value): DataType {
    if v.IntValue? then INT else STR
  }

  predicate HasSchema(r: Row, ts: Schema) {
    |r| == |ts| && forall i :: 0 <= i < |r| ==> TypeOf(r[i]) == ts[i]
  }

  // ---------- order ----------

  /** strcmp(a, b) < 0: bytes compare as unsigned numbers. */
  predicate StrLess(a: seq<byte>, b: seq<byte>) {
    if b == [] then false
    else if a == [] then true
    else a[0] < b[0] || (a[0] == b[0] && StrLess(a[1..], b[1..]))
  }

  predicate Less(a: Value, b: Value) {
    match (a, b)
    case (StrValue(x), StrValue(y)) => StrLess(x, y)
    case (IntValue(x), IntValue(y)) => x < y
    case (StrValue(_), IntValue(_)) => true
    case (IntValue(_), StrValue(_)) => false
  }

  /** value >= lo && value <= hi, as the operators of Value define them. */
  predicate Between(lo: Value, v: Value, hi: Value) {
    !Less(v, lo) && !Less(hi, v)
  }

  /** Integers are ordered as numbers: a bound is between itself. */
  lemma BetweenInts(a: int64, x: int64, b: int64)
    ensures Between(IntValue(a), IntValue(x), IntValue(b)) <==> a <= x <= b
  {
  }

  /** a comes before b: at the first byte where they differ it has the smaller one, or it ends there. */
  predicate FirstDiffers(a: seq<byte>, b: seq<byte>, k: nat) {
    && k <= |a| && k < |b| && a[..k] == b[..k]
    && (k < |a| ==> a[k] < b[k])
  }

  lemma {:induction false} DiffersLess(a: seq<byte>, b: seq<byte>, k: nat)
    requires FirstDiffers(a, b, k)
    ensures StrLess(a, b)
    decreases k
  {
    if k > 0 {
      assert a[..k][0] == b[..k][0];
      assert a[1..][..k - 1] == a[..k][1..] && b[1..][..k - 1] == b[..k][1..];
      DiffersLess(a[1..], b[1..], k - 1);
    }
  }

  lemma {:induction false} LessDiffers(a: seq<byte>, b: seq<byte>) returns (k: nat)
    requires StrLess(a, b)
    ensures FirstDiffers(a, b, k)
    decreases |a|
  {
    k := 0;
    if a != [] && a[0] == b[0] {
      var j := LessDiffers(a[1..], b[1..]);
      k := j + 1;
      assert a[..k] == [a[0]] + a[1..][..j] && b[..k] == [b[0]] + b[1..][..j];
    }
  }

  lemma StrLessExact(a: seq<byte>, b: seq<byte>)
    ensures StrLess(a, b) <==> exists k: nat :: FirstDiffers(a, b, k)
  {
    hide StrLess, FirstDiffers;
    if StrLess(a, b) {
      var k := LessDiffers(a, b);
    }
    forall k: nat | FirstDiffers(a, b, k) ensures StrLess(a, b) {
      DiffersLess(a, b, k);
    }
  }

  /** Strings are ordered as strcmp does. */
  lemma BetweenStrings(a: CString, x: CString, b: CString)
    ensures Between(StrValue(a), StrValue(x), StrValue(b)) <==>
              (forall k: nat :: !FirstDiffers(x, a, k)) && (forall k: nat :: !FirstDiffers(b, x, k))
  {
    StrLessExact(x, a);
    StrLessExact(b, x);
  }

  lemma {:induction false} StrLessSelf(s: seq<byte>)
    ensures !StrLess(s, s)
  {
    if s != [] {
      StrLessSelf(s[1..]);
    }
  }

  /** A bound is between itself and the other one, if they are in order. */
  lemma BoundsBetween(min: Value, max: Value)
    ensures Between(min, min, max) <==> !Less(max, min)
    ensures Between(min, max, max) <==> !Less(max, min)
  {
    if min.StrValue? { StrLessSelf(min.s); }
    if max.StrValue? { StrLessSelf(max.s); }
  }

  /** Every string comes before every integer. */
  lemma TypesOrdered(s: CString, i: int64)
    ensures Less(StrValue(s), IntValue(i)) && !Less(IntValue(i), StrValue(s))
  {
  }

  // ---------- records as bytes ----------

  function EncValue(v: Value): (s: seq<byte>)
    ensures |s| >= 1
  {
    match v
    case IntValue(i) => Enc64(i)
    case StrValue(s) => [|s|] + s
  }

  function Enc(r: Row): (s: seq<byte>)
    ensures |s| >= |r|
  {
    if r == [] then [] else EncValue(r[0]) + Enc(r[1..])
  }

  /** The record (1, "ab"): an integer takes eight bytes, a string one more than it has. */
  lemma RecordBytes()
    ensures Enc([IntValue(1), StrValue(['a' as int, 'b' as int])]) ==
              [1, 0, 0, 0, 0, 0, 0, 0] + [2, 'a' as int, 'b' as int]
  {
    hide Enc64;
    var v: Value := StrValue(['a' as int, 'b' as int]);
    SmallBytes(1);
    assert [IntValue(1), v][1..] == [v];
    assert Enc([v]) == EncValue(v) + Enc([]);
  }

  datatype Option<+T> = None | Some(value: T)

  datatype Parsed = Bad | Parsed(row: Row, end: nat)

  /** Reading one value of type t from offset off; None if it does not fit the buffer or is a string with a NUL. */
  function ParseValue(b: seq<byte>, off: nat, t: DataType): Option<Value> {
    match t
    case INT => if off + 8 > |b| then None else Some(IntValue(Get64(b, off)))
    case STR =>
      if off + 1 > |b| || off + 1 + b[off] > |b| || 0 in b[off + 1..off + 1 + b[off]] then None
      else Some(StrValue(b[off + 1..off + 1 + b[off]]))
  }

  /** Reading one record of the given column types from offset off; end is the offset after it. */
  function Parse(b: seq<byte>, off: nat, ts: Schema): Parsed
    decreases |ts|
  {
    if ts == [] then Parsed([], off)
    else
      match ParseValue(b, off, ts[0])
      case None => Bad
      case Some(v) =>
        match Parse(b, off + |EncValue(v)|, ts[1..])
        case Bad => Bad
        case Parsed(row, end) => Parsed([v] + row, end)
  }

  predicate HoldsAt(b: seq<byte>, off: nat, s: seq<byte>) {
    off + |s| <= |b| && b[off..off + |s|] == s
  }

  lemma HoldsAtParts(b: seq<byte>, off: nat, s: seq<byte>, t: seq<byte>)
    ensures HoldsAt(b, off, s + t) <==> HoldsAt(b, off, s) && HoldsAt(b, off + |s|, t)
  {
    if off + |s| + |t| <= |b| {
      var w := b[off..off + |s + t|];
      assert w[..|s|] == b[off..off + |s|] && w[|s|..] == b[off + |s|..off + |s| + |t|];
      assert w == w[..|s|] + w[|s|..];
    }
  }

  lemma HoldsAtNothing(b: seq<byte>, off: nat)
    requires off <= |b|
    ensures HoldsAt(b, off, [])
  {
  }

  lemma HoldsAtFits(b: seq<byte>, off: nat, s: seq<byte>)
    requires HoldsAt(b, off, s)
    ensures off + |s| <= |b|
  {
  }

  lemma ParseValueOfEnc(b: seq<byte>, off: nat, v: Value)
    requires HoldsAt(b, off, EncValue(v))
    ensures ParseValue(b, off, TypeOf(v)) == Some(v)
  {
    if v.StrValue? {
      HoldsAtParts(b, off, [|v.s|], v.s);
      assert b[off..off + 1][0] == b[off];
    }
  }

  lemma EncOfParseValue(b: seq<byte>, off: nat, t: DataType)
    requires ParseValue(b, off, t).Some?
    ensures var v := ParseValue(b, off, t).value; TypeOf(v) == t && HoldsAt(b, off, EncValue(v))
  {
    var v := ParseValue(b, off, t).value;
    if v.IntValue? {
      Enc64Dec64(b[off..off + 8]);
    } else {
      assert b[off..off + 1] == [b[off]];
      HoldsAtParts(b, off, [|v.s|], v.s);
    }
  }

  /** Round trip: wherever the bytes of a record stand, they read back as that record and nothing more. */
  lemma {:induction false} ParseOfEnc(b: seq<byte>, off: nat, r: Row, ts: Schema)
    requires HasSchema(r, ts) && HoldsAt(b, off, Enc(r))
    ensures Parse(b, off, ts) == Parsed(r, off + |Enc(r)|)
    decreases |r|
  {
    hide EncValue, ParseValue, HoldsAt;
    if r != [] {
      HoldsAtParts(b, off, EncValue(r[0]), Enc(r[1..]));
      ParseValueOfEnc(b, off, r[0]);
      ParseOfEnc(b, off + |EncValue(r[0])|, r[1..], ts[1..]);
    }
  }

  /** The converse: a record that reads back is exactly the bytes it was read from. */
  lemma {:induction false} EncOfParse(b: seq<byte>, off: nat, ts: Schema)
    requires Parse(b, off, ts).Parsed? && off <= |b|
    ensures var p := Parse(b, off, ts);
            HasSchema(p.row, ts) && HoldsAt(b, off, Enc(p.row)) && p.end == off + |Enc(p.row)|
    decreases |ts|
  {
    hide EncValue, ParseValue, HoldsAt;
    if ts == [] {
      HoldsAtNothing(b, off);
    } else {
      EncOfParseValue(b, off, ts[0]);
      var v := ParseValue(b, off, ts[0]).value;
      var off' := off + |EncValue(v)|;
      HoldsAtFits(b, off, EncValue(v));
      EncOfParse(b, off', ts[1..]);
      var p := Parse(b, off', ts[1..]);
      HoldsAtParts(b, off, EncValue(v), Enc(p.row));
      EncCons(v, p.row);
    }
  }

  lemma EncCons(v: Value, r: Row)
    ensures Enc([v] + r) == EncValue(v) + Enc(r)
  {
    assert ([v] + r)[1..] == r;
  }

  lemma Associative<T>(a: seq<T>, b: seq<T>, c: seq<T>)
    ensures (a + b) + c == a + (b + c)
  {
  }

  lemma ConsConcat<T>(r: seq<T>, s: seq<T>)
    requires |r| > 0
    ensures r + s == [r[0]] + (r[1..] + s)
  {
  }

  lemma CutAt<T>(r: seq<T>, k: nat)
    requires k < |r|
    ensures r[..k + 1] == r[..k] + [r[k]] && r == r[..k + 1] + r[k + 1..]
  {
  }

  lemma {:induction false} EncConcat(r: Row, s: Row)
    ensures Enc(r + s) == Enc(r) + Enc(s)
    decreases |r|
  {
    if r == [] {
      assert r + s == s;
    } else {
      var u := r[1..];
      EncConcat(u, s);
      ConsConcat(r, s);
      EncCons(r[0], u + s);
      Associative(EncValue(r[0]), Enc(u), Enc(s));
    }
  }

  lemma EncNothing()
    ensures Enc([]) == []
  {
  }

  lemma EncOne(v: Value)
    ensures Enc([v]) == EncValue(v)
  {
    EncCons(v, []);
    assert [v] + [] == [v];
  }

  /** The bytes of a record, cut before and after one of its values. */
  lemma EncSplit(r: Row, k: nat)
    requires k < |r|
    ensures Enc(r[..k + 1]) == Enc(r[..k]) + EncValue(r[k])
    ensures Enc(r) == Enc(r[..k + 1]) + Enc(r[k + 1..])
  {
    CutAt(r, k);
    EncConcat(r[..k], [r[k]]);
    EncConcat(r[..k + 1], r[k + 1..]);
    EncOne(r[k]);
  }
}
