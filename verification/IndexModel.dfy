/** What a range scan over an index should return, and why cutting the leaf chain at the encoded bounds loses
    nothing (src/storage/b_plus_tree/b_plus_tree.cc, b_plus_tree_iter.cc). */
module IndexModel {
  import opened Bytes
  import opened Values
  import opened StringKeys
  import opened HeapModel
  import opened BPlusTreeNodes
  import opened BPlusTreeModel

  /** The key of a value: an integer is its own key, a string is serialized. */
  function KeyOf(v: Value): int64 {
    match v
    case IntValue(i) => i
    case StrValue(s) => KeyRange(s); Key(s)
  }

  /** The index record of a row: its identifier under the key of its value in column col. */
  function RecOf(row: Row, rid: RID, col: nat): (r: Rec)
    ensures r.rid == rid
    ensures col < |row| && row[col].IntValue? ==> r.key == row[col].i
  {
    Rec(if col < |row| then KeyOf(row[col]) else 0, rid)
  }

  function MinRecord(v: Value): Rec {
    Rec(KeyOf(v), RID(-0x8000_0000, -0x8000_0000))
  }

  function MaxRecord(v: Value): Rec {
    Rec(KeyOf(v), RID(0x7FFF_FFFF, 0x7FFF_FFFF))
  }

  /** Every index record names a live heap record with a value of type t in column col, under its key. */
  predicate Indexed(es: seq<Rec>, h: Heap, col: nat, t: DataType) {
    forall i :: 0 <= i < |es| ==> IndexedOne(es[i], h, col, t)
  }

  predicate IndexedOne(e: Rec, h: Heap, col: nat, t: DataType) {
    var o := Lookup(h, e.rid);
    o.Some? && col < |o.value| && TypeOf(o.value[col]) == t && e.key == KeyOf(o.value[col])
  }

  lemma RecOfIndexed(e: Rec, h: Heap, col: nat, t: DataType)
    requires IndexedOne(e, h, col, t)
    ensures e == RecOf(Lookup(h, e.rid).value, e.rid, col)
  {
    hide KeyOf;
  }

  /** The value of an index record is between the bounds. */
  predicate Matches(e: Rec, h: Heap, col: nat, min: Value, max: Value) {
    var o := Lookup(h, e.rid);
    o.Some? && col < |o.value| && Between(min, o.value[col], max)
  }

  /** An index record for a scan to return: it matches, and it is not before lo, if given, nor past the encoded
      maximum. */
  predicate Hit(e: Rec, h: Heap, col: nat, lo: Option<Rec>, min: Value, max: Value) {
    Matches(e, h, col, min, max) && (lo.Some? ==> !RecLess(e, lo.value)) && !RecLess(MaxRecord(max), e)
  }

  function Hits(es: seq<Rec>, h: Heap, col: nat, lo: Option<Rec>, min: Value, max: Value): seq<Rec> {
    if es == [] then []
    else (if Hit(es[0], h, col, lo, min, max) then [es[0]] else []) + Hits(es[1..], h, col, lo, min, max)
  }

  lemma {:induction false} HitsConcat(a: seq<Rec>, b: seq<Rec>, h: Heap, col: nat, lo: Option<Rec>, min: Value,
                                      max: Value)
    ensures Hits(a + b, h, col, lo, min, max) == Hits(a, h, col, lo, min, max) + Hits(b, h, col, lo, min, max)
  {
    hide Hit;
    if a == [] {
      assert a + b == b;
    } else {
      HitsConcat(a[1..], b, h, col, lo, min, max);
      assert (a + b)[1..] == a[1..] + b;
      Associative(if Hit(a[0], h, col, lo, min, max) then [a[0]] else [], Hits(a[1..], h, col, lo, min, max), Hits(b,
                  h, col, lo, min, max));
    }
  }

  lemma {:induction false} NoHits(es: seq<Rec>, h: Heap, col: nat, lo: Option<Rec>, min: Value, max: Value)
    requires forall i :: 0 <= i < |es| ==> !Hit(es[i], h, col, lo, min, max)
    ensures Hits(es, h, col, lo, min, max) == []
  {
    hide Hit;
    if es != [] {
      NoHits(es[1..], h, col, lo, min, max);
    }
  }

  /** A lower bound that nothing is below makes no difference. */
  lemma {:induction false} HitsAbove(es: seq<Rec>, h: Heap, col: nat, lo: Rec, min: Value, max: Value)
    requires forall i :: 0 <= i < |es| ==> !RecLess(es[i], lo)
    ensures Hits(es, h, col, Some(lo), min, max) == Hits(es, h, col, None, min, max)
  {
    hide RecLess, Matches;
    if es != [] {
      HitsAbove(es[1..], h, col, lo, min, max);
    }
  }

  /** Hits are exactly that, in index order and each once. */
  lemma {:induction false} HitsExact(es: seq<Rec>, h: Heap, col: nat, lo: Option<Rec>, min: Value, max: Value)
    requires Increasing(es)
    ensures Increasing(Hits(es, h, col, lo, min, max))
    ensures forall e :: e in Hits(es, h, col, lo, min, max) <==> e in es && Hit(e, h, col, lo, min, max)
  {
    hide Hit, RecLess;
    if es != [] {
      HitsExact(es[1..], h, col, lo, min, max);
      var rest := Hits(es[1..], h, col, lo, min, max);
      forall i | 0 <= i < |rest| ensures RecLess(es[0], rest[i]) {
        assert rest[i] in rest;
        var j :| 0 <= j < |es[1..]| && es[1..][j] == rest[i];
        assert es[j + 1] == rest[i];
      }
      forall e ensures e in Hits(es, h, col, lo, min, max) <==> e in es && Hit(e, h, col, lo, min, max) {
        assert e in es <==> e == es[0] || e in es[1..];
      }
    }
  }

  /** What a scan relies on, for the index records es. */
  predicate Scannable(es: seq<Rec>, h: Heap, col: nat, t: DataType) {
    Increasing(es) && Indexed(es, h, col, t)
  }

  lemma NoHitsBelow(es: seq<Rec>, h: Heap, col: nat, lo: Rec, min: Value, max: Value)
    requires AllIn(es, None, Some(lo))
    ensures Hits(es, h, col, Some(lo), min, max) == []
  {
    hide RecLess, Matches;
    forall i | 0 <= i < |es| ensures !Hit(es[i], h, col, Some(lo), min, max) {
      assert InRange(es[i], None, Some(lo));
    }
    NoHits(es, h, col, Some(lo), min, max);
  }

  /** Once a record is past the maximum, so are all later ones. */
  lemma NoHitsAbove(es: seq<Rec>, h: Heap, col: nat, lo: Option<Rec>, min: Value, max: Value)
    requires Increasing(es) && es != [] && RecLess(MaxRecord(max), es[0])
    ensures Hits(es, h, col, lo, min, max) == []
  {
    hide RecLess, Matches, MaxRecord;
    forall i | 0 <= i < |es| ensures !Hit(es[i], h, col, lo, min, max) {
      if i > 0 {
        RecOrder(MaxRecord(max), es[0], es[i]);
      }
    }
    NoHits(es, h, col, lo, min, max);
  }

  lemma ScannableTail(es: seq<Rec>, k: nat, h: Heap, col: nat, t: DataType)
    requires Scannable(es, h, col, t) && k <= |es|
    ensures Scannable(es[k..], h, col, t) && Scannable(es[..k], h, col, t)
  {
    hide RecLess, IndexedOne;
  }

  // ---------- when cutting at the encoded bounds loses nothing ----------

  /** When keys keep the order: always for integers, for strings without bytes of 128 or more in front. */
  predicate Faithful(v: Value) {
    v.StrValue? ==> Ascii(v.s, 8)
  }

  /** A value between the bounds has a key between their keys. */
  lemma BetweenKeys(min: Value, v: Value, max: Value)
    requires Between(min, v, max) && TypeOf(min) == TypeOf(v) == TypeOf(max)
    requires Faithful(min) && Faithful(v) && Faithful(max)
    ensures KeyOf(min) <= KeyOf(v) <= KeyOf(max)
  {
    if v.StrValue? {
      KeyMonotone(min.s, v.s);
      KeyMonotone(v.s, max.s);
    }
  }

  /** What a scan asks of a value: to be between the bounds, and its key between their keys. */
  predicate Met(min: Value, v: Value, max: Value) {
    Between(min, v, max) && KeyOf(min) <= KeyOf(v) <= KeyOf(max)
  }

  /** Whatever the bounds, a match is a hit exactly when its key is between their keys: the scan misses every
      other. */
  lemma HitCutKeys(e: Rec, h: Heap, col: nat, t: DataType, min: Value, max: Value)
    requires IndexedOne(e, h, col, t) && Matches(e, h, col, min, max)
    ensures Hit(e, h, col, Some(MinRecord(min)), min, max) <==>
            KeyOf(min) <= KeyOf(Lookup(h, e.rid).value[col]) <= KeyOf(max)
  {
    hide KeyOf, Between;
  }

  /** So a scan returns every match exactly when the keys of all matching values are between those of the
      bounds. */
  lemma CompleteKeys(es: seq<Rec>, h: Heap, col: nat, t: DataType, min: Value, max: Value)
    requires Indexed(es, h, col, t)
    ensures (forall i :: 0 <= i < |es| && Matches(es[i], h, col, min, max) ==>
               Hit(es[i], h, col, Some(MinRecord(min)), min, max)) <==>
            (forall i :: 0 <= i < |es| && Matches(es[i], h, col, min, max) ==>
               KeyOf(min) <= KeyOf(Lookup(h, es[i].rid).value[col]) <= KeyOf(max))
  {
    hide Hit, IndexedOne, MinRecord, KeyOf, Between;
    forall i | 0 <= i < |es| && Matches(es[i], h, col, min, max)
      ensures Hit(es[i], h, col, Some(MinRecord(min)), min, max) <==>
              KeyOf(min) <= KeyOf(Lookup(h, es[i].rid).value[col]) <= KeyOf(max)
    {
      HitCutKeys(es[i], h, col, t, min, max);
    }
  }

  /** Under one key, index records stand in the order in which a scan of the heap file lists their records: by
      page, then by slot. */
  lemma ScanOrder(h: Heap, i: nat, j: nat, key: int64)
    requires Narrow(h) && i < j < |Scan(h)|
    ensures RecLess(Rec(key, Scan(h)[i].rid), Rec(key, Scan(h)[j].rid))
  {
    hide Scan;
    ScanExact(h);
  }

  /** So rows of equal key come out of the index in that order. */
  lemma EqualKeysInScanOrder(es: seq<Rec>, h: Heap, a: nat, b: nat)
    requires Narrow(h) && Increasing(es) && a < b < |es| && es[a].key == es[b].key
    requires Lookup(h, es[a].rid).Some? && Lookup(h, es[b].rid).Some?
    ensures exists i, j :: 0 <= i < j < |Scan(h)| && Scan(h)[i].rid == es[a].rid && Scan(h)[j].rid == es[b].rid
  {
    hide Scan, RecLess, Lookup;
    var x, y := Entry(es[a].rid, Lookup(h, es[a].rid).value), Entry(es[b].rid, Lookup(h, es[b].rid).value);
    ScanExact(h);
    assert x in Scan(h) && y in Scan(h);
    var i :| 0 <= i < |Scan(h)| && Scan(h)[i] == x;
    var j :| 0 <= j < |Scan(h)| && Scan(h)[j] == y;
    RecOrder(es[a], es[b], es[a]);
    if j < i {
      ScanOrder(h, j, i, es[a].key);
    }
    assert i < j;
  }

  // ---------- the same, byte by byte ----------

  /** The keys of two values of one type are in order. */
  predicate KeysOrdered(a: Value, b: Value) {
    match (a, b)
    case (IntValue(i), IntValue(j)) => i <= j
    case (StrValue(s), StrValue(t)) => KeyLe(s, t, 8)
    case (IntValue(_), StrValue(_)) => false
    case (StrValue(_), IntValue(_)) => false
  }

  lemma KeysOrderedIff(a: Value, b: Value)
    requires TypeOf(a) == TypeOf(b)
    ensures KeysOrdered(a, b) <==> KeyOf(a) <= KeyOf(b)
  {
    hide Key, KeyLe;
    if a.StrValue? {
      KeyOrder(a.s, b.s);
    }
  }

  /** Whatever the bounds, what a scan asks of a value, in terms of its bytes. */
  lemma MetBytes(min: Value, v: Value, max: Value)
    requires TypeOf(min) == TypeOf(v) == TypeOf(max)
    ensures Met(min, v, max) <==> Between(min, v, max) && KeysOrdered(min, v) && KeysOrdered(v, max)
  {
    hide KeyOf, Between, KeysOrdered;
    KeysOrderedIff(min, v);
    KeysOrderedIff(v, max);
  }

  lemma HitCutExact(e: Rec, h: Heap, col: nat, t: DataType, min: Value, max: Value)
    requires IndexedOne(e, h, col, t) && Matches(e, h, col, min, max) && TypeOf(min) == TypeOf(max) == t
    ensures var v := Lookup(h, e.rid).value[col];
            Hit(e, h, col, Some(MinRecord(min)), min, max) <==> KeysOrdered(min, v) && KeysOrdered(v, max)
  {
    hide KeyOf, Between, KeysOrdered, Hit;
    HitCutKeys(e, h, col, t, min, max);
    KeysOrderedIff(min, Lookup(h, e.rid).value[col]);
    KeysOrderedIff(Lookup(h, e.rid).value[col], max);
  }

  /** So a scan returns every match exactly when the bytes of all matching values stand in that order to those of
      the bounds. */
  lemma CompleteExact(es: seq<Rec>, h: Heap, col: nat, t: DataType, min: Value, max: Value)
    requires Indexed(es, h, col, t) && TypeOf(min) == TypeOf(max) == t
    ensures (forall i :: 0 <= i < |es| && Matches(es[i], h, col, min, max) ==>
               Hit(es[i], h, col, Some(MinRecord(min)), min, max)) <==>
            (forall i :: 0 <= i < |es| && Matches(es[i], h, col, min, max) ==>
               var v := Lookup(h, es[i].rid).value[col]; KeysOrdered(min, v) && KeysOrdered(v, max))
  {
    hide Hit, IndexedOne, MinRecord, KeyOf, Between, KeysOrdered;
    forall i | 0 <= i < |es| && Matches(es[i], h, col, min, max)
      ensures var v := Lookup(h, es[i].rid).value[col];
              Hit(es[i], h, col, Some(MinRecord(min)), min, max) <==> KeysOrdered(min, v) && KeysOrdered(v, max)
    {
      HitCutExact(es[i], h, col, t, min, max);
    }
  }

  /** Between bounds with good keys, those are the matches whose own key is good. */
  lemma GoodBounds(v: Value, min: Value, max: Value)
    requires TypeOf(min) == TypeOf(v) == TypeOf(max) && Between(min, v, max) && Faithful(min) && Faithful(max)
    ensures KeyOf(min) <= KeyOf(v) <= KeyOf(max) <==> Faithful(v)
  {
    if Faithful(v) {
      BetweenKeys(min, v, max);
    } else {
      KeyIsBigEndian(v.s);
      KeyIsBigEndian(min.s);
    }
  }

  lemma CompleteGoodBounds(es: seq<Rec>, h: Heap, col: nat, t: DataType, min: Value, max: Value)
    requires Indexed(es, h, col, t) && TypeOf(min) == TypeOf(max) == t && Faithful(min) && Faithful(max)
    ensures (forall i :: 0 <= i < |es| && Matches(es[i], h, col, min, max) ==>
               Hit(es[i], h, col, Some(MinRecord(min)), min, max)) <==>
            (forall i :: 0 <= i < |es| && Matches(es[i], h, col, min, max) ==>
               Faithful(Lookup(h, es[i].rid).value[col]))
  {
    hide Hit, Faithful, MinRecord, KeyOf, Between;
    forall i | 0 <= i < |es| && Matches(es[i], h, col, min, max)
      ensures Hit(es[i], h, col, Some(MinRecord(min)), min, max) <==> Faithful(Lookup(h, es[i].rid).value[col])
    {
      assert IndexedOne(es[i], h, col, t);
      HitCutKeys(es[i], h, col, t, min, max);
      GoodBounds(Lookup(h, es[i].rid).value[col], min, max);
    }
  }

  /** From a minimum with a good key to a maximum without, a scan returns nothing at all. */
  lemma BadMaximum(e: Rec, h: Heap, col: nat, min: Value, max: Value)
    requires TypeOf(min) == TypeOf(max) && Faithful(min) && !Faithful(max)
    ensures KeyOf(max) < KeyOf(min) && !Hit(e, h, col, Some(MinRecord(min)), min, max)
  {
    hide Matches;
    KeyIsBigEndian(min.s);
    KeyIsBigEndian(max.s);
  }

  lemma AccentBetween()
    ensures Between(StrValue([97]), StrValue([98, 195, 169]), StrValue([122]))
    ensures !Ascii([98, 195, 169], 8) && Ascii([97], 8)
  {
    assert [98, 195, 169][1] == 195;
  }

  /** A record a scan misses: between "a" and "z" stands "b" followed by an e with acute accent in UTF-8, but
      its key is below that of "a". */
  lemma MissedHit(h: Heap, rid: RID)
    requires Lookup(h, rid) == Some([StrValue([98, 195, 169])])
    ensures var e := Rec(KeyOf(StrValue([98, 195, 169])), rid);
            Matches(e, h, 0, StrValue([97]), StrValue([122])) && RecLess(e, MinRecord(StrValue([97])))
  {
    hide Key, BigEndian, Between, StrLess, Ascii;
    var s: CString, a: CString := [98, 195, 169], [97];
    AccentBetween();
    KeyIsBigEndian(s);
    KeyIsBigEndian(a);
  }

  /** Another: "b" has a good key, but a scan from "a" to an e with acute accent does not return it. */
  lemma MissedByBound(e: Rec, h: Heap)
    requires Lookup(h, e.rid) == Some([StrValue([98])])
    ensures var min, max := StrValue([97]), StrValue([195, 169]);
            Matches(e, h, 0, min, max) && Faithful(StrValue([98])) && !Hit(e, h, 0, Some(MinRecord(min)), min, max)
  {
    hide KeyOf;
    assert [195, 169][0] == 195;
    BadMaximum(e, h, 0, StrValue([97]), StrValue([195, 169]));
  }

  /** In a column of integers, a hit is an index record whose value is a number from min to max. */
  lemma IntHit(e: Rec, h: Heap, col: nat, min: int64, max: int64)
    requires IndexedOne(e, h, col, INT)
    ensures var v := Lookup(h, e.rid).value[col];
            && v.IntValue?
            && (Hit(e, h, col, Some(MinRecord(IntValue(min))), IntValue(min), IntValue(max)) <==> min <= v.i <= max)
  {
    hide RecLess, MinRecord, MaxRecord, Hit, Between;
    var v := Lookup(h, e.rid).value[col];
    BetweenInts(min, v.i, max);
    if Matches(e, h, col, IntValue(min), IntValue(max)) {
      HitCutKeys(e, h, col, INT, IntValue(min), IntValue(max));
    } else {
      HitMatches(e, h, col, Some(MinRecord(IntValue(min))), IntValue(min), IntValue(max));
    }
  }

  lemma HitMatches(e: Rec, h: Heap, col: nat, lo: Option<Rec>, min: Value, max: Value)
    ensures Hit(e, h, col, lo, min, max) ==> Matches(e, h, col, min, max)
  {
  }

  // ---------- a cursor on the leaf chain ----------

  /** Each leaf names the next one; the last names page 0, which is never a next leaf. */
  predicate Linked(ps: seq<nat>, leaves: seq<Block>) {
    forall i :: 0 <= i < |ps| ==> LinkedOne(ps, leaves, i)
  }

  predicate LinkedOne(ps: seq<nat>, leaves: seq<Block>, i: nat)
    requires i < |ps|
  {
    && NextLeaf(LeafAt(leaves, ps[i])) == (if i + 1 < |ps| then ps[i + 1] else 0)
    && (i > 0 ==> ps[i] > 0)
  }

  lemma LinkedAt(ps: seq<nat>, leaves: seq<Block>, i: nat)
    requires Linked(ps, leaves) && i < |ps|
    ensures NextLeaf(LeafAt(leaves, ps[i])) == if i + 1 < |ps| then ps[i + 1] else 0
    ensures i + 1 < |ps| ==> ps[i + 1] > 0
  {
    hide NextLeaf, LeafAt;
    assert LinkedOne(ps, leaves, i);
    if i + 1 < |ps| {
      assert LinkedOne(ps, leaves, i + 1);
    }
  }

  function From(rs: seq<Rec>, pos: nat): seq<Rec> {
    if pos <= |rs| then rs[pos..] else []
  }

  /** The index records from position pos of leaf k of ps on. */
  function Rest(ps: seq<nat>, leaves: seq<Block>, k: nat, pos: nat): seq<Rec>
    requires k < |ps|
  {
    From(LeafRecs(LeafAt(leaves, ps[k])), pos) + Entries(ps[k + 1..], leaves)
  }

  lemma RestStep(ps: seq<nat>, leaves: seq<Block>, k: nat, pos: nat)
    requires k < |ps| && pos < |LeafRecs(LeafAt(leaves, ps[k]))|
    ensures Rest(ps, leaves, k, pos) == [LeafRecs(LeafAt(leaves, ps[k]))[pos]] + Rest(ps, leaves, k, pos + 1)
  {
    hide LeafRecs, LeafAt, Entries;
    var rs := LeafRecs(LeafAt(leaves, ps[k]));
    assert rs[pos..] == [rs[pos]] + rs[pos + 1..];
    Associative([rs[pos]], rs[pos + 1..], Entries(ps[k + 1..], leaves));
  }

  lemma RestNext(ps: seq<nat>, leaves: seq<Block>, k: nat, pos: nat)
    requires k < |ps| && pos >= |LeafRecs(LeafAt(leaves, ps[k]))|
    ensures Rest(ps, leaves, k, pos) == if k + 1 < |ps| then Rest(ps, leaves, k + 1, 0) else []
  {
    hide LeafRecs, LeafAt;
    if k + 1 < |ps| {
      var rs := LeafRecs(LeafAt(leaves, ps[k + 1]));
      assert ps[k + 1..][1..] == ps[k + 2..];
      assert rs[0..] == rs;
    }
  }

  /** What is left of a scan is a tail of all index records. */
  lemma RestIsTail(ps: seq<nat>, leaves: seq<Block>, k: nat, pos: nat)
    requires k < |ps|
    ensures exists n: nat :: n <= |Entries(ps, leaves)| && Rest(ps, leaves, k, pos) == Entries(ps, leaves)[n..]
  {
    hide LeafRecs, LeafAt, Entries;
    var rs := LeafRecs(LeafAt(leaves, ps[k]));
    var cut := if pos <= |rs| then pos else |rs|;
    assert ps == ps[..k] + ([ps[k]] + ps[k + 1..]);
    EntriesConcat(ps[..k], [ps[k]] + ps[k + 1..], leaves);
    EntriesConcat([ps[k]], ps[k + 1..], leaves);
    EntriesOne(ps[k], leaves);
    TailOf(Entries(ps[..k], leaves), rs, cut, Entries(ps[k + 1..], leaves));
    assert From(rs, pos) == rs[cut..];
  }

  lemma TailOf<T>(a: seq<T>, b: seq<T>, cut: nat, c: seq<T>)
    requires cut <= |b|
    ensures |a| + cut <= |a + (b + c)| && b[cut..] + c == (a + (b + c))[|a| + cut..]
  {
  }

  lemma ScannableRest(ps: seq<nat>, leaves: seq<Block>, k: nat, pos: nat, h: Heap, col: nat, t: DataType)
    requires k < |ps| && Scannable(Entries(ps, leaves), h, col, t)
    ensures Scannable(Rest(ps, leaves, k, pos), h, col, t)
  {
    hide Scannable, Rest;
    RestIsTail(ps, leaves, k, pos);
    var n: nat :| n <= |Entries(ps, leaves)| && Rest(ps, leaves, k, pos) == Entries(ps, leaves)[n..];
    ScannableTail(Entries(ps, leaves), n, h, col, t);
  }

  /** The first of the remaining index records is live, and is a hit or not. */
  lemma HitsFirst(e: Rec, es: seq<Rec>, h: Heap, col: nat, t: DataType, min: Value, max: Value)
    requires Scannable([e] + es, h, col, t)
    ensures Lookup(h, e.rid).Some? && col < |Lookup(h, e.rid).value|
    ensures 0 <= e.rid.page < |h| && 0 <= e.rid.slot < |h[e.rid.page]|
    ensures Hits([e] + es, h, col, None, min, max) ==
              (if Between(min, Lookup(h, e.rid).value[col], max) && !RecLess(MaxRecord(max), e) then [e] else [])
              + Hits(es, h, col, None, min, max)
    ensures RecLess(MaxRecord(max), e) ==>
              Hits([e] + es, h, col, None, min, max) == [] == Hits(es, h, col, None, min, max)
  {
    hide Between, RecLess, KeyOf;
    assert ([e] + es)[1..] == es && IndexedOne(([e] + es)[0], h, col, t);
    if RecLess(MaxRecord(max), e) {
      NoHitsAbove([e] + es, h, col, None, min, max);
    }
  }

  lemma RestSame(ps: seq<nat>, leaves: seq<Block>, leaves': seq<Block>, k: nat, pos: nat)
    requires k < |ps| && forall p: nat :: LeafAt(leaves', p) == LeafAt(leaves, p)
    ensures Rest(ps, leaves', k, pos) == Rest(ps, leaves, k, pos)
  {
    hide LeafRecs, LeafAt;
    EntriesSame(ps[k + 1..], leaves, leaves');
  }

  lemma {:induction false} EntriesSame(ps: seq<nat>, leaves: seq<Block>, leaves': seq<Block>)
    requires forall p: nat :: LeafAt(leaves', p) == LeafAt(leaves, p)
    ensures Entries(ps, leaves') == Entries(ps, leaves)
    decreases |ps|
  {
    hide LeafRecs, LeafAt;
    if ps != [] {
      EntriesSame(ps[1..], leaves, leaves');
    }
  }

  lemma LinkedSame(ps: seq<nat>, leaves: seq<Block>, leaves': seq<Block>)
    requires Linked(ps, leaves) && forall p: nat :: LeafAt(leaves', p) == LeafAt(leaves, p)
    ensures Linked(ps, leaves')
  {
    hide LeafAt, NextLeaf;
    forall i | 0 <= i < |ps| ensures LinkedOne(ps, leaves', i) {
      assert LinkedOne(ps, leaves, i);
    }
  }

  /** Starting where the search for the minimum ends, and not looking at the minimum any more, gives the hits
      from the minimum on, whatever the search returned on a leaf without records. */
  lemma StartLosesNothing(ps: seq<nat>, leaves: seq<Block>, k: nat, pos: nat, h: Heap, col: nat, lo: Rec, min: Value,
                          max: Value)
    requires Brackets(ps, leaves, k, lo)
    requires var rs := LeafRecs(LeafAt(leaves, ps[k]));
             rs != [] ==>
               && pos <= |rs| && (forall i :: 0 <= i < pos ==> RecLess(rs[i], lo))
               && forall i :: pos <= i < |rs| ==> !RecLess(rs[i], lo)
    ensures Hits(Rest(ps, leaves, k, pos), h, col, None, min, max) ==
              Hits(Entries(ps, leaves), h, col, Some(lo), min, max)
  {
    hide LeafRecs, LeafAt, Hits, RecLess, Entries;
    var rs := LeafRecs(LeafAt(leaves, ps[k]));
    var cut := if pos <= |rs| then pos else |rs|;
    assert ps == ps[..k] + ([ps[k]] + ps[k + 1..]);
    EntriesConcat(ps[..k], [ps[k]] + ps[k + 1..], leaves);
    EntriesConcat([ps[k]], ps[k + 1..], leaves);
    EntriesOne(ps[k], leaves);
    var a, b, c := Entries(ps[..k], leaves), rs[..cut], rs[cut..];
    var tail := Entries(ps[k + 1..], leaves);
    assert rs == b + c && From(rs, pos) == c;
    assert Entries(ps, leaves) == (a + b) + (c + tail);
    NoHitsBelow(a + b, h, col, lo, min, max);
    HitsConcat(a + b, c + tail, h, col, Some(lo), min, max);
    NotBelow(c, tail, lo);
    HitsAbove(c + tail, h, col, lo, min, max);
  }

  lemma NotBelow(c: seq<Rec>, tail: seq<Rec>, lo: Rec)
    requires (forall i :: 0 <= i < |c| ==> !RecLess(c[i], lo)) && AllGreater(tail, lo)
    ensures forall i :: 0 <= i < |c + tail| ==> !RecLess((c + tail)[i], lo)
  {
    forall i | 0 <= i < |tail| ensures !RecLess(tail[i], lo) {
      RecOrder(lo, tail[i], lo);
    }
  }
}
