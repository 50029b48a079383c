/** serialize_string_key (src/storage/b_plus_tree/b_plus_tree.cc:9-20): a 64-bit key from the first eight
    characters of a string. The characters are signed, so a byte of 128 or more is shifted in as a negative
    number, and its sign bits swallow everything or-ed in before it. */
module StringKeys {
  import opened Bytes
  import opened Values

  // ---------- bitwise operations on two's complement integers ----------

  /** x << k */
  function Shl(x: int, k: nat): int {
    if k == 0 then x else 2 * Shl(x, k - 1)
  }

  function Abs(x: int): nat {
    if x < 0 then -x else x
  }

  /** x | y, bit by bit from the lowest; 0 and -1 are the all-zeros and all-ones tails. */
  function Or(x: int, y: int): int
    decreases Abs(x) + Abs(y)
  {
    if -1 <= x <= 0 && -1 <= y <= 0 then (if x == 0 then y else x)
    else (if x % 2 == 1 || y % 2 == 1 then 1 else 0) + 2 * Or(x / 2, y / 2)
  }

  lemma {:induction false} OrZero(x: int)
    ensures Or(x, 0) == x
    decreases Abs(x)
  {
    if !(-1 <= x <= 0) {
      OrZero(x / 2);
    }
  }

  lemma {:induction false} OrOnes(x: int)
    ensures Or(x, -1) == -1
    decreases Abs(x)
  {
    if !(-1 <= x <= 0) {
      OrOnes(x / 2);
    }
  }

  /** Or-ing a number below 2^k into one whose low k bits are clear adds it. */
  lemma {:induction false} OrBelow(x: int, y: int, k: nat)
    requires 0 <= y < Shl(1, k)
    ensures Or(Shl(x, k), y) == Shl(x, k) + y
    decreases k
  {
    if k == 0 {
      OrZero(x);
    } else {
      OrBelow(x, y / 2, k - 1);
      if -1 <= Shl(x, k) <= 0 && y == 0 {
        OrZero(Shl(x, k));
      }
    }
  }

  /** Or-ing a negative number of at least -2^k into one whose low k bits are clear leaves only the former. */
  lemma {:induction false} OrNegative(x: int, y: int, k: nat)
    requires -Shl(1, k) <= y < 0
    ensures Or(Shl(x, k), y) == y
    decreases k
  {
    if k == 0 {
      OrOnes(x);
    } else {
      OrNegative(x, y / 2, k - 1);
      if -1 <= Shl(x, k) <= 0 && y == -1 {
        OrOnes(Shl(x, k));
      }
    }
  }

  lemma {:induction false} OrSign(x: int, y: int)
    ensures Or(x, y) < 0 <==> x < 0 || y < 0
    decreases Abs(x) + Abs(y)
  {
    if !(-1 <= x <= 0 && -1 <= y <= 0) {
      OrSign(x / 2, y / 2);
    }
  }

  lemma {:induction false} ShlSum(x: int, y: int, k: nat)
    ensures Shl(x + y, k) == Shl(x, k) + Shl(y, k)
  {
    if k > 0 {
      ShlSum(x, y, k - 1);
    }
  }

  lemma {:induction false} ShlOrder(x: int, y: int, k: nat)
    requires x <= y
    ensures Shl(x, k) <= Shl(y, k) && Shl(0, k) == 0
  {
    if k > 0 {
      ShlOrder(x, y, k - 1);
    }
  }

  lemma {:induction false} ShlShl(x: int, j: nat, k: nat)
    ensures Shl(Shl(x, j), k) == Shl(x, j + k)
  {
    if k > 0 {
      ShlShl(x, j, k - 1);
    }
  }

  // ---------- the encoding ----------

  /** static_cast<int64_t>(char) */
  function Signed(b: byte): int {
    if b < 128 then b else b - 256
  }

  /** What the loop has computed from res after the remaining characters s, n of the eight bytes to go. */
  function KeyFrom(res: int, s: seq<byte>, n: nat): int
    requires n <= 8
    decreases n
  {
    if n == 0 || s == [] then res else KeyFrom(Or(res, Shl(Signed(s[0]), 8 * (n - 1))), s[1..], n - 1)
  }

  function Key(s: CString): int {
    KeyFrom(0, s, 8)
  }

  method SerializeStringKey(str: CString) returns (res: int)
    ensures res == Key(str)
  {
    res := 0;
    var shiftSize := 8 * 7;
    var i := 0;
    while i < 8 && i < |str|
      invariant 0 <= i <= 8 && i <= |str| && shiftSize == 8 * (7 - i)
      invariant KeyFrom(res, str[i..], 8 - i) == Key(str)
    {
      assert str[i..][1..] == str[i + 1..];
      var byte64 := Signed(str[i]);
      res := Or(res, Shl(byte64, shiftSize));
      i := i + 1;
      shiftSize := shiftSize - 8;
    }
  }

  // ---------- what it should be ----------

  function Head(s: seq<byte>): byte {
    if s == [] then 0 else s[0]
  }

  function Tail(s: seq<byte>): seq<byte> {
    if s == [] then [] else s[1..]
  }

  /** The first n bytes, padded with zeros, read as one unsigned number, most significant first. */
  function BigEndian(s: seq<byte>, n: nat): int {
    if n == 0 then 0 else Shl(Head(s), 8 * (n - 1)) + BigEndian(Tail(s), n - 1)
  }

  /** No byte among the first n is 128 or more. */
  predicate Ascii(s: seq<byte>, n: nat) {
    forall i :: 0 <= i < n && i < |s| ==> s[i] < 128
  }

  lemma {:induction false} BigEndianBound(s: seq<byte>, n: nat)
    ensures 0 <= BigEndian(s, n) < Shl(1, 8 * n)
  {
    if n > 0 {
      BigEndianBound(Tail(s), n - 1);
      ShlOrder(0, Head(s), 8 * (n - 1));
      ShlOrder(Head(s) + 1, 256, 8 * (n - 1));
      ShlSum(Head(s), 1, 8 * (n - 1));
      ShlShl(1, 8, 8 * (n - 1));
      assert Shl(1, 8) == 256;
    }
  }

  /** strcmp order on whole strings is kept, weakly, by the number of the first n bytes. */
  lemma {:induction false} BigEndianMonotone(a: seq<byte>, b: seq<byte>, n: nat)
    requires 0 !in a && 0 !in b && !StrLess(b, a)
    ensures BigEndian(a, n) <= BigEndian(b, n)
    decreases n
  {
    if n > 0 {
      if Head(a) == Head(b) {
        assert a != [] ==> a[0] in a;
        assert b != [] ==> b[0] in b;
        BigEndianMonotone(Tail(a), Tail(b), n - 1);
      } else {
        ShlOrder(Head(a) + 1, Head(b), 8 * (n - 1));
        ShlSum(Head(a), 1, 8 * (n - 1));
        BigEndianBound(Tail(a), n - 1);
        BigEndianBound(Tail(b), n - 1);
      }
    }
  }

  lemma {:induction false} OrRange(x: int, y: int, k: nat)
    requires -Shl(1, k) <= x < Shl(1, k) && -Shl(1, k) <= y < Shl(1, k)
    ensures -Shl(1, k) <= Or(x, y) < Shl(1, k)
    decreases k
  {
    if k > 0 && !(-1 <= x <= 0 && -1 <= y <= 0) {
      OrRange(x / 2, y / 2, k - 1);
    }
  }

  /** A character shifted to its place among the eight bytes. */
  lemma ShiftedRange(b: byte, n: nat)
    requires 1 <= n
    ensures -Shl(1, 8 * n - 1) <= Shl(Signed(b), 8 * (n - 1)) < Shl(1, 8 * n - 1)
    ensures Shl(Signed(b), 8 * (n - 1)) < 0 <==> b >= 128
  {
    var k := 8 * (n - 1);
    ShlShl(1, 7, k);
    assert Shl(1, 7) == 128;
    ShlSum(128, -128, k);
    ShlOrder(-128, Signed(b), k);
    ShlOrder(Signed(b) + 1, 128, k);
    ShlSum(Signed(b), 1, k);
    ShlPositive(k);
    if b < 128 {
      ShlOrder(0, b, k);
    } else {
      ShlOrder(Signed(b), -1, k);
      ShlSum(1, -1, k);
    }
  }

  lemma {:induction false} ShlPositive(k: nat)
    ensures Shl(1, k) > 0
  {
    if k > 0 {
      ShlPositive(k - 1);
    }
  }

  lemma {:induction false} ShlGrows(j: nat, k: nat)
    requires j <= k
    ensures Shl(1, j) <= Shl(1, k)
    decreases k - j
  {
    if j < k {
      ShlPositive(j);
      ShlGrows(j + 1, k);
    }
  }

  lemma {:induction false} KeyFromRange(res: int, s: seq<byte>, n: nat)
    requires n <= 8 && -Shl(1, 63) <= res < Shl(1, 63)
    ensures -Shl(1, 63) <= KeyFrom(res, s, n) < Shl(1, 63)
    decreases n
  {
    if n > 0 && s != [] {
      var y := Shl(Signed(s[0]), 8 * (n - 1));
      ShiftedRange(s[0], n);
      ShlGrows(8 * n - 1, 63);
      OrRange(res, y, 63);
      KeyFromRange(Or(res, y), s[1..], n - 1);
    }
  }

  lemma Shl63()
    ensures Shl(1, 63) == 0x8000_0000_0000_0000
  {
    assert Shl(1, 9) == 512 && Shl(512, 9) == 0x4_0000 && Shl(0x4_0000, 9) == 0x800_0000;
    assert Shl(0x800_0000, 9) == 0x10_0000_0000 && Shl(0x10_0000_0000, 9) == 0x2000_0000_0000;
    assert Shl(0x2000_0000_0000, 9) == 0x40_0000_0000_0000 && Shl(0x40_0000_0000_0000, 9) == 0x8000_0000_0000_0000;
    ShlShl(1, 9, 9); ShlShl(1, 18, 9); ShlShl(1, 27, 9); ShlShl(1, 36, 9); ShlShl(1, 45, 9); ShlShl(1, 54, 9);
  }

  /** Every key fits the 64-bit integer it is stored in. */
  lemma KeyRange(s: CString)
    ensures -0x8000_0000_0000_0000 <= Key(s) < 0x8000_0000_0000_0000
  {
    Shl63();
    KeyFromRange(0, s, 8);
  }

  // ---------- when it is right ----------

  lemma AsciiCons(s: seq<byte>, n: nat)
    requires s != [] && n > 0
    ensures Ascii(s, n) <==> s[0] < 128 && Ascii(s[1..], n - 1)
  {
    if s[0] < 128 && Ascii(s[1..], n - 1) {
      forall i | 0 <= i < n && i < |s| ensures s[i] < 128 {
        assert i > 0 ==> s[i] == s[1..][i - 1];
      }
    }
    if Ascii(s, n) {
      assert forall i :: 0 <= i < n - 1 && i < |s[1..]| ==> s[1..][i] == s[i + 1];
    }
  }

  /** Or-ing a character below 128 into a number whose low 8 * n bits are clear appends it. */
  lemma OrAppends(m: int, b: byte, n: nat)
    requires n > 0 && b < 128
    ensures Or(Shl(m, 8 * n), Shl(b, 8 * (n - 1))) == Shl(Shl(m, 8) + b, 8 * (n - 1)) ==
              Shl(m, 8 * n) + Shl(b, 8 * (n - 1))
  {
    hide Or;
    var k := 8 * (n - 1);
    ShiftedRange(b, n);
    ShlGrows(8 * n - 1, 8 * n);
    OrBelow(m, Shl(b, k), 8 * n);
    ShlShl(m, 8, k);
    ShlSum(Shl(m, 8), b, k);
  }

  lemma {:induction false} KeyFromAscii(m: int, s: seq<byte>, n: nat)
    requires n <= 8 && Ascii(s, n)
    ensures KeyFrom(Shl(m, 8 * n), s, n) == Shl(m, 8 * n) + BigEndian(s, n)
    decreases n
  {
    hide Or, Shl, Ascii;
    if s == [] {
      BigEndianEmpty(n);
    } else if n > 0 {
      AsciiCons(s, n);
      OrAppends(m, s[0], n);
      KeyFromAscii(Shl(m, 8) + s[0], s[1..], n - 1);
    } else {
      assert BigEndian(s, 0) == 0;
    }
  }

  lemma {:induction false} BigEndianEmpty(n: nat)
    ensures BigEndian([], n) == 0
  {
    if n > 0 {
      BigEndianEmpty(n - 1);
      ShlOrder(0, 0, 8 * (n - 1));
    }
  }

  lemma {:induction false} KeyFromSign(res: int, s: seq<byte>, n: nat)
    requires n <= 8
    ensures KeyFrom(res, s, n) < 0 <==> res < 0 || !Ascii(s, n)
    decreases n
  {
    if n > 0 && s != [] {
      var y := Shl(Signed(s[0]), 8 * (n - 1));
      ShiftedRange(s[0], n);
      OrSign(res, y);
      KeyFromSign(Or(res, y), s[1..], n - 1);
      AsciiCons(s, n);
    }
  }

  /** The key is the number its first eight bytes spell exactly when none of them is 128 or more; otherwise
      it is negative. */
  lemma KeyIsBigEndian(s: CString)
    ensures Key(s) == BigEndian(s, 8) <==> Ascii(s, 8)
    ensures Key(s) < 0 <==> !Ascii(s, 8)
  {
    KeyFromSign(0, s, 8);
    BigEndianBound(s, 8);
    if Ascii(s, 8) {
      ShlOrder(0, 0, 64);
      KeyFromAscii(0, s, 8);
    }
  }

  /** The order of strings is kept, weakly, by their keys. */
  lemma KeyMonotone(a: CString, b: CString)
    requires Ascii(a, 8) && Ascii(b, 8) && !StrLess(b, a)
    ensures Key(a) <= Key(b)
  {
    KeyIsBigEndian(a);
    KeyIsBigEndian(b);
    BigEndianMonotone(a, b, 8);
  }

  predicate OrderKept(a: CString, b: CString) {
    (!StrLess(b, a) ==> Key(a) <= Key(b)) && (!StrLess(a, b) ==> Key(b) <= Key(a))
  }

  /** A string's key respects its order against all strings with good keys exactly when its own first eight
      bytes are below 128. */
  lemma OrderKeptIff(s: CString)
    ensures Ascii(s, 8) <==> forall t: CString :: Ascii(t, 8) ==> OrderKept(s, t)
  {
    if Ascii(s, 8) {
      forall t: CString | Ascii(t, 8) ensures OrderKept(s, t) {
        if !StrLess(t, s) { KeyMonotone(s, t); }
        if !StrLess(s, t) { KeyMonotone(t, s); }
      }
    } else {
      KeyIsBigEndian(s);
      assert Ascii([], 8) && !OrderKept(s, []);
    }
  }

  function Prefix(s: seq<byte>, n: nat): seq<byte> {
    if |s| <= n then s else s[..n]
  }

  lemma PrefixCons(s: seq<byte>, n: nat)
    requires s != [] && n > 0
    ensures Prefix(s, n) == [s[0]] + Prefix(s[1..], n - 1)
  {
  }

  lemma PrefixSame(a: seq<byte>, b: seq<byte>, n: nat)
    requires 0 !in a && 0 !in b && n > 0
    ensures Prefix(a, n) == Prefix(b, n) <==> Head(a) == Head(b) && Prefix(Tail(a), n - 1) == Prefix(Tail(b), n - 1)
  {
    if a != [] {
      PrefixCons(a, n);
      assert a[0] in a;
    }
    if b != [] {
      PrefixCons(b, n);
      assert b[0] in b;
    }
    if a != [] && b != [] {
      assert Prefix(a, n)[0] == a[0] && Prefix(b, n)[0] == b[0];
      assert Prefix(a, n)[1..] == Prefix(a[1..], n - 1) && Prefix(b, n)[1..] == Prefix(b[1..], n - 1);
    }
  }

  lemma {:induction false} BigEndianInjective(a: seq<byte>, b: seq<byte>, n: nat)
    requires 0 !in a && 0 !in b
    ensures BigEndian(a, n) == BigEndian(b, n) <==> Prefix(a, n) == Prefix(b, n)
    decreases n
  {
    if n > 0 {
      BigEndianBound(Tail(a), n - 1);
      BigEndianBound(Tail(b), n - 1);
      BigEndianInjective(Tail(a), Tail(b), n - 1);
      PrefixSame(a, b, n);
      if Head(a) != Head(b) {
        var x, y := if Head(a) < Head(b) then Head(a) else Head(b), if Head(a) < Head(b) then Head(b) else Head(a);
        ShlOrder(x + 1, y, 8 * (n - 1));
        ShlSum(x, 1, 8 * (n - 1));
      }
    }
  }

  // ---------- what any key is ----------

  /** How many characters in front are wiped out: all before the last one of 128 or more among the first n. */
  function Wiped(s: seq<byte>, n: nat): (k: nat)
    ensures k <= |s| && k <= n
  {
    if n == 0 || s == [] || Ascii(s[1..], n - 1) then 0 else 1 + Wiped(s[1..], n - 1)
  }

  /** The number spelled by the characters that are left, the first of them signed. */
  function Spelled(s: seq<byte>, n: nat): int {
    if n == 0 || s == [] then 0
    else if Ascii(s[1..], n - 1) then Shl(Signed(s[0]), 8 * (n - 1)) + BigEndian(s[1..], n - 1)
    else Spelled(s[1..], n - 1)
  }

  lemma OrDouble(x: int, y: int)
    ensures Or(2 * x, 2 * y) == 2 * Or(x, y)
  {
  }

  lemma {:induction false} OrShl(x: int, y: int, k: nat)
    ensures Or(Shl(x, k), Shl(y, k)) == Shl(Or(x, y), k)
  {
    if k > 0 {
      OrShl(x, y, k - 1);
      OrDouble(Shl(x, k - 1), Shl(y, k - 1));
    }
  }

  /** Or-ing in a character of 128 or more leaves only that. */
  lemma OrWipes(m: int, b: byte, n: nat)
    requires n > 0 && b >= 128
    ensures Or(Shl(m, 8 * n), Shl(Signed(b), 8 * (n - 1))) == Shl(Signed(b), 8 * (n - 1))
  {
    ShiftedRange(b, n);
    ShlGrows(8 * n - 1, 8 * n);
    OrNegative(m, Shl(Signed(b), 8 * (n - 1)), 8 * n);
  }

  lemma {:induction false} KeyFromSpelled(m: int, s: seq<byte>, n: nat)
    requires n <= 8 && !Ascii(s, n)
    ensures KeyFrom(Shl(m, 8 * n), s, n) == Spelled(s, n)
    decreases n
  {
    hide Or, Shl;
    var b, k := Signed(s[0]), 8 * (n - 1);
    AsciiCons(s, n);
    if Ascii(s[1..], n - 1) {
      OrWipes(m, s[0], n);
      KeyFromAscii(b, s[1..], n - 1);
    } else {
      ShlShl(m, 8, k);
      OrShl(Shl(m, 8), b, k);
      KeyFromSpelled(Or(Shl(m, 8), b), s[1..], n - 1);
    }
  }

  lemma SpelledAscii(s: seq<byte>, n: nat)
    requires Ascii(s, n)
    ensures Spelled(s, n) == BigEndian(s, n)
  {
    if n > 0 && s != [] {
      AsciiCons(s, n);
    } else if s == [] {
      BigEndianEmpty(n);
    }
  }

  /** The key of any string: only the characters from the last one of 128 or more on count, and that one is
      signed. */
  lemma KeyIsSpelled(s: CString)
    ensures Key(s) == Spelled(s, 8)
  {
    if Ascii(s, 8) {
      SpelledAscii(s, 8);
      KeyIsBigEndian(s);
    } else {
      ShlOrder(0, 0, 64);
      KeyFromSpelled(0, s, 8);
    }
  }

  lemma AsciiBound(s: seq<byte>, n: nat)
    requires n > 0 && Ascii(s, n)
    ensures BigEndian(s, n) < Shl(1, 8 * n - 1)
  {
    var k := 8 * (n - 1);
    BigEndianBound(Tail(s), n - 1);
    ShlOrder(Head(s) + 1, 128, k);
    ShlSum(Head(s), 1, k);
    assert Shl(1, 7) == 128;
    ShlShl(1, 7, k);
  }

  /** The more characters are wiped out, the closer to zero the key. */
  lemma {:induction false} SpelledRange(s: seq<byte>, n: nat)
    requires !Ascii(s, n)
    ensures n > 0 && -Shl(1, 8 * n - 1) <= Spelled(s, n) < 0
    ensures Ascii(s[1..], n - 1) && n > 1 ==> Spelled(s, n) < -Shl(1, 8 * (n - 1) - 1)
    decreases n
  {
    hide Or;
    AsciiCons(s, n);
    var t, k := s[1..], 8 * (n - 1);
    if Ascii(t, n - 1) {
      ShiftedRange(s[0], n);
      BigEndianBound(t, n - 1);
      ShlOrder(Signed(s[0]), -1, k);
      ShlSum(1, -1, k);
      if n > 1 {
        AsciiBound(t, n - 1);
      }
    } else {
      SpelledRange(t, n - 1);
      ShlGrows(8 * (n - 1) - 1, 8 * n - 1);
    }
  }

  /** Two strings of which one, but not the other, loses its first character to a later one. */
  lemma SpelledApart(a: seq<byte>, b: seq<byte>, n: nat)
    requires n > 0 && a != [] && !Ascii(a[1..], n - 1) && (b == [] || Ascii(b[1..], n - 1))
    ensures Spelled(a, n) != Spelled(b, n)
  {
    SpelledRange(a[1..], n - 1);
    if b != [] && b[0] >= 128 {
      AsciiCons(b, n);
      SpelledRange(b, n);
    } else {
      if b != [] { AsciiCons(b, n); }
      SpelledAscii(b, n);
      BigEndianBound(b, n);
    }
  }

  lemma SpelledEnd(a: seq<byte>, n: nat)
    requires n > 0 && (a == [] || Ascii(a[1..], n - 1))
    ensures Spelled(a, n) == Shl(Signed(Head(a)), 8 * (n - 1)) + BigEndian(Tail(a), n - 1)
  {
    if a == [] {
      BigEndianEmpty(n - 1);
      ShlOrder(0, 0, 8 * (n - 1));
    }
  }

  /** Numbers with the same low part range are equal only if their first characters are. */
  lemma SignedApart(x: byte, y: byte, u: int, v: int, k: nat)
    requires 0 <= u < Shl(1, k) && 0 <= v < Shl(1, k) && Shl(Signed(x), k) + u == Shl(Signed(y), k) + v
    ensures x == y && u == v
  {
    if Signed(x) < Signed(y) {
      ShlOrder(Signed(x) + 1, Signed(y), k);
      ShlSum(Signed(x), 1, k);
    } else if Signed(y) < Signed(x) {
      ShlOrder(Signed(y) + 1, Signed(x), k);
      ShlSum(Signed(y), 1, k);
    }
  }

  /** What is left of a string once the wiped characters are gone. */
  function Left(s: seq<byte>, n: nat): seq<byte> {
    Prefix(s[Wiped(s, n)..], n - Wiped(s, n))
  }

  lemma LeftLater(s: seq<byte>, n: nat)
    requires n > 0 && s != [] && !Ascii(s[1..], n - 1)
    ensures Wiped(s, n) == 1 + Wiped(s[1..], n - 1) && Left(s, n) == Left(s[1..], n - 1)
  {
    var j := Wiped(s[1..], n - 1);
    assert s[1..][j..] == s[1 + j..];
  }

  lemma LeftHere(s: seq<byte>, n: nat)
    requires n == 0 || s == [] || Ascii(s[1..], n - 1)
    ensures Wiped(s, n) == 0 && Left(s, n) == Prefix(s, n)
  {
    assert s[0..] == s;
  }

  lemma NotAscii(s: seq<byte>, n: nat)
    requires !Ascii(s, n)
    ensures n > 0 && s != []
  {
  }

  lemma SpelledLater(s: seq<byte>, n: nat)
    requires n > 0 && s != [] && !Ascii(s[1..], n - 1)
    ensures Spelled(s, n) == Spelled(s[1..], n - 1)
  {
  }

  /** The same characters are left of both strings, at the same places. */
  predicate SameLeft(a: seq<byte>, b: seq<byte>, n: nat) {
    Wiped(a, n) == Wiped(b, n) && Left(a, n) == Left(b, n)
  }

  lemma {:induction false} SpelledInjective(a: seq<byte>, b: seq<byte>, n: nat)
    requires 0 !in a && 0 !in b
    ensures Spelled(a, n) == Spelled(b, n) <==> SameLeft(a, b, n)
    decreases n
  {
    hide Ascii, Prefix, BigEndian, Left, Wiped, Shl, Spelled;
    var la, lb := n > 0 && a != [] && !Ascii(a[1..], n - 1), n > 0 && b != [] && !Ascii(b[1..], n - 1);
    if la { LeftLater(a, n); SpelledLater(a, n); } else { LeftHere(a, n); }
    if lb { LeftLater(b, n); SpelledLater(b, n); } else { LeftHere(b, n); }
    if la && lb {
      SpelledInjective(a[1..], b[1..], n - 1);
    } else if la {
      SpelledApart(a, b, n);
    } else if lb {
      SpelledApart(b, a, n);
    } else {
      SpelledSame(a, b, n);
    }
  }

  lemma SpelledSame(a: seq<byte>, b: seq<byte>, n: nat)
    requires 0 !in a && 0 !in b
    requires n == 0 || a == [] || Ascii(a[1..], n - 1)
    requires n == 0 || b == [] || Ascii(b[1..], n - 1)
    ensures Spelled(a, n) == Spelled(b, n) <==> Prefix(a, n) == Prefix(b, n)
  {
    if n > 0 {
      SpelledSameFrom(a, b, n);
    }
  }

  lemma SpelledSameFrom(a: seq<byte>, b: seq<byte>, n: nat)
    requires 0 !in a && 0 !in b && n > 0
    requires (a == [] || Ascii(a[1..], n - 1)) && (b == [] || Ascii(b[1..], n - 1))
    ensures Spelled(a, n) == Spelled(b, n) <==> Prefix(a, n) == Prefix(b, n)
  {
    hide Ascii, Prefix, BigEndian, Shl, Spelled;
    SpelledEnd(a, n);
    SpelledEnd(b, n);
    BigEndianBound(Tail(a), n - 1);
    BigEndianBound(Tail(b), n - 1);
    BigEndianInjective(Tail(a), Tail(b), n - 1);
    PrefixSame(a, b, n);
    if Spelled(a, n) == Spelled(b, n) {
      SignedApart(Head(a), Head(b), BigEndian(Tail(a), n - 1), BigEndian(Tail(b), n - 1), 8 * (n - 1));
    }
  }

  /** What the key loses, for any two strings: exactly what comes after the eighth byte, or before the last
      byte of 128 or more among the first eight. */
  lemma KeyInjective(a: CString, b: CString)
    ensures Key(a) == Key(b) <==> SameLeft(a, b, 8)
  {
    KeyIsSpelled(a);
    KeyIsSpelled(b);
    SpelledInjective(a, b, 8);
  }

  lemma WipedNothing(s: seq<byte>, n: nat)
    requires Ascii(s, n)
    ensures Wiped(s, n) == 0
  {
    if n > 0 && s != [] {
      AsciiCons(s, n);
    }
  }

  /** Without such bytes, only what comes after the eighth. */
  lemma KeyInjectiveAscii(a: CString, b: CString)
    requires Ascii(a, 8) && Ascii(b, 8)
    ensures Key(a) == Key(b) <==> Prefix(a, 8) == Prefix(b, 8)
  {
    KeyInjective(a, b);
    WipedNothing(a, 8);
    WipedNothing(b, 8);
    assert a[0..] == a && b[0..] == b;
  }

  // ---------- the order of keys, byte by byte ----------

  lemma {:induction false} StrOrder(a: seq<byte>, b: seq<byte>)
    ensures a != b ==> StrLess(a, b) || StrLess(b, a)
    ensures !(StrLess(a, b) && StrLess(b, a)) && !StrLess(a, a)
    decreases |a|
  {
    if a != [] {
      StrOrder(a[1..], a[1..]);
      if b != [] {
        StrOrder(a[1..], b[1..]);
        if a[0] == b[0] && a[1..] == b[1..] {
          assert a == [a[0]] + a[1..] == b;
        }
      }
    }
  }

  lemma {:induction false} BigEndianOfPrefix(s: seq<byte>, n: nat)
    ensures BigEndian(Prefix(s, n), n) == BigEndian(s, n)
    decreases n
  {
    if n > 0 && s != [] {
      BigEndianOfPrefix(s[1..], n - 1);
      PrefixCons(s, n);
      assert ([s[0]] + Prefix(s[1..], n - 1))[1..] == Prefix(s[1..], n - 1);
    }
  }

  lemma PrefixClean(s: seq<byte>, n: nat)
    requires 0 !in s
    ensures 0 !in Prefix(s, n) && |Prefix(s, n)| <= n && Prefix(Prefix(s, n), n) == Prefix(s, n)
  {
  }

  /** The numbers the first n bytes of two strings spell are ordered as those bytes are. */
  lemma BigEndianOrder(a: seq<byte>, b: seq<byte>, n: nat)
    requires 0 !in a && 0 !in b
    ensures BigEndian(a, n) <= BigEndian(b, n) <==> !StrLess(Prefix(b, n), Prefix(a, n))
  {
    hide StrLess, BigEndian, Prefix;
    var x, y := Prefix(a, n), Prefix(b, n);
    PrefixClean(a, n);
    PrefixClean(b, n);
    BigEndianOfPrefix(a, n);
    BigEndianOfPrefix(b, n);
    StrOrder(x, y);
    if StrLess(y, x) {
      BigEndianMonotone(y, x, n);
      BigEndianInjective(a, b, n);
    } else {
      BigEndianMonotone(x, y, n);
    }
  }

  lemma SpelledFirst(s: seq<byte>, n: nat)
    requires n > 0 && s != [] && s[0] >= 128 && Ascii(s[1..], n - 1)
    ensures Spelled(s, n) == BigEndian(s, n) - Shl(256, 8 * (n - 1))
  {
    ShlSum(s[0], -256, 8 * (n - 1));
    ShlSum(256, -256, 8 * (n - 1));
    ShlOrder(0, 0, 8 * (n - 1));
  }

  /** Of two strings whose keys are negative, the one that lost fewer characters has the smaller key; if both lost
      as many, what is left decides. */
  lemma {:induction false} SpelledOrder(a: seq<byte>, b: seq<byte>, n: nat)
    requires 0 !in a && 0 !in b && !Ascii(a, n) && !Ascii(b, n)
    ensures Spelled(a, n) <= Spelled(b, n) <==>
              Wiped(a, n) < Wiped(b, n) || (Wiped(a, n) == Wiped(b, n) && !StrLess(Left(b, n), Left(a, n)))
    decreases n
  {
    hide Ascii, StrLess, BigEndian, Prefix, Left, Wiped, Shl, Spelled;
    NotAscii(a, n);
    NotAscii(b, n);
    AsciiCons(a, n);
    AsciiCons(b, n);
    var la, lb := !Ascii(a[1..], n - 1), !Ascii(b[1..], n - 1);
    if la { LeftLater(a, n); SpelledLater(a, n); } else { LeftHere(a, n); SpelledFirst(a, n); }
    if lb { LeftLater(b, n); SpelledLater(b, n); } else { LeftHere(b, n); SpelledFirst(b, n); }
    if la && lb {
      SpelledOrder(a[1..], b[1..], n - 1);
    } else if la {
      SpelledRange(a[1..], n - 1);
      SpelledRange(b, n);
    } else if lb {
      SpelledRange(b[1..], n - 1);
      SpelledRange(a, n);
    } else {
      BigEndianOrder(a, b, n);
    }
  }

  /** The order of keys as an order of strings: a string with a byte of 128 or more among the first eight comes
      before one without. */
  predicate KeyLe(a: seq<byte>, b: seq<byte>, n: nat) {
    if Ascii(a, n) && Ascii(b, n) then !StrLess(Prefix(b, n), Prefix(a, n))
    else if Ascii(a, n) then false
    else if Ascii(b, n) then true
    else Wiped(a, n) < Wiped(b, n) || (Wiped(a, n) == Wiped(b, n) && !StrLess(Left(b, n), Left(a, n)))
  }

  /** The keys of any two strings, compared by their bytes. */
  lemma KeyOrder(a: CString, b: CString)
    ensures Key(a) <= Key(b) <==> KeyLe(a, b, 8)
  {
    hide Key, Ascii, StrLess, BigEndian, Prefix, Left, Wiped, Spelled;
    KeyIsBigEndian(a);
    KeyIsBigEndian(b);
    if Ascii(a, 8) && Ascii(b, 8) {
      BigEndianOrder(a, b, 8);
    } else if !Ascii(a, 8) && !Ascii(b, 8) {
      KeyIsSpelled(a);
      KeyIsSpelled(b);
      SpelledOrder(a, b, 8);
    }
  }

  /** The order of two strings is kept by their keys exactly when the keys are equal or compare as the strings. */
  lemma OrderKeptExact(a: CString, b: CString)
    ensures OrderKept(a, b) <==> SameLeft(a, b, 8) || (StrLess(a, b) <==> KeyLe(a, b, 8))
  {
    hide Key, KeyLe, StrLess, SameLeft;
    KeyOrder(a, b);
    KeyOrder(b, a);
    KeyInjective(a, b);
    StrOrder(a, b);
  }

  /** And so it is for two strings without bytes of 128 or more in front. */
  lemma OrderKeptAscii(a: CString, b: CString)
    requires Ascii(a, 8) && Ascii(b, 8)
    ensures OrderKept(a, b)
  {
    if !StrLess(b, a) { KeyMonotone(a, b); }
    if !StrLess(a, b) { KeyMonotone(b, a); }
  }

  /** Two strings that both have a byte of 128 or more and lose their order: an e with acute accent in UTF-8, and
      the same behind an "a". */
  lemma OrderLost()
    ensures StrLess([97, 195, 169], [195, 169]) && !OrderKept([97, 195, 169], [195, 169])
  {
    hide Key, OrderKept, Left;
    var a: CString, b: CString, e := [97, 195, 169], [195, 169], [169];
    assert a[1..] == b && b[1..] == e && e[1..] == [];
    assert e[0] == 169;
    assert !Ascii(e, 6) && Wiped(e, 6) == 0;
    assert b[1] == 169;
    assert !Ascii(b, 7) && Wiped(b, 7) == 1 && Wiped(a, 8) == 2;
    assert !Ascii(e, 7) && Wiped(e, 7) == 0 && Wiped(b, 8) == 1 && !Ascii(b, 8);
    assert a[1] == 195;
    assert !Ascii(a, 8);
    OrderKeptExact(a, b);
  }
}
