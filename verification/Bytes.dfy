/** Bytes, fixed-width little-endian integers, and the two memory operations a page offers:
    copying bytes out of a buffer and splicing bytes into it. */
module Bytes {

  type byte = x: int | 0 <= x < 256
  type int32 = x: int | -0x8000_0000 <= x < 0x8000_0000
  type int64 = x: int | -0x8000_0000_0000_0000 <= x < 0x8000_0000_0000_0000

  const SIZE := 4096

  /** The bytes of one page. */
  type Block = s: seq<byte> | |s| == SIZE witness seq(SIZE, _ => 0)

  /** A page never written: all its bytes are zero. */
  function ZeroBlock(): (b: Block)
    ensures forall i :: 0 <= i < SIZE ==> b[i] == 0
  {
    seq(SIZE, _ => 0)
  }

  function Pow256(n: nat): (p: nat)
    ensures p > 0
  {
    if n == 0 then 1 else 256 * Pow256(n - 1)
  }

  /** The n low-order bytes of x, least significant first. */
  function LittleEndian(x: nat, n: nat): (s: seq<byte>)
    ensures |s| == n
  {
    if n == 0 then [] else [x % 256] + LittleEndian(x / 256, n - 1)
  }

  function Unsigned(s: seq<byte>): nat
  {
    if |s| == 0 then 0 else s[0] + 256 * Unsigned(s[1..])
  }

  lemma {:induction false} UnsignedBound(s: seq<byte>)
    ensures Unsigned(s) < Pow256(|s|)
  {
    if |s| > 0 {
      UnsignedBound(s[1..]);
    }
  }

  lemma {:induction false} UnsignedOfLittleEndian(x: nat, n: nat)
    requires x < Pow256(n)
    ensures Unsigned(LittleEndian(x, n)) == x
  {
    if n > 0 {
      UnsignedOfLittleEndian(x / 256, n - 1);
      assert LittleEndian(x, n)[1..] == LittleEndian(x / 256, n - 1);
    }
  }

  lemma {:induction false} LittleEndianOfUnsigned(s: seq<byte>)
    ensures LittleEndian(Unsigned(s), |s|) == s
  {
    if |s| > 0 {
      LittleEndianOfUnsigned(s[1..]);
      assert Unsigned(s) % 256 == s[0] && Unsigned(s) / 256 == Unsigned(s[1..]);
    }
  }

  lemma Pow256Values()
    ensures Pow256(4) == 0x1_0000_0000
    ensures Pow256(8) == 0x1_0000_0000_0000_0000
  {
    assert Pow256(2) == 0x1_0000;
    assert Pow256(4) == 256 * (256 * Pow256(2));
    assert Pow256(6) == 256 * (256 * Pow256(4));
    assert Pow256(8) == 256 * (256 * Pow256(6));
  }

  /** Two's complement reading of four bytes. */
  function Dec32(s: seq<byte>): (x: int32)
    requires |s| == 4
  {
    UnsignedBound(s);
    Pow256Values();
    var u := Unsigned(s);
    if u >= 0x8000_0000 then u - 0x1_0000_0000 else u
  }

  function Enc32(x: int32): (s: seq<byte>)
    ensures |s| == 4 && Dec32(s) == x
  {
    var u := if x < 0 then x + 0x1_0000_0000 else x;
    Pow256Values();
    UnsignedOfLittleEndian(u, 4);
    LittleEndian(u, 4)
  }

  /** Two's complement reading of eight bytes. */
  function Dec64(s: seq<byte>): (x: int64)
    requires |s| == 8
  {
    UnsignedBound(s);
    Pow256Values();
    var u := Unsigned(s);
    if u >= 0x8000_0000_0000_0000 then u - 0x1_0000_0000_0000_0000 else u
  }

  function Enc64(x: int64): (s: seq<byte>)
    ensures |s| == 8 && Dec64(s) == x
  {
    var u := if x < 0 then x + 0x1_0000_0000_0000_0000 else x;
    Pow256Values();
    UnsignedOfLittleEndian(u, 8);
    LittleEndian(u, 8)
  }

  /** Every eight bytes are the encoding of the number they decode to. */
  lemma Enc64Dec64(s: seq<byte>)
    requires |s| == 8
    ensures Enc64(Dec64(s)) == s
  {
    UnsignedBound(s);
    Pow256Values();
    LittleEndianOfUnsigned(s);
  }

  /** A number by its digits to the base of 256, the lowest first. */
  function FourDigits(a: int, b: int, c: int, d: int): int {
    a + 0x100 * b + 0x1_0000 * c + 0x100_0000 * d
  }

  /** Four bytes as a number: the first is the lowest, and the last has the sign. */
  lemma Dec32Bytes(s: seq<byte>)
    requires |s| == 4
    ensures Dec32(s) == FourDigits(s[0], s[1], s[2], if s[3] < 128 then s[3] else s[3] as int - 256)
  {
    UnsignedOfFour(s);
  }

  lemma UnsignedOfFour(s: seq<byte>)
    requires |s| >= 4
    ensures Unsigned(s) == FourDigits(s[0], s[1], s[2], s[3]) + 0x1_0000_0000 * Unsigned(s[4..])
  {
    var s1, s2, s3 := s[1..], s[2..], s[3..];
    assert s1[1..] == s2 && s2[1..] == s3 && s3[1..] == s[4..];
    assert Unsigned(s) == s[0] + 256 * Unsigned(s1) && Unsigned(s1) == s[1] + 256 * Unsigned(s2);
    assert Unsigned(s2) == s[2] + 256 * Unsigned(s3) && Unsigned(s3) == s[3] + 256 * Unsigned(s[4..]);
  }

  lemma EncDec32(s: seq<byte>)
    requires |s| == 4
    ensures Enc32(Dec32(s)) == s
  {
    UnsignedBound(s);
    Pow256Values();
    LittleEndianOfUnsigned(s);
  }

  lemma NumberBytes(n: int32, a: byte, b: byte)
    requires n == a as int + 256 * b as int
    ensures Enc32(n) == [a, b, 0, 0]
  {
    hide Dec32, Enc32;
    Dec32Bytes([a, b, 0, 0]);
    EncDec32([a, b, 0, 0]);
  }

  /** Eight bytes as a number: the last four have the sign. */
  lemma Dec64Bytes(s: seq<byte>)
    requires |s| == 8
    ensures Dec64(s) == FourDigits(s[0], s[1], s[2], s[3]) + 0x1_0000_0000 * Dec32(s[4..])
  {
    UnsignedOfFour(s);
    UnsignedOfFour(s[4..]);
    assert s[4..][4..] == [];
  }

  /** One byte as a 64-bit number. */
  lemma SmallBytes(b: byte)
    ensures Enc64(b) == [b, 0, 0, 0, 0, 0, 0, 0]
  {
    hide Unsigned, Dec64;
    NoDigits(7);
    assert LittleEndian(b, 8) == [b] + LittleEndian(0, 7);
  }

  lemma {:induction false} NoDigits(n: nat)
    ensures forall i :: 0 <= i < n ==> LittleEndian(0, n)[i] == 0
  {
    if n > 0 {
      NoDigits(n - 1);
    }
  }

  /** b with the bytes from off on replaced by s. */
  function Put(b: seq<byte>, off: nat, s: seq<byte>): (r: seq<byte>)
    requires off + |s| <= |b|
    ensures |r| == |b|
    ensures r[off..off + |s|] == s
    ensures forall i, j {:trigger r[i..j]} :: 0 <= i <= j <= |b| && (j <= off || off + |s| <= i) ==> r[i..j] == b[i..j]
    ensures forall i {:trigger r[i..]} :: off + |s| <= i <= |b| ==> r[i..] == b[i..]
  {
    b[..off] + s + b[off + |s|..]
  }

  function Get32(b: seq<byte>, off: nat): int32
    requires off + 4 <= |b|
  {
    Dec32(b[off..off + 4])
  }

  function Get64(b: seq<byte>, off: nat): int64
    requires off + 8 <= |b|
  {
    Dec64(b[off..off + 8])
  }

  /** Two adjacent writes are one write. */
  lemma PutAppend(b: seq<byte>, off: nat, s: seq<byte>, t: seq<byte>)
    requires off + |s| + |t| <= |b|
    ensures Put(Put(b, off, s), off + |s|, t) == Put(b, off, s + t)
  {
  }

  lemma SliceOfSlice<T>(s: seq<T>, lo: nat, hi: nat, i: nat, j: nat)
    requires lo <= hi <= |s| && i <= j <= hi - lo
    ensures s[lo + i..lo + j] == s[lo..hi][i..j]
  {
    var t, u, v := s[lo..hi], s[lo..hi][i..j], s[lo + i..lo + j];
    forall k | 0 <= k < j - i ensures u[k] == v[k] {
      assert u[k] == t[i + k] == s[lo + (i + k)] && v[k] == s[(lo + i) + k];
    }
  }

  lemma SliceOfThree<T>(a: seq<T>, b: seq<T>, c: seq<T>)
    ensures var s := a + (b + c);
            s[0..|a|] == a && s[|a|..|a| + |b|] == b && s[|a| + |b|..|a| + |b| + |c|] == c
  {
  }
}
