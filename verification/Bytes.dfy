/** Bytes, little-endian words, and overwriting a range of bytes: the sequence meaning of
    memmove and memset, shared by disk blocks, files and memory pages. */
module Bytes {

  type byte = x: int | 0 <= x < 0x100
  type u16 = x: int | 0 <= x < 0x1_0000
  type u32 = x: int | 0 <= x < 0x1_0000_0000

  /** No number is listed twice. */
  ghost predicate Distinct(q: seq<nat>) {
    forall i, j :: 0 <= i < j < |q| ==> q[i] != q[j]
  }

  /** A buffer of n zero bytes. */
  function Zeros(n: nat): (s: seq<byte>)
    ensures |s| == n
    ensures forall i :: 0 <= i < n ==> s[i] == 0
  {
    seq(n, _ => 0)
  }

  /** s with the bytes from off on overwritten by d; it grows where d runs past its end. */
  function Splice(s: seq<byte>, off: nat, d: seq<byte>): (r: seq<byte>)
    requires off <= |s|
    ensures |r| == if off + |d| <= |s| then |s| else off + |d|
    ensures forall i :: 0 <= i < |r| ==> r[i] == if off <= i < off + |d| then d[i - off] else s[i]
  {
    s[..off] + d + if off + |d| <= |s| then s[off + |d|..] else []
  }

  lemma SpliceAppend(s: seq<byte>, off: nat, d: seq<byte>, e: seq<byte>)
    requires off <= |s|
    ensures Splice(Splice(s, off, d), off + |d|, e) == Splice(s, off, d + e)
  {
  }

  /** Reading back a copied range gives the copied bytes; ranges beside it are untouched. */
  lemma SpliceWindow(s: seq<byte>, off: nat, d: seq<byte>)
    requires off <= |s|
    ensures Splice(s, off, d)[off..off + |d|] == d
  {
  }

  lemma SpliceBeside(s: seq<byte>, off: nat, d: seq<byte>, lo: nat, hi: nat)
    requires off + |d| <= |s| && lo <= hi <= |s| && (hi <= off || off + |d| <= lo)
    ensures Splice(s, off, d)[lo..hi] == s[lo..hi]
  {
  }

  // ---------- little-endian words ----------

  function FromU16(x: u16): (s: seq<byte>)
    ensures |s| == 2
  {
    [x % 256, x / 256]
  }

  function ToU16(s: seq<byte>): u16
    requires |s| == 2
  {
    var lo: int, hi: int := s[0], s[1];
    lo + 256 * hi
  }

  function FromU32(x: u32): (s: seq<byte>)
    ensures |s| == 4
  {
    FromU16(x % 0x1_0000) + FromU16(x / 0x1_0000)
  }

  function ToU32(s: seq<byte>): u32
    requires |s| == 4
  {
    var lo: int, hi: int := ToU16(s[..2]), ToU16(s[2..]);
    lo + 0x1_0000 * hi
  }

  lemma U32RoundTrip(x: u32)
    ensures ToU32(FromU32(x)) == x
  {
    assert FromU32(x)[..2] == FromU16(x % 0x1_0000);
    assert FromU32(x)[2..] == FromU16(x / 0x1_0000);
  }

  /** The word at index k of an array of words stored in s. */
  function Word(s: seq<byte>, k: nat): u32
    requires 4 * k + 4 <= |s|
  {
    ToU32(s[4 * k..4 * k + 4])
  }

  function PutWord(s: seq<byte>, k: nat, x: u32): (r: seq<byte>)
    requires 4 * k + 4 <= |s|
    ensures |r| == |s|
  {
    Splice(s, 4 * k, FromU32(x))
  }

  lemma WordPutWord(s: seq<byte>, k: nat, x: u32, j: nat)
    requires 4 * k + 4 <= |s| && 4 * j + 4 <= |s|
    ensures Word(PutWord(s, k, x), j) == if j == k then x else Word(s, j)
  {
    if j == k {
      SpliceWindow(s, 4 * k, FromU32(x));
      U32RoundTrip(x);
    } else {
      SpliceBeside(s, 4 * k, FromU32(x), 4 * j, 4 * j + 4);
    }
  }

  lemma WordOfZeros(n: nat, k: nat)
    requires 4 * k + 4 <= n
    ensures Word(Zeros(n), k) == 0
  {
    assert Zeros(n)[4 * k..4 * k + 4] == [0, 0, 0, 0];
  }

  /** The number in two bytes at o, and in four, the lowest byte first. */
  function Le16(s: seq<byte>, o: nat): int
    requires o + 2 <= |s|
  {
    var a: int, b: int := s[o], s[o + 1];
    a + 0x100 * b
  }

  function Le32(s: seq<byte>, o: nat): int
    requires o + 4 <= |s|
  {
    var a: int, b: int, c: int, d: int := s[o], s[o + 1], s[o + 2], s[o + 3];
    a + 0x100 * b + 0x1_0000 * c + 0x100_0000 * d
  }

  /** Words are read and written little-endian. */
  lemma ReadLow(s: seq<byte>, o: nat)
    ensures o + 2 <= |s| ==> ToU16(s[o..o + 2]) == Le16(s, o)
    ensures o + 4 <= |s| ==> ToU32(s[o..o + 4]) == Le32(s, o)
  {
    if o + 4 <= |s| {
      var t := s[o..o + 4];
      assert t[..2] == [s[o], s[o + 1]] && t[2..] == [s[o + 2], s[o + 3]];
    }
  }

  lemma StoredLow(x: u32)
    ensures Le32(FromU32(x), 0) == x && (x < 0x1_0000 ==> Le16(FromU16(x), 0) == x)
  {
    U32RoundTrip(x);
    ReadLow(FromU32(x), 0);
    assert FromU32(x)[0..4] == FromU32(x);
  }

  lemma WordBytes(s: seq<byte>, k: nat)
    requires 4 * k + 4 <= |s|
    ensures Word(s, k) == Le32(s, 4 * k)
  {
    ReadLow(s, 4 * k);
  }

  lemma PutWordBytes(s: seq<byte>, k: nat, x: u32)
    requires 4 * k + 4 <= |s|
    ensures Le32(PutWord(s, k, x), 4 * k) == x
    ensures forall i :: 0 <= i < |s| && !(4 * k <= i < 4 * k + 4) ==> PutWord(s, k, x)[i] == s[i]
  {
    WordPutWord(s, k, x, k);
    WordBytes(PutWord(s, k, x), k);
  }

  /** An array of words as bytes. */
  function FromWords(ws: seq<u32>): (s: seq<byte>)
    ensures |s| == 4 * |ws|
  {
    if ws == [] then [] else FromU32(ws[0]) + FromWords(ws[1..])
  }

  lemma {:induction false} WordFromWords(ws: seq<u32>, k: nat)
    requires k < |ws|
    ensures Word(FromWords(ws), k) == ws[k]
  {
    var s := FromWords(ws);
    if k == 0 {
      assert s[0..4] == FromU32(ws[0]);
      U32RoundTrip(ws[0]);
    } else {
      WordFromWords(ws[1..], k - 1);
      assert s[4 * k..4 * k + 4] == FromWords(ws[1..])[4 * (k - 1)..4 * (k - 1) + 4];
    }
  }

  // ---------- one bit of a byte ----------

  /** Bit k of x is set. */
  predicate BitOf(x: nat, k: nat) {
    if k == 0 then x % 2 == 1 else BitOf(x / 2, k - 1)
  }

  /** x | (1 << k) */
  function OrBit(x: nat, k: nat): nat {
    if k == 0 then x / 2 * 2 + 1 else OrBit(x / 2, k - 1) * 2 + x % 2
  }

  /** x & ~(1 << k) */
  function ClearBit(x: nat, k: nat): nat {
    if k == 0 then x / 2 * 2 else ClearBit(x / 2, k - 1) * 2 + x % 2
  }

  lemma {:induction false} OrBitBits(x: nat, k: nat, j: nat)
    ensures BitOf(OrBit(x, k), j) <==> j == k || BitOf(x, j)
  {
    if k > 0 && j > 0 {
      OrBitBits(x / 2, k - 1, j - 1);
      assert OrBit(x, k) / 2 == OrBit(x / 2, k - 1);
    } else if j > 0 {
      assert OrBit(x, k) / 2 == x / 2;
    }
  }

  lemma {:induction false} ClearBitBits(x: nat, k: nat, j: nat)
    ensures BitOf(ClearBit(x, k), j) <==> j != k && BitOf(x, j)
  {
    if k > 0 && j > 0 {
      ClearBitBits(x / 2, k - 1, j - 1);
      assert ClearBit(x, k) / 2 == ClearBit(x / 2, k - 1);
    } else if j > 0 {
      assert ClearBit(x, k) / 2 == x / 2;
    }
  }

  function Pow2(w: nat): nat {
    if w == 0 then 1 else 2 * Pow2(w - 1)
  }

  lemma {:induction false} BitOpsStayBelow(x: nat, k: nat, w: nat)
    requires k < w && x < Pow2(w)
    ensures OrBit(x, k) < Pow2(w) && ClearBit(x, k) < Pow2(w)
  {
    if k > 0 {
      BitOpsStayBelow(x / 2, k - 1, w - 1);
    }
  }

  lemma {:induction false} BitOfZero(k: nat)
    ensures !BitOf(0, k)
  {
    if k > 0 {
      BitOfZero(k - 1);
    }
  }

  /** A byte with one bit set by a mask. */
  function OrBitByte(x: byte, k: nat): byte
    requires k < 8
  {
    assert Pow2(8) == 256 by { assert Pow2(4) == 16; }
    BitOpsStayBelow(x, k, 8);
    OrBit(x, k)
  }

  /** A byte with one bit cleared by a mask. */
  function ClearBitByte(x: byte, k: nat): byte
    requires k < 8
  {
    assert Pow2(8) == 256 by { assert Pow2(4) == 16; }
    BitOpsStayBelow(x, k, 8);
    ClearBit(x, k)
  }

  /** Bit k has the value 2^k. */
  lemma {:induction false} BitIsDigit(x: nat, k: nat)
    ensures Pow2(k) > 0 && (BitOf(x, k) <==> x / Pow2(k) % 2 == 1)
  {
    if k > 0 {
      BitIsDigit(x / 2, k - 1);
      DivTwice(x, Pow2(k - 1));
    }
  }

  lemma DivTwice(x: nat, p: nat)
    requires p > 0
    ensures x / 2 / p == x / (2 * p)
  {
    var h, q := x / 2, x / 2 / p;
    var r := h - p * q;
    assert 0 <= r < p;
    assert 2 * (p * q) == 2 * p * q;
    DivUnique(x, 2 * p, q, 2 * r + x % 2);
  }

  lemma DivUnique(x: nat, d: nat, q: nat, r: nat)
    requires d > 0 && r < d && x == d * q + r
    ensures x / d == q
  {
    var e := x / d - q;
    assert d * e == r - x % d;
  }

  /** Bit bi of a bitmap held in bytes. */
  predicate MapBit(s: seq<byte>, bi: nat)
    requires bi < 8 * |s|
  {
    BitOf(s[bi / 8], bi % 8)
  }

  function SetMapBit(s: seq<byte>, bi: nat, on: bool): (r: seq<byte>)
    requires bi < 8 * |s|
    ensures |r| == |s|
  {
    s[bi / 8 := if on then OrBitByte(s[bi / 8], bi % 8) else ClearBitByte(s[bi / 8], bi % 8)]
  }

  /** Bit bi of a map is bit bi % 8 of byte bi / 8, counted from the lowest. */
  lemma MapBitDigit(s: seq<byte>, bi: nat)
    requires bi < 8 * |s|
    ensures Pow2(bi % 8) > 0 && (MapBit(s, bi) <==> s[bi / 8] / Pow2(bi % 8) % 2 == 1)
  {
    BitIsDigit(s[bi / 8], bi % 8);
  }

  lemma MapBitSetMapBit(s: seq<byte>, bi: nat, on: bool, bj: nat)
    requires bi < 8 * |s| && bj < 8 * |s|
    ensures MapBit(SetMapBit(s, bi, on), bj) == if bj == bi then on else MapBit(s, bj)
  {
    OrBitBits(s[bi / 8], bi % 8, bj % 8);
    ClearBitBits(s[bi / 8], bi % 8, bj % 8);
  }
}
