/** Bytes, little-endian words and the bit operators the sources use on them. */
module Bytes {

  type Byte = x: int | 0 <= x < 256

  /** 2^32: `unsigned` arithmetic is taken modulo this. */
  const WORD: int := 0x1_0000_0000

  function Pow2(k: nat): (r: nat)
    ensures r >= 1
  {
    if k == 0 then 1 else 2 * Pow2(k - 1)
  }

  /** The k-th bit of a byte, lowest first. */
  function Bit(x: nat, k: nat): nat
  {
    if k == 0 then x % 2 else Bit(x / 2, k - 1)
  }

  /** C's `|` on non-negative values. */
  function BitOr(a: nat, b: nat): nat
  {
    if a == 0 then b
    else if b == 0 then a
    else 2 * BitOr(a / 2, b / 2) + (if a % 2 == 1 || b % 2 == 1 then 1 else 0)
  }

  /** C's `^` on non-negative values. */
  function BitXor(a: nat, b: nat): nat
  {
    if a == 0 then b
    else if b == 0 then a
    else 2 * BitXor(a / 2, b / 2) + (if a % 2 != b % 2 then 1 else 0)
  }

  lemma ShiftStep(c: nat, k: nat)
    requires k > 0
    ensures c * Pow2(k) == 2 * (c * Pow2(k - 1))
  {
    var p := Pow2(k - 1);
    assert Pow2(k) == 2 * p;
    assert c * (2 * p) == 2 * (c * p);
  }

  lemma Halves(half: nat)
    ensures (2 * half) / 2 == half && (2 * half) % 2 == 0
  {
  }

  lemma {:induction false} BitOrSymmetric(a: nat, b: nat)
    ensures BitOr(a, b) == BitOr(b, a)
  {
    if a > 0 && b > 0 { BitOrSymmetric(a / 2, b / 2); }
  }

  lemma BitOrStep(half: nat, low: nat)
    ensures BitOr(2 * half, low) == 2 * BitOr(half, low / 2) + low % 2
  {
    Halves(half);
    if half == 0 || low == 0 { assert low == 2 * (low / 2) + low % 2; }
  }

  lemma BitXorStep(half: nat, low: nat)
    ensures BitXor(2 * half, low) == 2 * BitXor(half, low / 2) + low % 2
  {
    Halves(half);
    if half != 0 && low != 0 {
      BitXorUnfold(2 * half, low);
    }
  }

  lemma BitXorUnfold(a: nat, b: nat)
    requires a != 0 && b != 0
    ensures BitXor(a, b) == 2 * BitXor(a / 2, b / 2) + (if a % 2 != b % 2 then 1 else 0)
  {
  }

  /** Or-ing a value whose low k bits are clear with a k-bit value adds them. */
  lemma {:induction false} BitOrDisjoint(c: nat, k: nat, low: nat)
    requires low < Pow2(k)
    ensures BitOr(c * Pow2(k), low) == c * Pow2(k) + low
    decreases k
  {
    if k == 0 {
      assert c * Pow2(k) == c;
    } else {
      ShiftStep(c, k);
      BitOrDisjoint(c, k - 1, low / 2);
      hide BitOr, Pow2;
      BitOrStep(c * Pow2(k - 1), low);
    }
  }

  lemma BitOrTop(k: nat, low: nat)
    requires low < Pow2(k)
    ensures BitOr(low, Pow2(k)) == Pow2(k) + low
  {
    hide BitOr, Pow2;
    BitOrDisjoint(1, k, low);
    BitOrSymmetric(Pow2(k), low);
    assert 1 * Pow2(k) == Pow2(k);
  }

  lemma Pow2Double(k: nat)
    ensures Pow2(k + 1) == 2 * Pow2(k)
  {
  }

  /** Xor-ing a value whose low k bits are clear with a k-bit value adds them. */
  lemma {:induction false} BitXorDisjoint(c: nat, k: nat, low: nat)
    requires low < Pow2(k)
    ensures BitXor(c * Pow2(k), low) == c * Pow2(k) + low
    decreases k
  {
    if k == 0 {
      assert c * Pow2(k) == c;
    } else {
      ShiftStep(c, k);
      BitXorDisjoint(c, k - 1, low / 2);
      hide BitXor, Pow2;
      BitXorStep(c * Pow2(k - 1), low);
    }
  }

  /** The powers of two up to 1024. */
  lemma Pow2Table()
    ensures Pow2(0) == 1 && Pow2(1) == 2 && Pow2(2) == 4 && Pow2(3) == 8 && Pow2(4) == 16
    ensures Pow2(5) == 32 && Pow2(6) == 64 && Pow2(7) == 128 && Pow2(8) == 256 && Pow2(9) == 512 && Pow2(10) == 1024
  {
    assert Pow2(0) == 1 && Pow2(1) == 2 && Pow2(2) == 4 && Pow2(3) == 8 && Pow2(4) == 16;
  }

  /** The four bytes, least significant first, of the low 32 bits of `x`. */
  function Le32(x: nat): (r: seq<Byte>)
    ensures |r| == 4
  {
    [x % 256, x / 256 % 256, x / 65536 % 256, x / 16777216 % 256]
  }

  /** The unsigned word stored at `s[at..at+4]`. */
  function Word32(s: seq<Byte>, at: nat): (r: nat)
    requires at + 4 <= |s|
    ensures r < WORD
  {
    s[at] as int + 256 * s[at + 1] as int + 65536 * s[at + 2] as int + 16777216 * s[at + 3] as int
  }

  function Word16(s: seq<Byte>, at: nat): (r: nat)
    requires at + 2 <= |s|
    ensures r < 65536
  {
    s[at] as int + 256 * s[at + 1] as int
  }

  /** An unsigned word read as `int32`. */
  function Signed32(w: nat): (r: int)
    requires w < WORD
    ensures -0x8000_0000 <= r < 0x8000_0000
  {
    if w >= 0x8000_0000 then w - WORD else w
  }

  lemma SplitByte(x: nat, m: nat)
    requires m == 256 || m == 65536 || m == 16777216
    ensures x % (256 * m) == x % 256 + 256 * (x / 256 % m)
  {
    assert x / 256 % m == x / 256 - x / 256 / m * m;
    assert x / 256 / m == x / (256 * m);
  }

  lemma WordOfLe32(x: nat, s: seq<Byte>, at: nat)
    requires at + 4 <= |s| && s[at..at + 4] == Le32(x)
    ensures Word32(s, at) == x % WORD
  {
    var w := s[at..at + 4];
    assert w[0] == s[at] && w[1] == s[at + 1] && w[2] == s[at + 2] && w[3] == s[at + 3];
    SplitByte(x, 16777216);
    SplitByte(x / 256, 65536);
    SplitByte(x / 65536, 256);
    assert x / 256 / 256 == x / 65536 && x / 65536 / 256 == x / 16777216;
  }

  lemma ConcatAssoc<T>(a: seq<T>, b: seq<T>, c: seq<T>)
    ensures (a + b) + c == a + (b + c)
  {
  }

  lemma SubSlice(s: seq<Byte>, a: nat, b: nat, i: nat, j: nat)
    requires a <= b <= |s| && i <= j <= b - a
    ensures s[a..b][i..j] == s[a + i..a + j]
  {
    var x, y := s[a..b][i..j], s[a + i..a + j];
    assert forall k :: 0 <= k < |x| ==> x[k] == y[k];
  }
}
