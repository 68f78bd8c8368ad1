/** The history buckets, bit by bit. */
module Hash {
  import opened Bytes
  import opened Match

  // ---- bits ----------------------------------------------------------------------------------------

  lemma {:induction false} NoBits(k: nat)
    ensures Bit(0, k) == 0
  {
    if k > 0 { NoBits(k - 1); }
  }

  /** Exclusive or, bit by bit. */
  lemma {:induction false} BitXorBit(a: nat, b: nat, k: nat)
    ensures Bit(BitXor(a, b), k) == if Bit(a, k) != Bit(b, k) then 1 else 0
    decreases k
  {
    NoBits(k);
    IsBit(a, k);
    IsBit(b, k);
    if a != 0 && b != 0 {
      BitXorUnfold(a, b);
      if k > 0 {
        hide BitXor;
        var x := BitXor(a / 2, b / 2);
        var r := if a % 2 != b % 2 then 1 else 0;
        assert (2 * x + r) / 2 == x;
        BitXorBit(a / 2, b / 2, k - 1);
      }
    }
  }

  lemma {:induction false} IsBit(x: nat, k: nat)
    ensures Bit(x, k) == 0 || Bit(x, k) == 1
  {
    if k > 0 { IsBit(x / 2, k - 1); }
  }

  /** The bits of a number put above `n` others. */
  lemma {:induction false} BitSplit(lo: nat, n: nat, hi: nat, k: nat)
    requires lo < Pow2(n)
    ensures Bit(lo + hi * Pow2(n), k) == if k < n then Bit(lo, k) else Bit(hi, k - n)
    decreases n
  {
    if n == 0 {
      assert hi * Pow2(0) == hi;
    } else {
      ShiftStep(hi, n);
      var half := hi * Pow2(n - 1);
      assert (lo + 2 * half) / 2 == lo / 2 + half && (lo + 2 * half) % 2 == lo % 2;
      if k > 0 { BitSplit(lo / 2, n - 1, hi, k - 1); }
    }
  }

  lemma DivMod(x: nat, m: nat)
    requires m > 0
    ensures x == x % m + x / m * m && x % m < m
  {
  }

  /** The lower bits of a number are those of its remainder. */
  lemma LowBits(x: nat, n: nat, k: nat)
    requires k < n
    ensures Bit(x % Pow2(n), k) == Bit(x, k)
  {
    hide Pow2, Bit;
    var m := Pow2(n);
    DivMod(x, m);
    BitSplit(x % m, n, x / m, k);
  }

  // ---- a signed byte in thirteen bits ------------------------------------------------------------------

  /** Bit j of a signed byte: from the seventh on the sign. */
  function SignedBit(b: Byte, j: nat): nat
  {
    Bit(b, if j < 7 then j else 7)
  }

  lemma WideBits(b: Byte, j: nat)
    requires j < 13
    ensures Bit(SignExtend(b) % 8192, j) == SignedBit(b, j)
  {
    hide Bit;
    if b < 128 {
      assert SignExtend(b) % 8192 == b;
      PlainBits(b, 7, j);
      PlainBits(b, 7, 7);
    } else {
      assert SignExtend(b) % 8192 == b as int + 31 * 256;
      NegativeBits(b, j);
    }
  }

  /** Above its highest bit a number has none. */
  lemma PlainBits(x: nat, n: nat, j: nat)
    requires x < Pow2(n) && n == 7
    ensures j >= n ==> Bit(x, j) == 0
  {
    hide Bit, Pow2;
    BitSplit(x, n, 0, j);
    assert x + 0 * Pow2(n) == x;
    if j >= n { NoBits(j - n); }
  }

  lemma NegativeBits(b: nat, j: nat)
    requires 128 <= b < 256 && j < 13
    ensures Bit(b + 31 * 256, j) == Bit(b, if j < 7 then j else 7)
  {
    hide Pow2;
    Pow2Table();
    BitSplit(b, 8, 31, j);
    BitSplit(b - 128, 7, 1, 7);
    assert Bit(1, 0) == 1;
    hide Bit;
    if j >= 8 { Ones(j - 8); }
  }

  lemma Ones(j: nat)
    requires j < 5
    ensures Bit(31, j) == 1
  {
    assert Bit(31, 0) == 1 && Bit(31, 1) == 1 && Bit(31, 2) == 1 && Bit(31, 3) == 1 && Bit(31, 4) == 1;
  }

  /** Shifted left by `s` and cut off at thirteen bits. */
  lemma ShiftedBits(b: Byte, s: nat, unit: nat, k: nat)
    requires k < 13 && unit == Pow2(s)
    requires (s == 0 && unit == 1) || (s == 3 && unit == 8) || (s == 6 && unit == 64) || (s == 9 && unit == 512)
    ensures Bit((SignExtend(b) * unit) % 8192, k) == if k < s then 0 else SignedBit(b, k - s)
  {
    var w := SignExtend(b) % 8192;
    Pow2Table();
    assert Pow2(11) == 2048 && Pow2(13) == 8192 by {
      Pow2Double(10);
      Pow2Double(11);
      Pow2Double(12);
    }
    hide Pow2;
    var rest := 13 - s;
    var low := w % Pow2(rest);
    CutOff(b, unit, Pow2(rest));
    assert low * unit == 0 + low * Pow2(s);
    BitSplit(0, s, low, k);
    NoBits(k);
    if k >= s {
      LowBits(w, rest, k - s);
      WideBits(b, k - s);
    }
  }

  lemma CutOff(b: Byte, unit: nat, rest: nat)
    requires (unit == 1 && rest == 8192) || (unit == 8 && rest == 1024) || (unit == 64 && rest == 128)
          || (unit == 512 && rest == 16)
    ensures (SignExtend(b) * unit) % 8192 == (SignExtend(b) % 8192 % rest) * unit
  {
    var x := SignExtend(b);
    hide SignExtend;
    if unit == 8 { CutOff8(x); } else if unit == 64 { CutOff64(x); } else if unit == 512 { CutOff512(x); }
  }

  lemma Remainder(q: int, r: nat)
    requires r < 8192
    ensures (8192 * q + r) % 8192 == r
  {
  }

  lemma CutOff8(x: int)
    ensures (x * 8) % 8192 == x % 8192 % 1024 * 8
  {
    var a, w := x / 8192, x % 8192;
    var c, r := w / 1024, w % 1024;
    assert x * 8 == 8192 * (8 * a + c) + 8 * r;
    Remainder(8 * a + c, 8 * r);
  }

  lemma CutOff64(x: int)
    ensures (x * 64) % 8192 == x % 8192 % 128 * 64
  {
    var a, w := x / 8192, x % 8192;
    var c, r := w / 128, w % 128;
    assert x * 64 == 8192 * (64 * a + c) + 64 * r;
    Remainder(64 * a + c, 64 * r);
  }

  lemma CutOff512(x: int)
    ensures (x * 512) % 8192 == x % 8192 % 16 * 512
  {
    var a, w := x / 8192, x % 8192;
    var c, r := w / 16, w % 16;
    assert x * 512 == 8192 * (512 * a + c) + 512 * r;
    Remainder(512 * a + c, 512 * r);
  }

  // ---- the buckets -----------------------------------------------------------------------------------

  /** Bit k of the bucket of four bytes: each is signed, shifted by 9, 6, 3 and 0, and the bits are
      added modulo 2. */
  lemma HistIdxBits(src: seq<Byte>, p: nat, k: nat)
    requires p + 4 <= |src| && k < 13
    ensures HistIdx(src, p) < 8192
    ensures Bit(HistIdx(src, p), k)
         == (SignedBit(src[p + 3], k)
             + (if k >= 3 then SignedBit(src[p + 2], k - 3) else 0)
             + (if k >= 6 then SignedBit(src[p + 1], k - 6) else 0)
             + (if k >= 9 then SignedBit(src[p], k - 9) else 0)) % 2
  {
    hide Pow2, HistIdx, BitXor, SignExtend, SignedBit;
    var a, b, c, d := Term(src[p], 512), Term(src[p + 1], 64), Term(src[p + 2], 8), Term(src[p + 3], 1);
    FourTerms(src, p);
    XorBits(a, b, c, d, k);
    TermBit(src[p], 9, 512, k);
    TermBit(src[p + 1], 6, 64, k);
    TermBit(src[p + 2], 3, 8, k);
    TermBit(src[p + 3], 0, 1, k);
    hide Term;
  }

  /** A signed byte times `unit`, cut off at thirteen bits. */
  function Term(b: Byte, unit: nat): nat
  {
    (SignExtend(b) * unit) % 8192
  }

  lemma TermBit(b: Byte, s: nat, unit: nat, k: nat)
    requires k < 13
    requires (s == 0 && unit == 1) || (s == 3 && unit == 8) || (s == 6 && unit == 64) || (s == 9 && unit == 512)
    ensures Bit(Term(b, unit), k) == if k < s then 0 else SignedBit(b, k - s)
  {
    hide Pow2;
    Pow2Table();
    ShiftedBits(b, s, unit, k);
  }

  lemma FourTerms(src: seq<Byte>, p: nat)
    requires p + 4 <= |src|
    ensures HistIdx(src, p)
         == BitXor(BitXor(BitXor(Term(src[p], 512), Term(src[p + 1], 64)), Term(src[p + 2], 8)), Term(src[p + 3], 1))
            % 8192
  {
    hide BitXor;
  }

  lemma XorBits(a: nat, b: nat, c: nat, d: nat, k: nat)
    requires k < 13
    ensures Bit(BitXor(BitXor(BitXor(a, b), c), d) % 8192, k)
         == (Bit(d, k) + Bit(c, k) + Bit(b, k) + Bit(a, k)) % 2
  {
    hide BitXor, Pow2, Bit;
    assert Pow2(13) == 8192 by {
      Pow2Table();
      Pow2Double(10);
      Pow2Double(11);
      Pow2Double(12);
    }
    LowBits(BitXor(BitXor(BitXor(a, b), c), d), 13, k);
    BitXorBit(BitXor(BitXor(a, b), c), d, k);
    BitXorBit(BitXor(a, b), c, k);
    BitXorBit(a, b, k);
    IsBit(a, k);
    IsBit(b, k);
    IsBit(c, k);
    IsBit(d, k);
  }

  /** With fewer than four bytes left, the bucket is the signed byte itself. */
  lemma HistIdxTail(src: seq<Byte>, p: nat)
    requires p < |src| < p + 4
    ensures HistIdx(src, p) == if src[p] < 128 then src[p] as int else src[p] as int + 7936
  {
  }

  // ---- small bytes ------------------------------------------------------------------------------------

  /** Four bytes, read as the digits of an octal number. */
  function Octal(src: seq<Byte>, p: nat): nat
    requires p + 4 <= |src|
  {
    512 * (src[p] as int) + 64 * (src[p + 1] as int) + 8 * (src[p + 2] as int) + src[p + 3] as int
  }

  /** A byte that shares no bit with the one shifted above it: below 8, or 8 under an even one. */
  predicate Digit(d: nat, above: nat)
  {
    d < 8 || (d == 8 && above % 2 == 0)
  }

  /** For four such bytes the bucket is that number. */
  lemma HistIdxSmall(src: seq<Byte>, p: nat)
    requires p + 4 <= |src| && src[p] <= 8
    requires Digit(src[p + 1], src[p]) && Digit(src[p + 2], src[p + 1]) && Digit(src[p + 3], src[p + 2])
    ensures HistIdx(src, p) == Octal(src, p)
  {
    hide BitXor;
    var a: nat, b: nat, c: nat, d: nat := src[p], src[p + 1], src[p + 2], src[p + 3];
    Below(a * 512);
    Below(b * 64);
    Below(c * 8);
    Below(d);
    var x := BitXor(BitXor(BitXor(a * 512, b * 64), c * 8), d);
    assert HistIdx(src, p) == x % LISTS;
    XorOctal(a, b, c, d);
    Below(x);
  }

  lemma Below(x: nat)
    requires x < LISTS
    ensures x % LISTS == x
  {
  }

  lemma XorOctal(a: nat, b: nat, c: nat, d: nat)
    requires a <= 8 && Digit(b, a) && Digit(c, b) && Digit(d, c)
    ensures BitXor(BitXor(BitXor(a * 512, b * 64), c * 8), d) == 512 * a + 64 * b + 8 * c + d
  {
    hide BitXor, Digit;
    XorDigit(a, 6, 64, b);
    assert Digit(c, a * 8 + b) by { DigitAbove(c, a, b); }
    XorDigit(a * 8 + b, 3, 8, c);
    assert Digit(d, a * 64 + b * 8 + c) by { DigitAbove(d, a * 8 + b, c); }
    XorDigit(a * 64 + b * 8 + c, 0, 1, d);
  }

  lemma DigitAbove(d: nat, x: nat, above: nat)
    requires Digit(d, above)
    ensures Digit(d, x * 8 + above)
  {
  }

  lemma XorDigit(x: nat, k: nat, unit: nat, d: nat)
    requires Digit(d, x) && ((k == 6 && unit == 64) || (k == 3 && unit == 8) || (k == 0 && unit == 1))
    ensures BitXor(x * 8 * unit, d * unit) == (x * 8 + d) * unit
  {
    hide BitXor, Pow2;
    Pow2Table();
    var half := x / 2;
    if d < 8 {
      BitXorDisjoint(x, k + 3, d * unit);
    } else {
      assert x == 2 * half;
      BitXorDisjoint(half, k + 4, 8 * unit);
    }
  }

  /** In a text of bytes below 8, the nearest entry is the nearest equal group of four. */
  lemma OlderSmall(src: seq<Byte>, i: nat, p: nat, q: nat)
    requires q < p <= i && i + 4 <= |src| && forall k :: 0 <= k < i + 4 ==> src[k] < 8
    requires Octal(src, q) == Octal(src, i) && forall k :: q < k < p ==> Octal(src, k) != Octal(src, i)
    ensures Older(src, p, 0, HistIdx(src, i)) == q
  {
    hide HistIdx, Octal, Older;
    forall k | 0 <= k <= i ensures HistIdx(src, k) == Octal(src, k) { HistIdxSmall(src, k); }
    OlderIs(src, p, 0, HistIdx(src, i), q);
  }
}
