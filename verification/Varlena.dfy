/** Variable-length values: PostgreSQL's header macros (little-endian), and the dumper's own reading of them. */
module Varlena {
  import opened Bytes

  // ---- the macros ------------------------------------------------------------------------

  predicate Is4B(b: Byte) { b % 2 == 0 }
  predicate Is1B(b: Byte) { b % 2 == 1 }
  predicate Is1BE(b: Byte) { b == 1 }

  /** The header at `at` lies inside `s`. */
  predicate HasHeader(s: seq<Byte>, at: nat)
  {
    at < |s| && (Is4B(s[at]) ==> at + 4 <= |s|) && (Is1BE(s[at]) ==> at + 2 <= |s|)
  }

  /** `VARSIZE_4B` of a header word. */
  function VarSize4(w: nat): nat
  {
    w / 4 % 0x4000_0000
  }

  /** `SET_VARSIZE_COMPRESSED`: the header word it stores, truncated to 32 bits. */
  function LengthWord(size: nat): nat
  {
    BitOr(size * 4 % WORD, 2)
  }

  lemma LengthWordIs(size: nat)
    requires size < 0x4000_0000
    ensures LengthWord(size) == size * 4 + 2 && VarSize4(LengthWord(size)) == size
  {
    hide Pow2, BitOr;
    Pow2Table();
    BitOrDisjoint(size, 2, 2);
  }

  /** `VARSIZE_ANY`. */
  function VarSizeAny(s: seq<Byte>, at: nat): nat
    requires HasHeader(s, at)
  {
    if Is1BE(s[at]) then s[at + 1]
    else if Is1B(s[at]) then s[at] / 2
    else VarSize4(Word32(s, at))
  }

  /** `SET_VARSIZE_4B`, `SET_VARSIZE_1B` and `SET_VARSIZE_1B_E`: the header bytes they store. */
  function Header4B(len: nat): seq<Byte> { Le32(len * 4 % WORD) }

  function Header1B(len: nat): seq<Byte> { [(len % 256 * 2 % 256) + 1] }

  function Header1BE(len: Byte): seq<Byte> { [1, len] }

  // ---- the dumper ------------------------------------------------------------------------

  datatype LenType = NORMAL | COMPRESSED | TOASTED | ONE_BYTE

  function LenTypeOf(b: Byte): LenType
  {
    if b % 2 == 1 then (if b == 1 then TOASTED else ONE_BYTE)
    else if b / 2 % 2 == 0 then NORMAL else COMPRESSED
  }

  /** The bytes `Varlena::size` needs lie inside `s`. */
  predicate SizeReadable(s: seq<Byte>, at: nat)
  {
    at < |s| && (Is4B(s[at]) ==> at + 4 <= |s|)
  }

  /** `Varlena::size`: a TOAST pointer is taken to be 18 bytes long. */
  function Size(s: seq<Byte>, at: nat): (r: nat)
    requires SizeReadable(s, at)
    ensures r < 0x4000_0000
  {
    match LenTypeOf(s[at])
    case NORMAL => Word32(s, at) / 4
    case COMPRESSED => Word32(s, at) / 4
    case TOASTED => 18
    case ONE_BYTE => s[at] / 2
  }

  /** `Varlena::data_offset`. */
  function DataOffset(b: Byte): nat
  {
    match LenTypeOf(b)
    case NORMAL => 4
    case ONE_BYTE => 1
    case _ => 0
  }

  /** The dumper and PostgreSQL agree on a value's size, except for TOAST pointers whose
      length byte is not 18. */
  lemma SizesAgree(s: seq<Byte>, at: nat)
    requires HasHeader(s, at)
    ensures Size(s, at) == VarSizeAny(s, at) <==> (Is1BE(s[at]) ==> s[at + 1] == 18)
  {
  }

  /** The header of a plain value of `n` data bytes. */
  function PlainHeader(n: nat, short: bool): (r: seq<Byte>)
    ensures |r| == if short then 1 else 4
  {
    if short then Header1B(n + 1) else Header4B(n + 4)
  }

  lemma ShortReadBack(s: seq<Byte>, at: nat, n: nat)
    requires 1 <= n <= 127 && at < |s| && s[at..at + 1] == Header1B(n)
    ensures s[at] == 2 * n + 1
  {
    assert s[at] == s[at..at + 1][0];
    assert n % 256 == n && n * 2 % 256 == n * 2;
  }

  lemma FourDivides(n: nat)
    ensures 4 * n % 256 % 4 == 0
  {
    assert 4 * n % 256 == 4 * n - 4 * n / 256 * 256;
  }

  lemma FirstOfLe32(x: nat)
    ensures Le32(x)[0] == x % 256
  {
  }

  lemma LongReadBack(s: seq<Byte>, at: nat, n: nat)
    requires n < 0x4000_0000 && at + 4 <= |s| && s[at..at + 4] == Header4B(n)
    ensures Word32(s, at) == 4 * n && s[at] % 4 == 0
  {
    hide Le32, Word32;
    var word := n * 4;
    assert word % WORD == word;
    assert s[at..at + 4][0] == s[at];
    WordOfLe32(word, s, at);
    FirstOfLe32(word);
    FourDivides(n);
  }

  /** The dumper reads back from a header the size and the place of the data behind it. */
  lemma HeaderReadBack(s: seq<Byte>, at: nat, n: nat, short: bool)
    requires n + 4 < 0x4000_0000 && (short ==> n + 1 <= 127)
    requires at + (if short then 1 else 4) <= |s| && s[at..at + (if short then 1 else 4)] == PlainHeader(n, short)
    ensures SizeReadable(s, at) && !Is1BE(s[at])
    ensures DataOffset(s[at]) == (if short then 1 else 4) && Size(s, at) == DataOffset(s[at]) + n
  {
    hide Header1B, Header4B, Word32;
    if short {
      ShortReadBack(s, at, n + 1);
    } else {
      LongReadBack(s, at, n + 4);
    }
  }
}
