/** The compressed data format: tokens, their bytes, and what they expand to. */
module Format {
  import opened Bytes

  /** The lengths and offsets a tag can carry. */
  type Length = x: int | 3 <= x <= 273 witness 3
  type Offset = x: int | 0 <= x <= 4095

  /** One item of the stream: a byte, or "repeat `len` bytes found `off` back". */
  datatype Token = Literal(b: Byte) | Tag(len: Length, off: Offset)

  /** A literal is one byte. A tag's first byte holds the high four bits of the offset
      and the length less 3, where 15 announces a third byte with the length less 18. */
  function TokenBytes(t: Token): (r: seq<Byte>)
    ensures 1 <= |r| <= 3
  {
    match t
    case Literal(b) => [b]
    case Tag(len, off) =>
      if len > 17 then [off / 256 * 16 + 15, off % 256, len - 18]
      else [off / 256 * 16 + (len - 3), off % 256]
  }

  /** Or-ing a nibble below a shifted one adds it. */
  lemma NibbleOr(hi: nat, lo: nat)
    requires lo < 16
    ensures BitOr(hi * 16, lo) == hi * 16 + lo
  {
    hide Pow2, BitOr;
    Pow2Table();
    BitOrDisjoint(hi, 4, lo);
  }

  /** Bit k is set exactly when the k-th token is a tag; the other bits are 0. */
  function ControlByte(toks: seq<Token>): (r: nat)
    ensures r < Pow2(|toks|)
  {
    if toks == [] then 0
    else 2 * ControlByte(toks[1..]) + (if toks[0].Tag? then 1 else 0)
  }

  function Flat(toks: seq<Token>): seq<Byte>
  {
    if toks == [] then [] else TokenBytes(toks[0]) + Flat(toks[1..])
  }

  lemma Pow2Byte(k: nat)
    requires k <= 8
    ensures Pow2(k) <= 256
    ensures k < 8 ==> Pow2(k) <= 128
    ensures k == 8 ==> Pow2(k) == 256
  {
    hide Pow2;
    Pow2Table();
  }

  /** A control byte followed by the tokens it describes, at most eight. */
  function Group(toks: seq<Token>): seq<Byte>
    requires 1 <= |toks| <= 8
  {
    Pow2Byte(|toks|);
    [ControlByte(toks)] + Flat(toks)
  }

  /** The payload of a token list. */
  function Serialize(toks: seq<Token>): seq<Byte>
  {
    if toks == [] then []
    else if |toks| <= 8 then Group(toks)
    else Group(toks[..8]) + Serialize(toks[8..])
  }

  lemma {:induction false} SerializeAppend(done: seq<Token>, cur: seq<Token>)
    requires |done| % 8 == 0
    ensures Serialize(done + cur) == Serialize(done) + Serialize(cur)
  {
    if done == [] {
      assert done + cur == cur;
      assert Serialize(done) + Serialize(cur) == Serialize(cur);
    } else if cur == [] {
      assert done + cur == done;
      assert Serialize(done) + Serialize(cur) == Serialize(done);
    } else {
      var all, head, rest := done + cur, done[..8], done[8..];
      assert all[..8] == head && all[8..] == rest + cur;
      SerializeAppend(rest, cur);
      ConcatAssoc(Group(head), Serialize(rest), Serialize(cur));
      assert Serialize(done) == Group(head) + Serialize(rest) by { SerializeFirst(done); }
      assert Serialize(all) == Group(head) + Serialize(rest + cur) by { SerializeFirst(all); }
    }
  }

  lemma SerializeFirst(toks: seq<Token>)
    requires |toks| >= 8
    ensures Serialize(toks) == Group(toks[..8]) + Serialize(toks[8..])
  {
    if |toks| == 8 {
      assert toks[..8] == toks && toks[8..] == [];
      assert Group(toks) + [] == Group(toks);
    }
  }

  lemma {:induction false} FlatAppend(a: seq<Token>, b: seq<Token>)
    ensures Flat(a + b) == Flat(a) + Flat(b)
  {
    if a == [] {
      assert a + b == b;
      assert Flat(a) + Flat(b) == Flat(b);
    } else {
      var all, rest := a + b, a[1..];
      assert all[0] == a[0] && all[1..] == rest + b;
      FlatAppend(rest, b);
      ConcatAssoc(TokenBytes(a[0]), Flat(rest), Flat(b));
      assert Flat(all) == TokenBytes(a[0]) + Flat(rest + b);
    }
  }

  /** Appending a token sets, or leaves clear, the next control bit and no other. */
  lemma {:induction false} ControlByteAppend(toks: seq<Token>, t: Token)
    ensures ControlByte(toks + [t]) == ControlByte(toks) + (if t.Tag? then Pow2(|toks|) else 0)
  {
    if toks != [] {
      ControlByteAppend(toks[1..], t);
      assert (toks + [t])[1..] == toks[1..] + [t];
    }
  }

  lemma {:induction false} ControlBits(toks: seq<Token>, k: nat)
    ensures Bit(ControlByte(toks), k) == if k < |toks| && toks[k].Tag? then 1 else 0
    decreases k
  {
    if toks == [] {
      if k > 0 { ControlBits(toks, k - 1); }
    } else if k > 0 {
      ControlBits(toks[1..], k - 1);
    }
  }

  // ---- what tokens expand to --------------------------------------------------

  /** `k` reduced modulo `off`. */
  function Phase(k: nat, off: nat): (r: nat)
    requires off > 0
    ensures r < off && r <= k
  {
    if k < off then k else Phase(k - off, off)
  }

  lemma {:induction false} PhaseIsMod(k: nat, off: nat)
    requires off > 0
    ensures Phase(k, off) == k % off
  {
    if k >= off {
      PhaseIsMod(k - off, off);
      var q, r := (k - off) / off, (k - off) % off;
      assert k == (q + 1) * off + r;
      QuotientUnique(k, off, q + 1, r);
    }
  }

  lemma QuotientUnique(x: nat, d: nat, q: nat, r: nat)
    requires r < d && x == q * d + r
    ensures x % d == r
  {
    var q' := x / d;
    assert x == q' * d + x % d;
    assert q' > q ==> q' * d >= (q + 1) * d;
    assert q' < q ==> q * d >= (q' + 1) * d;
  }

  /** `n` more bytes, repeating the last `off` of `out` periodically. */
  function Repeat(out: seq<Byte>, off: nat, n: nat): (r: seq<Byte>)
    requires 1 <= off <= |out|
    ensures |r| == |out| + n && r[..|out|] == out
  {
    out + seq(n, k requires 0 <= k < n => out[|out| - off + Phase(k, off)])
  }

  /** Every tag reaches back no further than what is already written. */
  predicate Grounded(at: nat, toks: seq<Token>)
    decreases |toks|
  {
    toks == [] ||
    ((toks[0].Tag? ==> 1 <= toks[0].off <= at) && Grounded(at + Span(toks[0]), toks[1..]))
  }

  /** How many output bytes a token stands for. */
  function Span(t: Token): nat
  {
    match t case Literal(_) => 1 case Tag(len, _) => len
  }

  /** The reference decoder: what a token list stands for after `out`. */
  function Expand(out: seq<Byte>, toks: seq<Token>): (r: seq<Byte>)
    requires Grounded(|out|, toks)
    ensures |out| <= |r| && r[..|out|] == out
    decreases |toks|
  {
    if toks == [] then out
    else match toks[0]
      case Literal(b) => Expand(out + [b], toks[1..])
      case Tag(len, off) => Expand(Repeat(out, off, len), toks[1..])
  }
}
