/** Compression and decompression undo each other. */
module RoundTrip {
  import opened Bytes
  import opened Wrappers
  import opened Format
  import opened Varlena
  import opened Match
  import opened History
  import opened Writer
  import opened Decoder
  import opened DecoderTheory
  import opened Compressor
  import opened Coverage

  // ---- the tokens expand to the source ---------------------------------------------------

  /** The compressor's run keeps covering the source. */
  lemma {:induction false} RunCovers(r: Option<seq<Token>>, src: seq<Byte>, s: Strategy, dp: nat,
                                     toks: seq<Token>, found: bool)
    requires Covers(src, dp, toks) && RunEnds(r, src, s, dp, toks, found)
    ensures r.Some? ==> Covers(src, |src|, r.value)
    decreases |src| - dp
  {
    hide TokensFrom, Serialize, ResultMax, Match.FindMatch, Covers;
    if dp == |src| {
      RunDone(r, src, s, toks, found);
    } else if r.Some? {
      RunStep(r, src, s, dp, toks, found);
      CoversNext(src, dp, toks, GoodMatch(s), GoodDrop(s));
      match Match.FindMatch(src, dp, GoodMatch(s), GoodDrop(s)) {
        case Some(t) => RunCovers(r, src, s, dp + t.len, toks + [t], true);
        case None => RunCovers(r, src, s, dp + 1, toks + [Literal(src[dp])], found);
      }
    }
  }

  /** What a successful compression stores expands to the source, and is small enough. */
  lemma CompressedCovers(src: seq<Byte>, strategy: Option<Strategy>)
    requires |src| <= INT_MAX && Compressed(src, strategy).Some?
    ensures var toks := Compressed(src, strategy).value;
            && Grounded(0, toks) && Expand([], toks) == src
            && |Serialize(toks)| < ResultMax(|src|, NeedRate(Chosen(strategy))) <= |src|
  {
    RunCovers(TokensFrom(src, Chosen(strategy), 0, [], false), src, Chosen(strategy), 0, [], false);
    ResultMaxBounds(|src|, NeedRate(Chosen(strategy)));
    assert src[..|src|] == src;
  }

  // ---- the round trip -----------------------------------------------------------------------

  /** `mem` holds a length word, then the raw size and the payload compression produced. */
  ghost predicate Holds(mem: seq<Byte>, src: seq<Byte>, toks: seq<Token>)
  {
    |mem| >= HEADER && mem[4..8] == Le32(|src|) && mem[HEADER..] == Serialize(toks)
  }

  /** Decompressing what compression produced gives back the source, consumes exactly the
      payload, reads nothing behind it, and neither gives up nor aborts: for the true
      length word, and for any that overstates the length. */
  lemma StoredDecodes(src: seq<Byte>, strategy: Option<Strategy>, mem: seq<Byte>, dest: seq<Byte>)
    requires |src| <= INT_MAX && |src| <= |dest| && Compressed(src, strategy).Some?
    requires Holds(mem, src, Compressed(src, strategy).value) && VarSize4(Word32(mem, 0)) >= |mem|
    ensures Signed32(Word32(mem, 4)) == |src|
    ensures Decompressed(mem, dest) == Returned(src + dest[|src|..], |src|, |mem|)
  {
    hide Compressed, Serialize, Expand, Grounded, Decompressed, Le32, Word32, VarSize4, ResultMax, NeedRate;
    CompressedCovers(src, strategy);
    WordOfLe32(|src|, mem, 4);
    DecompressSerialized(mem, dest, Compressed(src, strategy).value);
  }

  lemma ImageHolds(src: seq<Byte>, toks: seq<Token>)
    requires |Serialize(toks)| + HEADER < 0x4000_0000
    ensures var image := Image(src, toks); Holds(image, src, toks) && VarSize4(Word32(image, 0)) == |image|
  {
    hide Serialize, LengthWord, Le32, Word32;
    var image, size := Image(src, toks), |Serialize(toks)| + HEADER;
    assert image[0..4] == Le32(LengthWord(size)) && image[4..8] == Le32(|src|);
    assert image[HEADER..] == Serialize(toks);
    LengthWordIs(size);
    WordOfLe32(LengthWord(size), image, 0);
  }

  /** The codec round trip: in `dest`, the source and nothing else changed. */
  lemma CodecRoundTrip(src: seq<Byte>, strategy: Option<Strategy>, dest: seq<Byte>)
    requires |src| <= INT_MAX && |src| <= |dest| && Compressed(src, strategy).Some?
    requires |Serialize(Compressed(src, strategy).value)| + HEADER < 0x4000_0000
    ensures var image := Image(src, Compressed(src, strategy).value);
            Signed32(Word32(image, 4)) == |src|
            && Decompressed(image, dest) == Returned(src + dest[|src|..], |src|, |image|)
  {
    hide Compressed, Serialize, Image, Decompressed, Holds, VarSize4, Word32;
    var toks := Compressed(src, strategy).value;
    ImageHolds(src, toks);
    StoredDecodes(src, strategy, Image(src, toks), dest);
  }

  /** Both methods in a row. */
  method CompressAndBack(hist: Table, source: seq<Byte>, strategy: Option<Strategy>)
    returns (stored: bool, back: seq<Byte>)
    requires |source| + HEADER < 0x4000_0000 && hist.Shape()
    modifies hist, hist.start, hist.entries
    ensures stored <==> Compressed(source, strategy).Some?
    ensures stored ==> back == source
  {
    var dest := new Byte[|source| + 4 + HEADER](_ => 0);
    stored := Compress(hist, source, dest, strategy);
    back := [];
    if stored {
      ghost var toks := Compressed(source, strategy).value;
      ghost var image := Image(source, toks);
      CompressedCovers(source, strategy);
      var text := new Byte[|source|](_ => 0);
      CodecRoundTrip(source, strategy, text[..]);
      hide Compressed, Serialize, Expand, Decode, Le32, Word32;
      DecodeLocal(image, dest[|image|..], VarSize4(Word32(image, 0)), |source|, 8, 0, 0, text[..], 0);
      assert dest[..] == image + dest[|image|..];
      SameWord(image, dest[|image|..], 0);
      SameWord(image, dest[|image|..], 4);
      var status := Decompress(dest[..], text);
      assert text[..][|source|..] == [];
      assert source + [] == source;
      back := text[..];
    }
  }

  lemma SameWord(a: seq<Byte>, b: seq<Byte>, at: nat)
    requires at + 4 <= |a|
    ensures Word32(a + b, at) == Word32(a, at)
  {
  }

  /** At every head of the compressor's loop, where the writer is valid and its tokens cover what
      has been read, the bytes emitted so far, the pending control byte patched in, decode to
      exactly the source read so far. */
  lemma LoopHeadDecodes(w: TokenWriter, src: seq<Byte>, dp: nat, mem: seq<Byte>, dest: seq<Byte>)
    requires w.Valid() && Covers(src, dp, w.Tokens()) && dp <= |dest| && dp <= INT_MAX
    requires |mem| >= HEADER && mem[4..8] == Le32(dp) && mem[HEADER..] == w.Patched()
    requires VarSize4(Word32(mem, 0)) >= |mem|
    ensures Signed32(Word32(mem, 4)) == dp
    ensures Decompressed(mem, dest) == Returned(src[..dp] + dest[dp..], dp, |mem|)
  {
    hide Decompressed, Serialize, Staged, Expand, Grounded, Le32, Word32, VarSize4;
    w.PatchedIs();
    WordOfLe32(dp, mem, 4);
    DecompressSerialized(mem, dest, w.Tokens());
  }

  // ---- the emitted bytes ---------------------------------------------------------------------

  /** In each group's control byte, bit k is set exactly when the group has a k-th token and
      it is a tag. */
  lemma SerializedControl(toks: seq<Token>, g: nat, k: nat)
    requires 8 * g < |toks| && k < 8
    ensures var at := |Serialize(toks[..8 * g])|;
            && at < |Serialize(toks)|
            && Bit(Serialize(toks)[at], k) == if 8 * g + k < |toks| && toks[8 * g + k].Tag? then 1 else 0
  {
    var head, tail := toks[..8 * g], toks[8 * g..];
    assert head + tail == toks;
    SerializeAppend(head, tail);
    var n := if |tail| <= 8 then |tail| else 8;
    SerializeSplit(tail, n);
    Pow2Byte(n);
    hide Serialize, ControlByte, Flat;
    assert Serialize(toks)[|Serialize(head)|] == ControlByte(tail[..n]);
    ControlBits(tail[..n], k);
  }

  /** Literals, and tags of two and of three bytes, cost what they should. */
  function Cost(toks: seq<Token>): nat
  {
    if toks == [] then 0
    else Cost(toks[1..]) + (match toks[0] case Literal(_) => 1 case Tag(len, _) => if len <= 17 then 2 else 3)
  }

  function Covered(toks: seq<Token>): nat
  {
    if toks == [] then 0 else Covered(toks[1..]) + Span(toks[0])
  }

  lemma {:induction false} FlatSize(toks: seq<Token>)
    ensures |Flat(toks)| == Cost(toks)
  {
    if toks != [] { FlatSize(toks[1..]); }
  }

  lemma {:induction false} CostAppend(a: seq<Token>, b: seq<Token>)
    ensures Cost(a + b) == Cost(a) + Cost(b)
  {
    if a == [] {
      assert a + b == b;
    } else {
      CostAppend(a[1..], b);
      assert (a + b)[1..] == a[1..] + b;
    }
  }

  /** Payload size: the tokens' own bytes and one control byte for every eight of them. */
  lemma {:induction false} PayloadSize(toks: seq<Token>)
    ensures |Serialize(toks)| == Cost(toks) + (|toks| + 7) / 8
    decreases |toks|
  {
    if toks != [] {
      var n := if |toks| <= 8 then |toks| else 8;
      var head, tail := toks[..n], toks[n..];
      SerializeSplit(toks, n);
      FlatSize(head);
      PayloadSize(tail);
      assert head + tail == toks;
      CostAppend(head, tail);
      assert |Group(head)| == 1 + Cost(head);
    }
  }

  /** Consumed input: one byte a literal, its length a tag. */
  lemma {:induction false} ExpandedSize(out: seq<Byte>, toks: seq<Token>)
    requires Grounded(|out|, toks)
    ensures |Expand(out, toks)| == |out| + Covered(toks)
    decreases |toks|
  {
    hide Repeat;
    if toks != [] {
      match toks[0] {
        case Literal(b) => ExpandedSize(out + [b], toks[1..]);
        case Tag(len, off) => ExpandedSize(Repeat(out, off, len), toks[1..]);
      }
    }
  }

  /** How many of the tokens are tags. */
  function Tags(toks: seq<Token>): nat
  {
    if toks == [] then 0 else Tags(toks[1..]) + (if toks[0].Tag? then 1 else 0)
  }

  lemma {:induction false} LiteralsOnly(toks: seq<Token>)
    requires Tags(toks) == 0
    ensures Cost(toks) == Covered(toks) == |toks|
  {
    if toks != [] { LiteralsOnly(toks[1..]); }
  }

  /** Compression never succeeds without a single back reference. */
  lemma SuccessNeedsTag(src: seq<Byte>, strategy: Option<Strategy>)
    requires |src| <= INT_MAX && Compressed(src, strategy).Some?
    ensures Tags(Compressed(src, strategy).value) > 0
  {
    var toks := Compressed(src, strategy).value;
    CompressedCovers(src, strategy);
    PayloadSize(toks);
    ExpandedSize([], toks);
    if Tags(toks) == 0 { LiteralsOnly(toks); }
  }
}
