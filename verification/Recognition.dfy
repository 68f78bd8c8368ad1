/** When the dumper takes a compressed value for compressed, by its sizes. */
module Recognition {
  import opened Bytes
  import opened Wrappers
  import opened Format
  import opened Match
  import opened DecoderTheory
  import opened Compressor
  import opened RoundTrip
  import opened Success
  import opened Page
  import opened Toast
  import opened ToastTheory

  /** The pointer to what compression stores for `value`. */
  predicate PointsTo(p: Pointer, value: seq<Byte>, strategy: Option<Strategy>)
    requires Compressed(value, strategy).Some?
  {
    p.rawsize == |value| + 4 && p.extsize == 4 + |Serialize(Compressed(value, strategy).value)|
  }

  /** By length and strategy: a compressed value is recognized if the strategy's size limit leaves
      room for the raw-size word, and never if it is at most eight bytes long. In between they do
      not settle it. Unrecognized, its stored bytes come back as they are. */
  lemma Recognized(value: seq<Byte>, strategy: Option<Strategy>, p: Pointer)
    requires |value| <= INT_MAX && Compressed(value, strategy).Some? && PointsTo(p, value, strategy)
    ensures ResultMax(|value|, NeedRate(Chosen(strategy))) + 4 <= |value| ==> IsCompressed(p)
    ensures |value| <= 8 ==> !IsCompressed(p)
    ensures IsCompressed(p) <==> 4 + |Serialize(Compressed(value, strategy).value)| < |value|
    ensures var stored := Le32(|value|) + Serialize(Compressed(value, strategy).value);
            !IsCompressed(p) ==> Unpacked(stored, p) == Ok(stored)
  {
    hide ResultMax, NeedRate, Compressed, Serialize, Expand, Inflate, Le32;
    CompressedCovers(value, strategy);
    SuccessNeedsTag(value, strategy);
    PayloadAtLeastFour(Compressed(value, strategy).value);
  }

  /** A tag needs a byte before it, and both a control byte. */
  lemma PayloadAtLeastFour(toks: seq<Token>)
    requires Grounded(0, toks) && Tags(toks) > 0
    ensures |Serialize(toks)| >= 4
  {
    PayloadSize(toks);
    assert toks[0].Literal?;
    TagsCost(toks[1..]);
  }

  lemma {:induction false} TagsCost(toks: seq<Token>)
    ensures Cost(toks) >= 2 * Tags(toks)
  {
    if toks != [] { TagsCost(toks[1..]); }
  }

  /** Whatever the default strategy compresses is recognized. */
  lemma DefaultIsRecognized(value: seq<Byte>, p: Pointer)
    requires |value| <= INT_MAX && Compressed(value, None).Some? && PointsTo(p, value, None)
    ensures IsCompressed(p)
  {
    Recognized(value, None, p);
    assert NeedRate(STRATEGY_DEFAULT) == 25 && |value| >= 32;
    ResultMaxBounds(|value|, 25);
  }

  /** Runs of equal bytes are recognized from nine bytes on; below, compression succeeds but its
      result does not pass for compressed. */
  lemma RunRecognizedIff(b: Byte, n: nat, p: Pointer)
    requires 5 <= n <= MAX_MATCH + 1
    ensures Compressed(Run(b, n), Some(STRATEGY_ALWAYS)).Some?
    ensures PointsTo(p, Run(b, n), Some(STRATEGY_ALWAYS)) ==> (IsCompressed(p) <==> n >= 9)
  {
    RunStoredIff(b, n, Some(STRATEGY_ALWAYS));
    hide Compressed, Serialize, Run;
  }

  /** Five equal bytes compress to four under the strategy that accepts any saving: the call
      succeeds, but the value is not recognized as compressed. */
  lemma AlwaysIsNotRecognized(p: Pointer)
    ensures var value: seq<Byte> := [97, 97, 97, 97, 97];
            var r := Compressed(value, Some(STRATEGY_ALWAYS));
            && r.Some? && |Serialize(r.value)| + 4 >= |value|
            && (PointsTo(p, value, Some(STRATEGY_ALWAYS)) ==> !IsCompressed(p))
  {
    RunStoredIff(97, 5, Some(STRATEGY_ALWAYS));
    var value: seq<Byte> := [97, 97, 97, 97, 97];
    assert value == Run(97, 5);
    hide Compressed, Serialize, Run;
  }

  /** From nine bytes on length and strategy do not decide: shown for every length up to 122, where
      one value is recognized and another, both compressed, is not. */
  lemma ContentDecides(n: nat, p: Pointer, q: Pointer)
    requires 9 <= n <= 122
    ensures var even, odd := Run(97, n), Stairs(0, (8 * n - 40) / 9, n);
            && Compressed(even, Some(STRATEGY_ALWAYS)).Some? && Compressed(odd, Some(STRATEGY_ALWAYS)).Some?
            && (PointsTo(p, even, Some(STRATEGY_ALWAYS)) ==> IsCompressed(p))
            && (PointsTo(q, odd, Some(STRATEGY_ALWAYS)) ==> !IsCompressed(q))
  {
    hide Compressed, Serialize, Run, Stairs, StairsTokens;
    RunRecognizedIff(97, n, p);
    StairsStoredIff(0, (8 * n - 40) / 9, n, Some(STRATEGY_ALWAYS));
    StairsSizeIs(0, (8 * n - 40) / 9, n);
  }

  /** A value that begins with the marker, can be stored compressed, and is rejected: twelve
      letters c. */
  lemma MarkedIsRejected(stored: seq<Byte>, p: Pointer)
    requires stored == Le32(12) + Serialize([Literal(99), Tag(11, 1)])
    requires p.rawsize == 16 && p.extsize == 8
    ensures StoredAs(Run(99, 12), Some(STRATEGY_ALWAYS), stored, p)
    ensures Unpacked(stored, p) == Err(Corrupted)
  {
    RunStoredIff(99, 12, Some(STRATEGY_ALWAYS));
    hide Compressed, Serialize, Unpacked, Le32;
    assert StoredAs(Run(99, 12), Some(STRATEGY_ALWAYS), stored, p);
    UnpackedIs(Run(99, 12), Some(STRATEGY_ALWAYS), stored, p);
  }
}
