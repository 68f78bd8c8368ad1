/** `pglz_compress`. */
module Compressor {
  import opened Bytes
  import opened Wrappers
  import opened Format
  import opened Varlena
  import opened Match
  import opened History
  import opened Writer
  import opened Coverage

  const INT_MAX := 0x7fff_ffff

  datatype Strategy = Strategy(minInputSize: int, maxInputSize: int, minCompRate: int,
                               firstSuccessBy: int, matchSizeGood: int, matchSizeDrop: int)

  const STRATEGY_DEFAULT := Strategy(32, INT_MAX, 25, 1024, 128, 10)
  const STRATEGY_ALWAYS := Strategy(0, INT_MAX, 0, INT_MAX, 128, 6)

  /** The default strategy stands in for a null one. */
  function Chosen(strategy: Option<Strategy>): Strategy
  {
    match strategy case None => STRATEGY_DEFAULT case Some(s) => s
  }

  function Clamp(x: int, lo: int, hi: int): int
  {
    if x > hi then hi else if x < lo then lo else x
  }

  function GoodMatch(s: Strategy): int { Clamp(s.matchSizeGood, 17, MAX_MATCH) }

  function GoodDrop(s: Strategy): int { Clamp(s.matchSizeDrop, 0, 100) }

  function NeedRate(s: Strategy): int { Clamp(s.minCompRate, 0, 99) }

  /** The size the payload must stay below. */
  function ResultMax(slen: nat, needRate: int): int
  {
    if slen > INT_MAX / 100 then (slen / 100) * (100 - needRate) else (slen * (100 - needRate)) / 100
  }

  /** The tokens of the whole source when `dp` bytes are covered by `toks`, or None
      when the output grows too large or nothing compressible turns up in time. */
  function TokensFrom(src: seq<Byte>, s: Strategy, dp: nat, toks: seq<Token>, found: bool): Option<seq<Token>>
    requires dp <= |src|
    decreases |src| - dp
  {
    if dp == |src| then Some(toks)
    else if |Serialize(toks)| >= ResultMax(|src|, NeedRate(s)) then None
    else if !found && |Serialize(toks)| >= s.firstSuccessBy then None
    else match Match.FindMatch(src, dp, GoodMatch(s), GoodDrop(s))
      case Some(t) => TokensFrom(src, s, dp + t.len, toks + [t], true)
      case None => TokensFrom(src, s, dp + 1, toks + [Literal(src[dp])], found)
  }

  /** The tokens compression stores, or None when it declines. */
  function Compressed(src: seq<Byte>, strategy: Option<Strategy>): Option<seq<Token>>
  {
    var s := Chosen(strategy);
    if s.matchSizeGood <= 0 || |src| < s.minInputSize || |src| > s.maxInputSize then None
    else match TokensFrom(src, s, 0, [], false)
      case None => None
      case Some(toks) => if |Serialize(toks)| >= ResultMax(|src|, NeedRate(s)) then None else Some(toks)
  }

  /** The stored datum: length word, raw size, payload. */
  function Image(src: seq<Byte>, toks: seq<Token>): seq<Byte>
  {
    Le32(LengthWord(|Serialize(toks)| + HEADER)) + Le32(|src|) + Serialize(toks)
  }

  ghost predicate RunEnds(r: Option<seq<Token>>, src: seq<Byte>, s: Strategy, dp: nat, toks: seq<Token>, found: bool)
  {
    dp <= |src| && r == TokensFrom(src, s, dp, toks, found)
  }

  lemma RunStep(r: Option<seq<Token>>, src: seq<Byte>, s: Strategy, dp: nat, toks: seq<Token>, found: bool)
    requires RunEnds(r, src, s, dp, toks, found) && dp < |src|
    ensures var size := |Serialize(toks)|;
      if size >= ResultMax(|src|, NeedRate(s)) || (!found && size >= s.firstSuccessBy) then r == None
      else match Match.FindMatch(src, dp, GoodMatch(s), GoodDrop(s))
        case Some(t) => RunEnds(r, src, s, dp + t.len, toks + [t], true)
        case None => RunEnds(r, src, s, dp + 1, toks + [Literal(src[dp])], found)
  {
    hide Serialize, Match.FindMatch, ResultMax;
  }

  lemma MulMono(a: int, b: int, k: int)
    requires a <= b && k >= 0
    ensures a * k <= b * k
  {
  }

  /** Neither branch of the size limit overflows, and it demands the wanted rate at least. */
  lemma ResultMaxBounds(slen: nat, needRate: int)
    requires slen <= INT_MAX && 0 <= needRate <= 99
    ensures slen > INT_MAX / 100 ==> 0 <= (slen / 100) * (100 - needRate) <= INT_MAX
    ensures slen <= INT_MAX / 100 ==> 0 <= slen * (100 - needRate) <= INT_MAX
    ensures 0 <= ResultMax(slen, needRate) <= slen * (100 - needRate) / 100 <= slen
  {
    var k, q := 100 - needRate, slen / 100;
    MulMono(0, slen, k);
    MulMono(k, 100, slen);
    MulMono(0, q, k);
    MulMono(k, 100, q);
    MulMono(q * 100, slen, k);
    assert (q * k) * 100 == (q * 100) * k;
    var big, small := slen * k, q * k;
    assert big <= 100 * slen && 100 * small <= big;
    assert small <= big / 100 <= slen;
  }

  /** It demands no more than that: up to INT_MAX / 100 it is exact, rounded down; beyond, it loses at
      most what 99 bytes of the source would allow. */
  lemma ResultMaxReaches(slen: nat, needRate: int)
    requires slen <= INT_MAX && 0 <= needRate <= 99
    ensures slen <= 21474836 ==> slen * (100 - needRate) < 100 * (ResultMax(slen, needRate) + 1)
    ensures slen > 21474836 ==> (slen - 99) * (100 - needRate) <= 100 * ResultMax(slen, needRate)
  {
    var k, q := 100 - needRate, slen / 100;
    MulMono(slen - 99, q * 100, k);
    assert (q * k) * 100 == (q * 100) * k;
    var big := slen * k;
    assert big < 100 * (big / 100 + 1);
  }

  /** The strategy's match parameters and rate, brought into the supported range. */
  lemma ParametersInRange(s: Strategy)
    ensures 17 <= GoodMatch(s) <= 273 && 0 <= GoodDrop(s) <= 100 && 0 <= NeedRate(s) <= 99
    ensures 17 <= s.matchSizeGood <= 273 ==> GoodMatch(s) == s.matchSizeGood
    ensures s.matchSizeGood < 17 ==> GoodMatch(s) == 17
    ensures s.matchSizeGood > 273 ==> GoodMatch(s) == 273
    ensures 0 <= s.matchSizeDrop <= 100 ==> GoodDrop(s) == s.matchSizeDrop
    ensures s.matchSizeDrop < 0 ==> GoodDrop(s) == 0
    ensures s.matchSizeDrop > 100 ==> GoodDrop(s) == 100
    ensures 0 <= s.minCompRate <= 99 ==> NeedRate(s) == s.minCompRate
    ensures s.minCompRate < 0 ==> NeedRate(s) == 0
    ensures s.minCompRate > 99 ==> NeedRate(s) == 99
  {
  }

  /** The two strategies' parameters. */
  lemma ShippedParameters()
    ensures Chosen(None).minInputSize == 32 && Chosen(None).maxInputSize == 2147483647
    ensures Chosen(None).firstSuccessBy == 1024
    ensures STRATEGY_ALWAYS.minInputSize == 0 && STRATEGY_ALWAYS.maxInputSize == 2147483647
    ensures STRATEGY_ALWAYS.firstSuccessBy == 2147483647
    ensures GoodMatch(Chosen(None)) == 128 && GoodDrop(Chosen(None)) == 10 && NeedRate(Chosen(None)) == 25
    ensures var s := Chosen(Some(STRATEGY_ALWAYS)); GoodMatch(s) == 128 && GoodDrop(s) == 6 && NeedRate(s) == 0
  {
  }

  /** Store a word, least significant byte first. */
  method PutWord(dest: array<Byte>, at: nat, x: nat)
    requires at + 4 <= dest.Length
    modifies dest
    ensures dest[at..at + 4] == Le32(x)
    ensures forall k :: 0 <= k < at || at + 4 <= k < dest.Length ==> dest[k] == old(dest[k])
  {
    var raw := Le32(x);
    dest[at], dest[at + 1], dest[at + 2], dest[at + 3] := raw[0], raw[1], raw[2], raw[3];
    assert dest[at..at + 4] == raw;
  }

  /** File all positions a tag covers. */
  method AddMatched(hist: Table, source: seq<Byte>, dp0: nat, matchLen0: nat) returns (dp: nat)
    requires dp0 + matchLen0 <= |source| && hist.Valid(source, dp0)
    modifies hist, hist.start, hist.entries
    ensures dp == dp0 + matchLen0 && hist.Valid(source, dp)
  {
    dp := dp0;
    var matchLen := matchLen0;
    while matchLen > 0
      invariant dp + matchLen == dp0 + matchLen0 && hist.Valid(source, dp)
    {
      hist.Add(source, dp);
      dp := dp + 1;
      matchLen := matchLen - 1;
    }
  }

  /** The table and the writer share no memory. */
  ghost predicate Apart(hist: Table, w: TokenWriter)
  {
    hist.start as object != w.dest && hist.entries as object != w.dest
  }

  /** The loop body: a tag or a literal, and the positions it covers. */
  method EmitNext(hist: Table, source: seq<Byte>, w: TokenWriter, dp0: nat, s: Strategy)
    returns (dp: nat, matched: bool)
    requires dp0 < |source| && hist.Valid(source, dp0) && w.Valid() && w.bp + 4 <= w.dest.Length && Apart(hist, w)
    requires Covers(source, dp0, w.Tokens())
    modifies hist, hist.start, hist.entries, w, w.dest
    ensures dp0 < dp <= |source| && hist.Valid(source, dp) && w.Valid() && old(w.bp) < w.bp <= old(w.bp) + 4
    ensures match Match.FindMatch(source, dp0, GoodMatch(s), GoodDrop(s))
            case Some(t) => matched && dp == dp0 + t.len && w.Tokens() == old(w.Tokens()) + [t]
            case None => !matched && dp == dp0 + 1 && w.Tokens() == old(w.Tokens()) + [Literal(source[dp0])]
    ensures Covers(source, dp, w.Tokens())
    ensures forall k :: 0 <= k < HEADER || w.bp <= k < w.dest.Length ==> w.dest[k] == old(w.dest[k])
  {
    hide Match.FindMatch, Serialize, Flat, ControlByte, Staged, Covers;
    CoversNext(source, dp0, w.Tokens(), GoodMatch(s), GoodDrop(s));
    var m := hist.FindMatch(source, dp0, GoodMatch(s), GoodDrop(s));
    if m.Some? {
      w.OutTag(m.value.len, m.value.off);
      dp := AddMatched(hist, source, dp0, m.value.len);
      matched := true;
    } else {
      w.OutLiteral(source[dp0]);
      hist.Add(source, dp0);
      dp := dp0 + 1;
      matched := false;
    }
  }

  /** The main loop. At its head the tokens emitted expand to the source read so far. It gives up
      once the output is too large, or nothing compressible was found in time; the output never
      grows past four bytes more than the source. */
  method Emit(hist: Table, source: seq<Byte>, w: TokenWriter, s: Strategy, resultMax: int)
    returns (ok: bool)
    requires hist.Valid(source, 0) && w.Valid() && w.Tokens() == [] && w.bp == HEADER && Apart(hist, w)
    requires w.dest.Length >= HEADER + |source| + 4
    requires resultMax == ResultMax(|source|, NeedRate(s)) <= |source|
    modifies hist, hist.start, hist.entries, w, w.dest
    ensures ok <==> TokensFrom(source, s, 0, [], false).Some?
    ensures ok ==> w.Valid() && w.Tokens() == TokensFrom(source, s, 0, [], false).value
    ensures HEADER <= w.bp < HEADER + |source| + 4
    ensures forall k :: 0 <= k < HEADER || HEADER + |source| + 4 <= k < w.dest.Length ==> w.dest[k] == old(w.dest[k])
  {
    CoversNothing(source);
    hide Serialize, TokensFrom, Staged, ResultMax, Match.FindMatch, Covers;
    var dp, foundMatch := 0, false;
    ghost var r := TokensFrom(source, s, 0, [], false);
    while dp < |source|
      invariant w.Valid() && HEADER <= w.bp < HEADER + |source| + 4 && hist.Valid(source, dp)
      invariant RunEnds(r, source, s, dp, w.Tokens(), foundMatch) && Covers(source, dp, w.Tokens())
      invariant forall k :: 0 <= k < HEADER || HEADER + |source| + 4 <= k < w.dest.Length ==>
        w.dest[k] == old(w.dest[k])
      decreases |source| - dp
    {
      w.PatchedIs();
      RunStep(r, source, s, dp, w.Tokens(), foundMatch);
      if w.bp - HEADER >= resultMax {
        return false;
      }
      if !foundMatch && w.bp - HEADER >= s.firstSuccessBy {
        return false;
      }
      var matched;
      dp, matched := EmitNext(hist, source, w, dp, s);
      foundMatch := foundMatch || matched;
    }
    RunDone(r, source, s, w.Tokens(), foundMatch);
    return true;
  }

  lemma RunDone(r: Option<seq<Token>>, src: seq<Byte>, s: Strategy, toks: seq<Token>, found: bool)
    requires RunEnds(r, src, s, |src|, toks, found)
    ensures r == Some(toks)
  {
  }

  lemma ImageParts(before: seq<Byte>, after: seq<Byte>, src: seq<Byte>, toks: seq<Token>)
    requires |before| == |after| >= HEADER + |Serialize(toks)|
    requires before[4..8] == Le32(|src|) && before[HEADER..HEADER + |Serialize(toks)|] == Serialize(toks)
    requires after[0..4] == Le32(LengthWord(|Serialize(toks)| + HEADER))
    requires forall k :: 4 <= k < |before| ==> after[k] == before[k]
    ensures |Image(src, toks)| <= |after| && after[..|Image(src, toks)|] == Image(src, toks)
  {
    hide Serialize, LengthWord, Le32;
    var n := HEADER + |Serialize(toks)|;
    assert after[4..8] == before[4..8] && after[HEADER..n] == before[HEADER..n];
    assert after[..n] == after[0..4] + after[4..8] + after[HEADER..n];
  }

  /** Compress `source` into `dest`. Whatever an earlier call left in the history table has
      no influence, and nothing is written at or past payload index |source| + 4. */
  method Compress(hist: Table, source: seq<Byte>, dest: array<Byte>, strategy: Option<Strategy>) returns (ok: bool)
    requires |source| <= INT_MAX && dest.Length >= |source| + 4 + HEADER
    requires hist.Shape() && hist.start as object != dest && hist.entries as object != dest
    modifies hist, hist.start, hist.entries, dest
    ensures ok <==> Compressed(source, strategy).Some?
    ensures ok ==> var image := Image(source, Compressed(source, strategy).value);
                   |image| <= dest.Length && dest[..|image|] == image
    ensures forall k :: HEADER + |source| + 4 <= k < dest.Length ==> dest[k] == old(dest[k])
  {
    hide Serialize, TokensFrom, LengthWord, Staged, ResultMax, Le32, Image;
    var s := Chosen(strategy);
    if s.matchSizeGood <= 0 || |source| < s.minInputSize || |source| > s.maxInputSize {
      return false;
    }
    PutWord(dest, 4, |source|);
    var resultMax := ResultMax(|source|, NeedRate(s));
    ResultMaxBounds(|source|, NeedRate(s));
    hist.Reset(source);
    var w := new TokenWriter(dest);
    ok := Emit(hist, source, w, s, resultMax);
    if !ok {
      return false;
    }
    ghost var toks := w.Tokens();
    w.PatchedIs();
    w.Finish();
    var resultSize := w.bp - HEADER;
    if resultSize >= resultMax {
      return false;
    }
    ghost var before := dest[..];
    PutWord(dest, 0, LengthWord(resultSize + HEADER));
    ImageParts(before, dest[..], source, toks);
    return true;
  }
}
