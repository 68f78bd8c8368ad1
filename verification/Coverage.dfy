/** How far into the source a token list reaches. */
module Coverage {
  import opened Bytes
  import opened Wrappers
  import opened Format
  import opened Match
  import opened Hash

  /** `toks` expand to exactly the first `dp` bytes of the source. */
  ghost predicate Covers(src: seq<Byte>, dp: nat, toks: seq<Token>)
  {
    dp <= |src| && Grounded(0, toks) && Expand([], toks) == src[..dp]
  }

  lemma CoversNothing(src: seq<Byte>)
    ensures Covers(src, 0, [])
  {
  }

  lemma {:induction false} ExpandSnoc(out: seq<Byte>, toks: seq<Token>, t: Token)
    requires Grounded(|out|, toks)
    requires t.Tag? ==> 1 <= t.off <= |Expand(out, toks)|
    ensures Grounded(|out|, toks + [t])
    ensures Expand(out, toks + [t])
         == (match t
             case Literal(b) => Expand(out, toks) + [b]
             case Tag(len, off) => Repeat(Expand(out, toks), off, len))
    decreases |toks|
  {
    hide Repeat;
    var all := toks + [t];
    if toks == [] {
      assert all[0] == t && all[1..] == [];
      assert Grounded(|out| + Span(t), []);
    } else {
      assert all[0] == toks[0] && all[1..] == toks[1..] + [t];
      match toks[0] {
        case Literal(b) => ExpandSnoc(out + [b], toks[1..], t);
        case Tag(len, off) => ExpandSnoc(Repeat(out, off, len), toks[1..], t);
      }
    }
  }

  lemma CoversLiteral(src: seq<Byte>, dp: nat, toks: seq<Token>)
    requires Covers(src, dp, toks) && dp < |src|
    ensures Covers(src, dp + 1, toks + [Literal(src[dp])])
  {
    ExpandSnoc([], toks, Literal(src[dp]));
    assert src[..dp + 1] == src[..dp] + [src[dp]];
  }

  lemma CoversTag(src: seq<Byte>, dp: nat, toks: seq<Token>, len: Length, off: Offset)
    requires Covers(src, dp, toks) && Repeats(src, dp, len, off)
    ensures Covers(src, dp + len, toks + [Tag(len, off)])
  {
    assert |src[..dp]| == dp;
    ExpandSnoc([], toks, Tag(len, off));
    MatchRepeats(src, dp, off, len);
  }

  /** Whatever the search finds or does not find, the next token extends the cover. */
  lemma CoversNext(src: seq<Byte>, dp: nat, toks: seq<Token>, good: int, drop: int)
    requires Covers(src, dp, toks) && dp < |src|
    ensures match Match.FindMatch(src, dp, good, drop)
            case Some(t) => Covers(src, dp + t.len, toks + [t])
            case None => Covers(src, dp + 1, toks + [Literal(src[dp])])
  {
    hide Covers, Match.FindMatch, Repeats;
    match Match.FindMatch(src, dp, good, drop) {
      case Some(t) => CoversTag(src, dp, toks, t.len, t.off);
      case None => CoversLiteral(src, dp, toks);
    }
  }

  // ---- what the cut-off loses ------------------------------------------------------------------

  /** The search passes over an entry exactly 4095 back, although the tag for it is one the
      format can carry and would have been right. */
  lemma CutOffLosesOne(src: seq<Byte>, i: nat, lo: nat, p: nat, n: Length, len: nat, off: nat, good: int, drop: int)
    requires i < |src| && i - p == 4095 && Repeats(src, i, n, 4095)
    ensures Search(src, i, lo, p, len, off, good, drop) == (len, off)
    ensures Grounded(i, [Tag(n, 4095)]) && Expand(src[..i], [Tag(n, 4095)]) == src[..i + n]
  {
    MatchRepeats(src, i, 4095, n);
    assert [Tag(n, 4095)][1..] == [];
  }

  /** Where a tag of four bytes or more could be written, the search with a drop of up to 33 finds
      nothing exactly when the match lies 4095 back and no nearer entry is worth a tag. */
  lemma LostIff(src: seq<Byte>, i: nat, good: nat, drop: nat, n: nat, off: nat)
    requires 4 <= n <= MAX_MATCH && off <= 4095 && Repeats(src, i, n, off) && good > 2 && drop <= 33
    ensures Match.FindMatch(src, i, good, drop).None? <==> off == 4095 && !WithinReach(src, i)
  {
    FindsNothingIff(src, i, good, drop);
    if off < 4095 { MatchWithinReach(src, i, i - off, n); }
    hide Matches, Match.FindMatch, WithinReach;
  }

  /** A near match of four bytes or more is an entry of the bucket worth a tag. */
  lemma MatchWithinReach(src: seq<Byte>, i: nat, q: nat, n: nat)
    requires q < i && i - q < 0x0fff && 4 <= n <= MAX_MATCH && i + n <= |src| && Matches(src, i, q, n)
    ensures WithinReach(src, i)
  {
    hide HistIdx, MatchLen, Matches;
    MatchesShareBucket(src, i, q, n);
    MatchLenIsLongest(src, i, q, n);
  }

  /** Under every strategy such a match is lost. */
  lemma LostAnyway(src: seq<Byte>, i: nat, good: int, drop: int, n: nat)
    requires i < |src| && 4 <= n <= MAX_MATCH && Repeats(src, i, n, 4095) && !WithinReach(src, i)
    ensures Match.FindMatch(src, i, good, drop) == None
  {
    OutOfReach(src, i, good, drop);
  }

  /** Four bytes, zeros, and the same four bytes 4095 later. */
  function FarApart(): (r: seq<Byte>)
    ensures |r| == 4099
  {
    [1, 2, 3, 4] + seq(4091, _ => 0) + [1, 2, 3, 4]
  }

  /** There the search meets an entry 4095 back, and writes four literals for want of a tag. */
  lemma FarApartIsLost(good: int, drop: int)
    ensures Repeats(FarApart(), 4095, 4, 4095)
    ensures Older(FarApart(), 4095, Oldest(4095), HistIdx(FarApart(), 4095)) == 0
    ensures Match.FindMatch(FarApart(), 4095, good, drop) == None
  {
    var src := FarApart();
    assert src[4095..4099] == [1, 2, 3, 4] == src[0..4];
    forall k | 0 <= k < 4096
      ensures HistIdx(src, k) == Octal(src, k) && (Octal(src, k) == Octal(src, 4095) <==> k == 0 || k == 4095)
    {
      HistIdxSmall(src, k);
      FarApartAt(src, k);
    }
    hide HistIdx, Octal;
    OlderIs(src, 4095, 0, HistIdx(src, 4095), 0);
    LostAnyway(src, 4095, good, drop, 4);
  }

  lemma FarApartAt(src: seq<Byte>, k: nat)
    requires src == FarApart() && k < 4096
    ensures Octal(src, k) == Octal(src, 4095) <==> k == 0 || k == 4095
  {
  }
}
