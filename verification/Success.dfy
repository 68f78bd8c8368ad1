/** When compression succeeds: the limits a strategy sets, on sources whose tokens are known. */
module Success {
  import opened Bytes
  import opened Wrappers
  import opened Format
  import opened Match
  import opened DecoderTheory
  import opened Compressor
  import opened RoundTrip

  // ---- sources that begin without a match --------------------------------------------------------

  /** The bytes as literals. */
  function Opening(bytes: seq<Byte>): (r: seq<Token>)
    ensures |r| == |bytes|
  {
    seq(|bytes|, j requires 0 <= j < |bytes| => Literal(bytes[j]))
  }

  lemma {:induction false} NoTags(toks: seq<Token>)
    requires forall j :: 0 <= j < |toks| ==> toks[j].Literal?
    ensures Tags(toks) == 0
  {
    if toks != [] { NoTags(toks[1..]); }
  }

  /** The payload of `d` literals. */
  function LiteralSize(d: nat): nat
  {
    d + (d + 7) / 8
  }

  lemma OpeningSize(bytes: seq<Byte>)
    ensures |Serialize(Opening(bytes))| == LiteralSize(|bytes|)
  {
    hide Serialize, Cost;
    NoTags(Opening(bytes));
    LiteralsOnly(Opening(bytes));
    PayloadSize(Opening(bytes));
  }

  lemma OpeningNext(src: seq<Byte>, d: nat)
    requires d < |src|
    ensures Opening(src[..d]) + [Literal(src[d])] == Opening(src[..d + 1])
  {
  }

  /** After `d` literals and no tag the compressor has not given up. */
  predicate GoesOn(s: Strategy, n: nat, d: nat)
  {
    LiteralSize(d) < ResultMax(n, NeedRate(s)) && LiteralSize(d) < s.firstSuccessBy
  }

  /** Nothing is found before position `e`. */
  ghost predicate NoMatchBefore(src: seq<Byte>, s: Strategy, e: nat)
    requires e <= |src|
  {
    forall d :: 0 <= d < e ==> Match.FindMatch(src, d, GoodMatch(s), GoodDrop(s)) == None
  }

  /** As long as nothing is found, literals are written, until the limit on the size or the one on
      patience is reached. */
  lemma {:induction false} LiteralsUntil(src: seq<Byte>, s: Strategy, d: nat, e: nat)
    requires d <= e <= |src| && NoMatchBefore(src, s, e)
    ensures TokensFrom(src, s, d, Opening(src[..d]), false)
         == if d == e || GoesOn(s, |src|, e - 1) then TokensFrom(src, s, e, Opening(src[..e]), false) else None
    decreases e - d
  {
    hide Serialize, Match.FindMatch, Opening, ResultMax, NeedRate, TokensFrom;
    if d < e {
      var toks := Opening(src[..d]);
      OpeningSize(src[..d]);
      OpeningNext(src, d);
      RunStep(TokensFrom(src, s, d, toks, false), src, s, d, toks, false);
      LiteralsUntil(src, s, d + 1, e);
    }
  }

  /** The whole of what happens on a source whose first match reaches to its end: literals up to it,
      the tag, and success exactly when the compressor has not given up before and the payload is
      below the size limit. */
  lemma SingleMatch(src: seq<Byte>, strategy: Option<Strategy>, d: nat, t: Token)
    requires d < |src| && t.Tag? && d + t.len == |src| && NoMatchBefore(src, Chosen(strategy), d)
    requires Match.FindMatch(src, d, GoodMatch(Chosen(strategy)), GoodDrop(Chosen(strategy))) == Some(t)
    ensures var s, toks := Chosen(strategy), Opening(src[..d]) + [t];
            Compressed(src, strategy)
            == if s.matchSizeGood > 0 && s.minInputSize <= |src| <= s.maxInputSize && GoesOn(s, |src|, d)
                  && |Serialize(toks)| < ResultMax(|src|, NeedRate(s)) then Some(toks) else None
  {
    hide Serialize, Match.FindMatch, Opening, ResultMax, NeedRate, TokensFrom;
    var s, lits := Chosen(strategy), Opening(src[..d]);
    LiteralsUntil(src, s, 0, d);
    OpeningSize(src[..d]);
    assert src[..0] == [];
    assert Opening([]) == [];
    var r := TokensFrom(src, s, d, lits, false);
    RunStep(r, src, s, d, lits, false);
    if GoesOn(s, |src|, d) {
      RunDone(r, src, s, lits + [t], true);
    }
  }

  /** The default strategy's patience ends with the 911th literal. */
  lemma DefaultPatience(src: seq<Byte>, d: nat)
    requires d <= |src| && |src| >= 1400 && |src| <= INT_MAX && NoMatchBefore(src, STRATEGY_DEFAULT, d)
    ensures d <= 910 ==>
      TokensFrom(src, STRATEGY_DEFAULT, 0, [], false)
      == TokensFrom(src, STRATEGY_DEFAULT, d, Opening(src[..d]), false)
    ensures d >= 911 ==> Compressed(src, None) == None
  {
    ResultMaxReaches(|src|, 25);
    assert NeedRate(STRATEGY_DEFAULT) == 25;
    LiteralsUntil(src, STRATEGY_DEFAULT, 0, d);
    assert src[..0] == [];
    assert Opening([]) == [];
    hide TokensFrom, Opening, ResultMax, NeedRate, Serialize;
  }

  // ---- rising bytes and a run --------------------------------------------------------------------

  /** A byte repeated `n` times. */
  function Run(b: Byte, n: nat): (r: seq<Byte>)
    ensures |r| == n && forall k :: 0 <= k < n ==> r[k] == b
  {
    seq(n, _ => b)
  }

  /** Visiting entries that match no longer than the length in hand changes nothing. */
  lemma {:induction false} SearchKeeps(v: seq<Byte>, i: nat, lo: nat, p: int, len: nat, off: nat,
                                       good: int, drop: int)
    requires i < |v| && -1 <= p < i && (p >= 0 ==> lo <= p && HistIdx(v, p) == HistIdx(v, i))
    requires forall q :: lo <= q <= p && HistIdx(v, q) == HistIdx(v, i) ==> MatchLen(v, i, q, 0) <= len
    ensures Search(v, i, lo, p, len, off, good, drop) == (len, off)
    decreases p
  {
    if p >= 0 && i - p < 0x0fff {
      SearchOne(v, i, lo, p, len, off, good, drop);
      hide HistIdx, MatchLen, Older, Dropped, Search, LastGood;
      var next := Older(v, p, lo, HistIdx(v, i));
      if next >= 0 && len < good {
        SearchKeeps(v, i, lo, next, len, off, Dropped(good, drop), drop);
      }
    }
  }

  /** A byte not seen before is not matched. */
  lemma NewByteIsLiteral(v: seq<Byte>, i: nat, good: int, drop: int)
    requires i < |v| && forall q :: 0 <= q < i ==> v[q] != v[i]
    ensures Match.FindMatch(v, i, good, drop) == None
  {
    hide HistIdx, MatchLen;
    forall q | 0 <= q < i ensures MatchLen(v, i, q, 0) == 0 { MatchOf(v, i, q, 0); }
    OutOfReach(v, i, good, drop);
  }

  /** Where only equal bytes follow, new ones before, the search at their second position finds
      all of them. */
  lemma RunIsFound(v: seq<Byte>, i: nat, good: int, drop: int)
    requires 1 <= i <= SIZE && i + 4 <= |v| <= i + MAX_MATCH
    requires forall k :: i <= k < |v| ==> v[k] == v[i - 1]
    requires forall q :: 0 <= q < i - 1 ==> v[q] != v[i]
    ensures Match.FindMatch(v, i, good, drop) == Some(Tag(|v| - i, 1))
  {
    hide HistIdx, MatchLen, Older, Dropped, Search, LastGood;
    var h, n := HistIdx(v, i), |v| - i;
    RunLengths(v, i);
    OlderIs(v, i, 0, h, i - 1);
    assert Oldest(i) == 0;
    SearchOne(v, i, 0, i - 1, 0, 0, good, drop);
    var next := Older(v, i - 1, 0, h);
    if next >= 0 && n < good {
      SearchKeeps(v, i, 0, next, n, 1, Dropped(good, drop), drop);
    }
  }

  /** The entries before the second position of a run, and how much of it they match. */
  lemma RunLengths(v: seq<Byte>, i: nat)
    requires 1 <= i && i + 4 <= |v| <= i + MAX_MATCH
    requires forall k :: i <= k < |v| ==> v[k] == v[i - 1]
    requires forall q :: 0 <= q < i - 1 ==> v[q] != v[i]
    ensures HistIdx(v, i - 1) == HistIdx(v, i) && MatchLen(v, i, i - 1, 0) == |v| - i
    ensures forall q :: 0 <= q < i - 1 ==> MatchLen(v, i, q, 0) == 0
  {
    hide HistIdx, MatchLen;
    assert v[i..] == v[i - 1..|v| - 1];
    MatchesShareBucket(v, i, i - 1, |v| - i);
    MatchOf(v, i, i - 1, |v| - i);
    forall q | 0 <= q < i - 1 ensures MatchLen(v, i, q, 0) == 0 { MatchOf(v, i, q, 0); }
  }

  /** `k` bytes rising from `b`, and one more that fills up to length `n`. */
  function Stairs(b: Byte, k: nat, n: nat): (r: seq<Byte>)
    requires b + k < 256
    ensures |r| == n && forall j :: 0 <= j < n ==> r[j] == if j < k then b + j else b + k
  {
    seq(n, j requires 0 <= j < n => if j < k then b + j else b + k)
  }

  lemma RunIsStairs(b: Byte, n: nat)
    ensures Run(b, n) == Stairs(b, 0, n)
  {
  }

  lemma CostSnoc(toks: seq<Token>, t: Token)
    ensures Cost(toks + [t])
         == Cost(toks) + (match t case Literal(_) => 1 case Tag(len, _) => if len <= 17 then 2 else 3)
  {
    CostAppend(toks, [t]);
    assert [t][1..] == [];
  }

  /** Payload and tokens of stairs, stored. */
  function StairsSize(k: nat, n: nat): nat
  {
    k + 1 + (if n - k <= 18 then 2 else 3) + (k + 9) / 8
  }

  function StairsTokens(b: Byte, k: nat, n: nat): seq<Token>
    requires b + k < 256 && 5 <= n - k <= 274
  {
    Opening(Stairs(b, k, n)[..k + 1]) + [Tag(n - k - 1, 1)]
  }

  lemma StairsSizeIs(b: Byte, k: nat, n: nat)
    requires b + k < 256 && 5 <= n - k <= 274
    ensures |Serialize(StairsTokens(b, k, n))| == StairsSize(k, n)
  {
    var lits := Opening(Stairs(b, k, n)[..k + 1]);
    NoTags(lits);
    LiteralsOnly(lits);
    CostSnoc(lits, Tag(n - k - 1, 1));
    PayloadSize(StairsTokens(b, k, n));
    hide Serialize, Cost;
  }

  /** What the search finds in stairs: nothing while they rise, then the rest at once. */
  lemma StairsMatches(b: Byte, k: nat, n: nat, s: Strategy)
    requires b + k < 256 && 5 <= n - k <= 274
    ensures NoMatchBefore(Stairs(b, k, n), s, k + 1)
    ensures Match.FindMatch(Stairs(b, k, n), k + 1, GoodMatch(s), GoodDrop(s)) == Some(Tag(n - k - 1, 1))
  {
    hide Match.FindMatch, Stairs;
    var v := Stairs(b, k, n);
    forall d | 0 <= d < k + 1 ensures Match.FindMatch(v, d, GoodMatch(s), GoodDrop(s)) == None {
      NewByteIsLiteral(v, d, GoodMatch(s), GoodDrop(s));
    }
    RunIsFound(v, k + 1, GoodMatch(s), GoodDrop(s));
  }

  /** Under every strategy stairs are stored exactly when it admits their length, is patient enough
      for the literals, and the payload falls short of the length by the wanted rate. */
  lemma StairsStoredIff(b: Byte, k: nat, n: nat, strategy: Option<Strategy>)
    requires b + k < 256 && 5 <= n - k <= 274
    ensures var s := Chosen(strategy);
            var rate := if s.minCompRate < 0 then 0 else if s.minCompRate > 99 then 99 else s.minCompRate;
            Compressed(Stairs(b, k, n), strategy)
            == if s.matchSizeGood > 0 && s.minInputSize <= n <= s.maxInputSize
                  && LiteralSize(k + 1) < s.firstSuccessBy && 100 * (StairsSize(k, n) + 1) <= n * (100 - rate)
               then Some(StairsTokens(b, k, n)) else None
  {
    hide Serialize, Match.FindMatch, ResultMax, NeedRate, Compressed, Opening, Stairs;
    var s := Chosen(strategy);
    var rate := if s.minCompRate < 0 then 0 else if s.minCompRate > 99 then 99 else s.minCompRate;
    assert NeedRate(s) == rate by { ParametersInRange(s); }
    StairsMatches(b, k, n, s);
    SingleMatch(Stairs(b, k, n), strategy, k + 1, Tag(n - k - 1, 1));
    StairsSizeIs(b, k, n);
    BelowLimit(StairsSize(k, n), n, rate);
    assert LiteralSize(k + 1) < StairsSize(k, n);
    hide StairsSize, LiteralSize;
  }

  /** The size limit, without its rounding. */
  lemma BelowLimit(size: nat, n: nat, rate: int)
    requires n <= 21474836 && 0 <= rate <= 99
    ensures size < ResultMax(n, rate) <==> 100 * (size + 1) <= n * (100 - rate)
  {
    ResultMaxBounds(n, rate);
    ResultMaxReaches(n, rate);
    hide ResultMax;
  }

  /** The same for a run of equal bytes: one literal and one tag. */
  lemma RunStoredIff(b: Byte, n: nat, strategy: Option<Strategy>)
    requires 5 <= n <= 274
    ensures var s := Chosen(strategy);
            var rate := if s.minCompRate < 0 then 0 else if s.minCompRate > 99 then 99 else s.minCompRate;
            Compressed(Run(b, n), strategy)
            == if s.matchSizeGood > 0 && s.minInputSize <= n <= s.maxInputSize
                  && s.firstSuccessBy > 2 && 100 * ((if n <= 18 then 4 else 5) + 1) <= n * (100 - rate)
               then Some([Literal(b), Tag(n - 1, 1)]) else None
    ensures |Serialize([Literal(b), Tag(n - 1, 1)])| == if n <= 18 then 4 else 5
  {
    hide Serialize, Compressed, Run, Stairs;
    RunIsStairs(b, n);
    StairsStoredIff(b, 0, n, strategy);
    StairsSizeIs(b, 0, n);
    assert Stairs(b, 0, n)[..1] == [b];
    assert Opening([b]) == [Literal(b)];
    assert StairsTokens(b, 0, n) == [Literal(b), Tag(n - 1, 1)];
  }

  /** The default strategy stores every run of 32 to 274 equal bytes, and no shorter one. */
  lemma DefaultStoresRuns(b: Byte, n: nat)
    requires 5 <= n <= 274
    ensures Compressed(Run(b, n), None) == if n >= 32 then Some([Literal(b), Tag(n - 1, 1)]) else None
  {
    RunStoredIff(b, n, None);
    hide Compressed, Run;
  }

  /** Of longer-winded values of any length it stores exactly those that save a quarter. */
  lemma DefaultNeedsQuarter(b: Byte, k: nat, n: nat)
    requires b + k < 256 && 5 <= n - k <= 274
    ensures Compressed(Stairs(b, k, n), None).Some? <==> n >= 32 && 4 * (StairsSize(k, n) + 1) <= 3 * n
  {
    hide Compressed, Stairs, StairsTokens, StairsSize;
    StairsStoredIff(b, k, n, None);
    var size := StairsSize(k, n);
    assert LiteralSize(k + 1) < 1024;
    assert 100 * (size + 1) <= n * 75 <==> 4 * (size + 1) <= 3 * n;
  }
}
