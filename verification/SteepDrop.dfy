/** Why a drop of 33 is the last one under which the search reports any match within reach. */
module SteepDrop {
  import opened Bytes
  import opened Wrappers
  import opened Format
  import opened Match
  import opened Hash

  const BLOCKS := 272
  const LAST := 1092

  /** Four bytes at the start and again at the end; between them 272 blocks that share their bucket
      but only the first two bytes. */
  function Steep(): (r: seq<Byte>)
    ensures |r| == LAST + 4
  {
    seq(LAST + 4, j requires 0 <= j < LAST + 4 => SteepByte(j))
  }

  function SteepByte(j: nat): Byte
  {
    var outer := j < 4 || j >= LAST;
    if j % 4 == 0 then 1
    else if j % 4 == 1 then 2
    else if j % 4 == 2 then (if outer then 1 else 0)
    else if outer then 0 else 8
  }

  /** Exactly the blocks are in the bucket. */
  lemma SteepBucket(j: nat)
    requires j <= LAST
    ensures HistIdx(Steep(), j) == 648 <==> j % 4 == 0
  {
    var src := Steep();
    assert src[j] == SteepByte(j) && src[j + 1] == SteepByte(j + 1);
    assert src[j + 2] == SteepByte(j + 2) && src[j + 3] == SteepByte(j + 3);
    hide Steep, HistIdx;
    HistIdxSmall(src, j);
  }

  /** Each block follows the one before it. */
  lemma SteepOlder(k: nat)
    requires 1 <= k <= BLOCKS + 1
    ensures Older(Steep(), 4 * k, 0, 648) == 4 * (k - 1)
  {
    hide Steep, HistIdx;
    forall j | 4 * (k - 1) <= j < 4 * k ensures HistIdx(Steep(), j) == 648 <==> j == 4 * (k - 1) {
      SteepBucket(j);
    }
    OlderIs(Steep(), 4 * k, 0, 648, 4 * (k - 1));
  }

  /** Only the outermost block holds a match worth a tag. */
  lemma SteepLen(k: nat)
    requires k <= BLOCKS
    ensures MatchLen(Steep(), LAST, 4 * k, 0) == if k == 0 then 4 else 2
  {
    var src, p := Steep(), 4 * k;
    assert src[LAST] == src[p] == 1 && src[LAST + 1] == src[p + 1] == 2;
    assert src[LAST + 2] == 1 && src[p + 2] == if k == 0 then 1 else 0;
    assert k == 0 ==> src[LAST + 3] == src[p + 3];
    hide Steep, MatchLen;
    if k == 0 {
      assert src[LAST..LAST + 4] == src[p..p + 4];
      MatchOf(src, LAST, p, 4);
    } else {
      assert src[LAST..LAST + 2] == src[p..p + 2];
      MatchOf(src, LAST, p, 2);
    }
  }

  /** From 34 percent on every threshold above 2 is lowered at least by one. */
  lemma DroppedFalls(good: int, drop: int)
    requires good >= 3 && 34 <= drop <= 100
    ensures Dropped(good, drop) <= good - 1
  {
    Rounds(3 * 34, good * drop) by { assert good * drop >= 3 * drop; }
  }

  /** With two bytes in hand the search stops before the outermost block. */
  lemma {:induction false} SearchStuck(k: nat, off: nat, good: int, drop: int)
    requires 1 <= k <= BLOCKS && good <= k + 1 && 34 <= drop <= 100
    ensures Search(Steep(), LAST, 0, 4 * k, 2, off, good, drop).0 == 2
  {
    hide Steep, HistIdx, MatchLen, Older, Dropped, Search, LastGood;
    SteepBucket(LAST);
    SteepLen(k);
    SteepOlder(k);
    SearchOne(Steep(), LAST, 0, 4 * k, 2, off, good, drop);
    if good > 2 {
      DroppedFalls(good, drop);
      SearchStuck(k - 1, off, Dropped(good, drop), drop);
    }
  }

  /** Under any drop of 34 or more, and any threshold a strategy can set, the search reports nothing
      at the end of this text although a match of four bytes is within reach. */
  lemma SteepDropMisses(good: int, drop: int)
    requires 3 <= good <= MAX_MATCH && 34 <= drop <= 100
    ensures WithinReach(Steep(), LAST)
    ensures Match.FindMatch(Steep(), LAST, good, drop) == None
  {
    hide Steep, HistIdx, MatchLen, Older, Dropped, Search, LastGood;
    SteepBucket(LAST);
    SteepBucket(0);
    SteepLen(0);
    SteepLen(BLOCKS);
    SteepOlder(BLOCKS + 1);
    SteepOlder(BLOCKS);
    SearchOne(Steep(), LAST, 0, 4 * BLOCKS, 0, 0, good, drop);
    DroppedFalls(good, drop);
    SearchStuck(BLOCKS - 1, 4, Dropped(good, drop), drop);
  }

  /** For every threshold a strategy can set: the search never misses what is within reach exactly
      when the drop is at most 33. */
  lemma NeverMissesIff(good: int, drop: int)
    requires 17 <= good <= MAX_MATCH && 0 <= drop <= 100
    ensures (forall src: seq<Byte>, i: nat | i < |src| ::
               WithinReach(src, i) ==> Match.FindMatch(src, i, good, drop).Some?)
       <==> drop <= 33
  {
    hide Match.FindMatch, WithinReach;
    if drop <= 33 {
      forall src: seq<Byte>, i: nat | i < |src| && WithinReach(src, i)
        ensures Match.FindMatch(src, i, good, drop).Some?
      {
        FindsNothingIff(src, i, good, drop);
      }
    } else {
      SteepDropMisses(good, drop);
    }
  }
}
