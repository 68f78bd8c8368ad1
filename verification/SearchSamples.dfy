/** Texts on which the drop of the threshold decides what is found. */
module SearchSamples {
  import opened Bytes
  import opened Wrappers
  import opened Format
  import opened Match
  import opened Hash

  /** A text on which the second entry is not only visited but wins: five bytes stand at its
      start, four of them again further on, and all five at its end. */
  const SECOND_WINS: seq<Byte> := [1, 2, 3, 4, 5, 0, 1, 2, 3, 4, 6, 0, 1, 2, 3, 4, 5]

  lemma SecondEntryWins()
    ensures Older(SECOND_WINS, 12, Oldest(12), HistIdx(SECOND_WINS, 12)) == 6
    ensures Visited(SECOND_WINS, 12, Oldest(12), 6, 0, 128, 100) == [6, 0]
    ensures FindMatch(SECOND_WINS, 12, 128, 100) == Some(Tag(5, 12))
  {
    hide HistIdx, Older, MatchLen;
    var src := SECOND_WINS;
    SecondEntries(src);
    FullDropVisits(src, 12, 0, 6, 128);
    SearchOne(src, 12, 0, 6, 0, 0, 128, 100);
    SearchOne(src, 12, 0, 0, 4, 6, Dropped(128, 100), 100);
  }

  /** Its entries, and their matches. */
  lemma SecondEntries(src: seq<Byte>)
    requires src == SECOND_WINS
    ensures var h := HistIdx(src, 12);
            Older(src, 12, 0, h) == 6 && Older(src, 6, 0, h) == 0 && Older(src, 0, 0, h) == -1
    ensures MatchLen(src, 12, 6, 0) == 4 && MatchLen(src, 12, 0, 0) == 5
  {
    hide HistIdx, MatchLen, Octal;
    SecondGroups(src);
    assert src[12..16] == src[6..10] && src[12..17] == src[0..5];
    assert src[16] == 5 && src[10] == 6;
    MatchOf(src, 12, 6, 4);
    MatchOf(src, 12, 0, 5);
    hide SECOND_WINS, Matches;
    OlderSmall(src, 12, 12, 6);
    OlderSmall(src, 12, 6, 0);
  }

  /** Its groups of four. */
  lemma SecondGroups(src: seq<Byte>)
    requires src == SECOND_WINS
    ensures forall k :: 0 <= k < 17 ==> src[k] < 8
    ensures Octal(src, 12) == Octal(src, 6) == Octal(src, 0)
    ensures forall k :: 0 < k < 6 || 6 < k < 12 ==> Octal(src, k) != Octal(src, 12)
  {
    assert src[0] == src[6] == src[12] == 1 && src[1] == src[7] == src[13] == 2;
    assert src[2] == src[8] == src[14] == 3 && src[3] == src[9] == src[15] == 4;
    assert src[4] == 5 && src[5] == 0 && src[10] == 6 && src[11] == 0 && src[16] == 5;
    hide SECOND_WINS;
  }

  /** Twenty bytes. */
  function BlockByte(j: nat): Byte
    requires j < 20
  {
    if j < 7 then j + 1 else if j == 7 then 0 else (j - 6) / 2
  }

  /** The twenty bytes, sixteen of them twice more, each time going on differently, and all twenty
      again. */
  function DropByte(j: nat): Byte
    requires j < 74
  {
    if j < 20 then BlockByte(j)
    else if j < 36 then BlockByte(j - 20)
    else if j == 36 then 7
    else if j < 53 then BlockByte(j - 37)
    else if j == 53 then 0
    else BlockByte(j - 54)
  }

  function DropText(): (r: seq<Byte>)
    ensures |r| == 74 && forall j :: 0 <= j < 74 ==> r[j] == DropByte(j)
  {
    seq(74, j requires 0 <= j < 74 => DropByte(j))
  }

  /** There a match of 16 is good enough at the second entry, because 17 lowered by 10 percent is 16;
      without a drop the match of 20 at the third is found. */
  lemma DropStopsSearch()
    ensures FindMatch(DropText(), 54, 17, 10) == Some(Tag(16, 17))
    ensures FindMatch(DropText(), 54, 17, 0) == Some(Tag(20, 54))
  {
    hide HistIdx, Older, MatchLen, Search, LastGood, DropText, DropByte;
    var src := DropText();
    DropEntries(src);
    DropMatches(src);
    SearchOne(src, 54, 0, 37, 0, 0, 17, 10);
    SearchOne(src, 54, 0, 20, 16, 17, Dropped(17, 10), 10);
    SearchOne(src, 54, 0, 37, 0, 0, 17, 0);
    SearchOne(src, 54, 0, 20, 16, 17, Dropped(17, 0), 0);
    SearchOne(src, 54, 0, 0, 16, 17, Dropped(Dropped(17, 0), 0), 0);
    assert Dropped(17, 10) == 16 && Dropped(17, 0) == 17;
  }

  lemma DropEntries(src: seq<Byte>)
    requires src == DropText()
    ensures var h := HistIdx(src, 54);
            && Older(src, 54, 0, h) == 37 && Older(src, 37, 0, h) == 20
            && Older(src, 20, 0, h) == 0 && Older(src, 0, 0, h) == -1
  {
    hide HistIdx, Octal, DropText;
    forall k | 0 <= k <= 54
      ensures src[k] < 8 && (Octal(src, k) == 668 <==> k == 0 || k == 20 || k == 37 || k == 54)
    {
      DropGroup(src, k);
    }
    forall k | 54 <= k < 58 ensures src[k] < 8 { assert src[k] == DropByte(k); }
    hide DropByte;
    OlderSmall(src, 54, 54, 37);
    OlderSmall(src, 54, 37, 20);
    OlderSmall(src, 54, 20, 0);
  }

  lemma DropMatches(src: seq<Byte>)
    requires src == DropText()
    ensures MatchLen(src, 54, 37, 0) == 16 && MatchLen(src, 54, 20, 0) == 16 && MatchLen(src, 54, 0, 0) == 20
  {
    hide MatchLen, BlockByte, DropText;
    assert src[54..74] == src[0..20] && src[54..70] == src[37..53] && src[54..70] == src[20..36];
    assert src[70] == BlockByte(16) && src[53] == 0 && src[36] == 7;
    assert BlockByte(16) == 5 by { BlockAt(); }
    hide DropByte;
    MatchOf(src, 54, 37, 16);
    MatchOf(src, 54, 20, 16);
    MatchOf(src, 54, 0, 20);
  }

  lemma BlockAt()
    ensures BlockByte(16) == 5
  {
  }

  /** The group of four at `k` is 1, 2, 3, 4 only where the twenty bytes begin. */
  lemma DropGroup(src: seq<Byte>, k: nat)
    requires src == DropText() && k <= 54
    ensures src[k] < 8 && (Octal(src, k) == 668 <==> k == 0 || k == 20 || k == 37 || k == 54)
  {
    DropStart(k);
    assert src[k] == DropByte(k) && src[k + 1] == DropByte(k + 1);
    assert src[k + 2] == DropByte(k + 2) && src[k + 3] == DropByte(k + 3);
    hide DropText, DropByte;
    DigitsOf(src[k], src[k + 1], src[k + 2], src[k + 3]);
  }

  lemma DropStart(k: nat)
    requires k <= 54
    ensures DropByte(k) < 8 && DropByte(k + 1) < 8 && DropByte(k + 2) < 8 && DropByte(k + 3) < 8
    ensures DropByte(k) == 1 && DropByte(k + 1) == 2 && DropByte(k + 2) == 3 && DropByte(k + 3) == 4
       <==> k == 0 || k == 20 || k == 37 || k == 54
  {
  }

  lemma DigitsOf(a: nat, b: nat, c: nat, d: nat)
    requires a < 8 && b < 8 && c < 8 && d < 8
    ensures 512 * a + 64 * b + 8 * c + d == 668 <==> a == 1 && b == 2 && c == 3 && d == 4
  {
  }
}
