/** The history table: doubly linked entries, one list per bucket, recycled in place. */
module History {
  import opened Bytes
  import opened Wrappers
  import opened Format
  import opened Match

  const NULL := -1

  /** An entry; the links are indices into the entry array. */
  datatype Entry = Entry(next: int, prev: int, hindex: int, pos: int)

  /** The slot that holds position `q`; entries are handed out in a circle. */
  function Slot(q: int): (e: int)
    requires q >= -1
    ensures NULL <= e < SIZE && (e == NULL <==> q == -1)
  {
    if q == -1 then NULL else q % SIZE
  }

  /** The entry of position `p` when the history holds the positions [lo, i). */
  function EntryOf(src: seq<Byte>, lo: nat, i: nat, p: nat): Entry
    requires p < i <= |src|
  {
    var h := HistIdx(src, p);
    Entry(Slot(Older(src, p, lo, h)), Slot(Newer(src, p, i, h)), h, p)
  }

  /** The entries after taking entry `e` out of its list. */
  function Unlinked(es: seq<Entry>, e: nat): (r: seq<Entry>)
    requires e < |es| && NULL <= es[e].prev < |es| && NULL <= es[e].next < |es|
    ensures |r| == |es|
  {
    var me := es[e];
    var es' := if me.prev == NULL then es else es[me.prev := es[me.prev].(next := me.next)];
    if me.next == NULL then es' else es'[me.next := es'[me.next].(prev := me.prev)]
  }

  class Table {
    const start: array<int>
    const entries: array<Entry>
    var histNext: nat
    var recycle: bool

    ghost predicate Shape()
    {
      start.Length == LISTS && entries.Length == SIZE
    }

    constructor ()
      ensures Shape() && fresh(start) && fresh(entries)
    {
      start := new int[LISTS];
      entries := new Entry[SIZE](_ => Entry(NULL, NULL, 0, 0));
      histNext := 0;
      recycle := false;
    }

    /** The buckets hold exactly the positions [lo, i), each linked to its neighbours. */
    ghost predicate Linked(src: seq<Byte>, lo: nat, i: nat)
      requires Shape()
      reads start, entries
    {
      && lo <= i <= |src| && i - lo <= SIZE
      && (forall h :: 0 <= h < LISTS ==> start[h] == Slot(Older(src, i, lo, h)))
      && (forall p :: lo <= p < i ==> entries[p % SIZE] == EntryOf(src, lo, i, p))
    }

    /** The history after adding the positions below `i` in turn. */
    ghost predicate Valid(src: seq<Byte>, i: nat)
      reads this, start, entries
    {
      && Shape() && histNext == i % SIZE && recycle == (i >= SIZE)
      && Linked(src, Oldest(i), i)
    }

    /** Empty every list. What an earlier run left in the entries stays there. */
    method Reset(ghost src: seq<Byte>)
      requires Shape()
      modifies this, start
      ensures Valid(src, 0)
    {
      var h := 0;
      while h < LISTS
        invariant 0 <= h <= LISTS
        invariant forall k :: 0 <= k < h ==> start[k] == NULL
        modifies start
      {
        start[h] := NULL;
        h := h + 1;
      }
      histNext, recycle := 0, false;
    }

    /** Take entry `e` out of its list. */
    method Unlink(e: nat)
      requires Shape() && e < SIZE && 0 <= entries[e].hindex < LISTS
      requires NULL <= entries[e].prev < SIZE && NULL <= entries[e].next < SIZE
      modifies start, entries
      ensures entries[..] == Unlinked(old(entries[..]), e)
      ensures start[..] == if old(entries[e].prev) == NULL
                           then old(start[..])[old(entries[e].hindex) := old(entries[e].next)] else old(start[..])
    {
      var me := entries[e];
      if me.prev == NULL {
        start[me.hindex] := me.next;
      } else {
        entries[me.prev] := entries[me.prev].(next := me.next);
      }
      if me.next != NULL {
        entries[me.next] := entries[me.next].(prev := me.prev);
      }
    }

    /** Recycling takes out the oldest position. */
    method UnlinkOldest(ghost src: seq<Byte>, ghost lo: nat, ghost i: nat)
      requires Shape() && Linked(src, lo, i) && i == lo + SIZE && histNext == lo % SIZE
      modifies start, entries
      ensures Linked(src, lo + 1, i)
    {
      hide HistIdx, Older, Newer;
      OldestEntry(src, lo, i);
      ghost var n := Newer(src, lo, i, HistIdx(src, lo));
      NewestIsHead(src, lo, i);
      Unlink(histNext);
      forall k | 0 <= k < LISTS ensures start[k] == Slot(Older(src, i, lo + 1, k)) {
        OlderShift(src, lo, i, i, k);
      }
      forall p | lo + 1 <= p < i ensures entries[p % SIZE] == EntryOf(src, lo + 1, i, p) {
        EntryShift(src, lo, i, p);
        SlotsDiffer(lo, i, p, n);
      }
    }

    /** The entry of the oldest position, which ends its list. */
    lemma OldestEntry(src: seq<Byte>, lo: nat, i: nat)
      requires Shape() && Linked(src, lo, i) && lo < i
      ensures entries[lo % SIZE] == Entry(NULL, Slot(Newer(src, lo, i, HistIdx(src, lo))), HistIdx(src, lo), lo)
    {
      assert entries[lo % SIZE] == EntryOf(src, lo, i, lo);
      assert Older(src, lo, lo, HistIdx(src, lo)) == -1;
      hide HistIdx, Newer, Older;
    }

    /** File position `i` at the head of its list. */
    method LinkHead(src: seq<Byte>, i: nat, ghost lo: nat)
      requires Shape() && i < |src| && Linked(src, lo, i) && i < lo + SIZE && histNext == i % SIZE
      modifies start, entries
      ensures Linked(src, lo, i + 1)
    {
      var h := HistIdx(src, i);
      ghost var q := Older(src, i, lo, h);
      entries[histNext] := Entry(start[h], NULL, h, i);
      if start[h] != NULL {
        entries[start[h]] := entries[start[h]].(prev := histNext);
      }
      start[h] := histNext;
      hide HistIdx, Older, Newer;
      forall k | 0 <= k < LISTS ensures start[k] == Slot(Older(src, i + 1, lo, k)) {
        OlderPush(src, lo, i, k);
      }
      forall p | lo <= p < i + 1 ensures entries[p % SIZE] == EntryOf(src, lo, i + 1, p) {
        EntryPush(src, lo, i, p);
        SlotsDiffer(lo, i + 1, p, q);
        SlotsDiffer(lo, i + 1, p, i);
      }
    }

    /** `pglz_hist_add`: file the next position, recycling the oldest entry when all are used. */
    method Add(src: seq<Byte>, i: nat)
      requires i < |src| && Valid(src, i)
      modifies this, start, entries
      ensures Valid(src, i + 1)
    {
      hide HistIdx, Older, Newer, Linked;
      NextSlot(i);
      if recycle {
        UnlinkOldest(src, i - SIZE, i);
      }
      LinkHead(src, i, if recycle then i - SIZE + 1 else 0);
      histNext := histNext + 1;
      if histNext >= SIZE {
        histNext, recycle := 0, true;
      }
    }

    // ---- the lists -----------------------------------------------------------------------

    /** Neighbours point at each other, positions grow towards the head, and an entry without a
        newer neighbour heads its list. */
    lemma LinksAreMutual(src: seq<Byte>, i: nat, p: nat)
      requires Valid(src, i) && Oldest(i) <= p < i
      ensures var me := entries[p % SIZE];
        && me.pos == p && me.hindex == HistIdx(src, p)
        && (me.next != NULL ==> 0 <= me.next < SIZE && entries[me.next].prev == p % SIZE
                                && entries[me.next].pos < p && entries[me.next].hindex == me.hindex)
        && (me.prev != NULL ==> 0 <= me.prev < SIZE && entries[me.prev].next == p % SIZE && entries[me.prev].pos > p)
        && (me.prev == NULL ==> start[me.hindex] == p % SIZE)
    {
      hide HistIdx, Older, Newer;
      var lo, h := Oldest(i), HistIdx(src, p);
      var q, n := Older(src, p, lo, h), Newer(src, p, i, h);
      Neighbours(src, lo, i, p);
      assert entries[p % SIZE] == EntryOf(src, lo, i, p);
      if q >= 0 { assert entries[q % SIZE] == EntryOf(src, lo, i, q); }
      if n >= 0 { assert entries[n % SIZE] == EntryOf(src, lo, i, n); }
    }

    /** The entry to be recycled next holds the oldest position, and ends its list. */
    lemma RecycledIsTail(src: seq<Byte>, i: nat)
      requires Valid(src, i) && recycle
      ensures entries[histNext].pos == i - 4096 && entries[histNext].next == NULL
    {
      hide HistIdx, Newer;
      var lo := Oldest(i);
      assert entries[lo % SIZE] == EntryOf(src, lo, i, lo);
      assert Older(src, lo, lo, HistIdx(src, lo)) == -1;
    }

    // ---- searching -------------------------------------------------------------------

    /** The positions met by following `next` from entry `e`, at most `n` of them. */
    ghost function Walk(e: int, n: nat): seq<int>
      requires Shape()
      reads entries
      decreases n
    {
      if n == 0 || !(0 <= e < SIZE) then [] else [entries[e].pos] + Walk(entries[e].next, n - 1)
    }

    /** Walking a list from its head meets exactly the positions of the last 4096 filed
        under its bucket, nearest first, and ends. */
    lemma WalkIsBucket(src: seq<Byte>, i: nat, h: nat, n: nat)
      requires Valid(src, i) && h < LISTS && n >= SIZE
      ensures Walk(start[h], n) == Bucket(src, Oldest(i), i, h)
    {
      WalkOlder(src, i, i, h, n);
    }

    lemma {:induction false} WalkOlder(src: seq<Byte>, i: nat, p: nat, h: nat, n: nat)
      requires Valid(src, i) && Oldest(i) <= p <= i && h < LISTS && n >= p - Oldest(i)
      ensures Walk(Slot(Older(src, p, Oldest(i), h)), n) == Bucket(src, Oldest(i), p, h)
      decreases p
    {
      hide HistIdx, Older, Newer, Bucket;
      var lo := Oldest(i);
      var q := Older(src, p, lo, h);
      OlderSkips(src, lo, p, h);
      if q >= 0 {
        EntryAt(src, i, q, h);
        WalkOlder(src, i, q, h, n - 1);
      }
    }

    /** The entry of a position held, by its slot. */
    lemma EntryAt(src: seq<Byte>, i: nat, q: nat, h: nat)
      requires Valid(src, i) && Oldest(i) <= q < i && HistIdx(src, q) == h
      ensures 0 <= Slot(q) < SIZE && entries[Slot(q)].pos == q
      ensures entries[Slot(q)].next == Slot(Older(src, q, Oldest(i), h))
    {
      hide HistIdx, Older, Newer;
      assert entries[q % SIZE] == EntryOf(src, Oldest(i), i, q);
    }

    /** Following the list of position `i`'s bucket, newest entry first, is `Search`. */
    method FollowList(src: seq<Byte>, i: nat, goodMatch: int, goodDrop: int) returns (len: nat, off: nat)
      requires i < |src| && Valid(src, i)
      ensures var p := Older(src, i, Oldest(i), HistIdx(src, i));
              (len, off) == Search(src, i, Oldest(i), p, 0, 0, goodMatch, goodDrop)
    {
      hide HistIdx, Older, Newer, MatchLen, Matches, Search, Better;
      len, off := 0, 0;
      var good := goodMatch;
      ghost var lo, h := Oldest(i), HistIdx(src, i);
      var hent := start[HistIdx(src, i)];
      ghost var p := Older(src, i, lo, h);
      ghost var result := Search(src, i, lo, p, 0, 0, goodMatch, goodDrop);
      while hent != NULL
        invariant -1 <= p < i && hent == Slot(p) && (p >= 0 ==> lo <= p && HistIdx(src, p) == h)
        invariant Sound(src, i, len, off)
        invariant SearchEnds(result, src, i, lo, p, len, off, good, goodDrop)
        decreases p
      {
        assert entries[p % SIZE] == EntryOf(src, lo, i, p);
        SearchStep(result, src, i, lo, p, len, off, good, goodDrop);
        if i - entries[hent].pos >= 0x0fff {
          return;
        }
        len, off := Compare(src, i, entries[hent].pos, len, off);
        hent := entries[hent].next;
        p := Older(src, p, lo, h);
        if hent == NULL || len >= good {
          return;
        }
        good := good - good * goodDrop / 100;
      }
      SearchStep(result, src, i, lo, p, len, off, good, goodDrop);
    }

    /** `pglz_find_match`: report a match only if a tag makes it shorter. */
    method FindMatch(src: seq<Byte>, i: nat, goodMatch: int, goodDrop: int) returns (r: Option<Token>)
      requires i < |src| && Valid(src, i)
      ensures r == Match.FindMatch(src, i, goodMatch, goodDrop)
    {
      var len, off := FollowList(src, i, goodMatch, goodDrop);
      SearchSound(src, i, Oldest(i), Older(src, i, Oldest(i), HistIdx(src, i)), 0, 0, goodMatch, goodDrop);
      hide HistIdx, Older, Search;
      if len > 2 {
        r := Some(Tag(len, off));
      } else {
        r := None;
      }
    }
  }

  /** Compare with the entry at `hp`: from 16 bytes on, first the length in hand at once. */
  method Compare(src: seq<Byte>, i: nat, hp: nat, len0: nat, off0: nat) returns (len: nat, off: nat)
    requires hp < i < |src| && i - hp < 0x0fff && Sound(src, i, len0, off0)
    ensures (len, off) == Better(src, i, hp, len0, off0) && Sound(src, i, len, off)
  {
    hide MatchLen, Matches;
    BetterSound(src, i, hp, len0, off0);
    Shortcut(src, i, hp, len0);
    var thislen: nat := 0;
    if len0 >= 16 {
      if Matches(src, i, hp, len0) {
        thislen := CountFrom(src, i, hp, len0);
      }
    } else {
      thislen := CountFrom(src, i, hp, 0);
    }
    len, off := len0, off0;
    if thislen > len0 {
      len, off := thislen, i - hp;
    }
  }

  lemma {:induction false} OlderSkips(src: seq<Byte>, lo: nat, p: nat, h: nat)
    requires p <= |src|
    ensures var q := Older(src, p, lo, h);
            Bucket(src, lo, p, h) == if q < 0 then [] else [q] + Bucket(src, lo, q, h)
    decreases p
  {
    hide HistIdx;
    if p > lo && HistIdx(src, p - 1) != h {
      OlderSkips(src, lo, p - 1, h);
    }
  }

  /** The search, continued from here, finds `r`. */
  ghost predicate SearchEnds(r: (nat, nat), src: seq<Byte>, i: nat, lo: nat, p: int, len: nat, off: nat,
                             good: int, drop: int)
    requires i < |src| && -1 <= p < i
  {
    r == Search(src, i, lo, p, len, off, good, drop)
  }

  lemma SearchStep(r: (nat, nat), src: seq<Byte>, i: nat, lo: nat, p: int, len: nat, off: nat, good: int, drop: int)
    requires i < |src| && -1 <= p < i && SearchEnds(r, src, i, lo, p, len, off, good, drop)
    ensures p < 0 || i - p >= 0x0fff ==> r == (len, off)
    ensures p >= 0 && i - p < 0x0fff ==>
      var best, next := Better(src, i, p, len, off), Older(src, p, lo, HistIdx(src, i));
      if next < 0 || best.0 >= good then r == best
      else SearchEnds(r, src, i, lo, next, best.0, best.1, Dropped(good, drop), drop)
  {
  }

  /** Count agreeing bytes one at a time, from the k-th on. */
  method CountFrom(src: seq<Byte>, i: nat, p: nat, k: nat) returns (thislen: nat)
    requires p < i && i + k <= |src| && k <= MAX_MATCH
    ensures thislen == MatchLen(src, i, p, k)
  {
    hide Matches;
    thislen := k;
    var ip, hp := i + k, p + k;
    while ip < |src| && src[ip] == src[hp] && thislen < MAX_MATCH
      invariant thislen <= MAX_MATCH && ip == i + thislen <= |src| && hp == p + thislen
      invariant MatchLen(src, i, p, thislen) == MatchLen(src, i, p, k)
    {
      thislen := thislen + 1;
      ip, hp := ip + 1, hp + 1;
    }
  }

  // ---- how adding and dropping a position changes neighbours ----------------------------

  lemma NextSlot(i: nat)
    ensures (i + 1) % SIZE == if i % SIZE + 1 >= SIZE then 0 else i % SIZE + 1
    ensures i < SIZE ==> i % SIZE == i
    ensures i >= SIZE ==> (i - SIZE) % SIZE == i % SIZE
  {
  }

  lemma SlotsDiffer(lo: nat, i: nat, p: nat, q: int)
    requires lo <= p < i <= lo + SIZE && (q == -1 || lo <= q < i)
    ensures p % SIZE == Slot(q) <==> p == q
  {
  }

  lemma OlderShift(src: seq<Byte>, lo: nat, i: nat, p: nat, h: nat)
    requires lo < i <= |src| && lo < p <= i
    ensures Older(src, p, lo + 1, h) == if Older(src, p, lo, h) == lo then -1 else Older(src, p, lo, h)
  {
    var a, b := Older(src, p, lo, h), Older(src, p, lo + 1, h);
    hide Older, HistIdx;
  }

  lemma Neighbours(src: seq<Byte>, lo: nat, i: nat, p: nat)
    requires lo <= p < i <= |src|
    ensures var h := HistIdx(src, p);
            var q, n := Older(src, p, lo, h), Newer(src, p, i, h);
            (q >= 0 ==> Newer(src, q, i, h) == p)
            && (if n >= 0 then Older(src, n, lo, h) == p else Older(src, i, lo, h) == p)
  {
    hide HistIdx, Older, Newer;
  }

  /** The oldest position heads its list exactly when nothing newer is in it. */
  lemma NewestIsHead(src: seq<Byte>, lo: nat, i: nat)
    requires lo < i <= |src|
    ensures Older(src, i, lo, HistIdx(src, lo)) == lo <==> Newer(src, lo, i, HistIdx(src, lo)) == -1
  {
    hide Older, Newer, HistIdx;
  }

  lemma EntryShift(src: seq<Byte>, lo: nat, i: nat, p: nat)
    requires lo < p < i <= |src|
    ensures EntryOf(src, lo + 1, i, p)
         == if p == Newer(src, lo, i, HistIdx(src, lo)) then EntryOf(src, lo, i, p).(next := NULL)
            else EntryOf(src, lo, i, p)
  {
    var h := HistIdx(src, p);
    OlderShift(src, lo, i, p, h);
    hide Older, Newer, HistIdx;
  }

  lemma OlderPush(src: seq<Byte>, lo: nat, i: nat, h: nat)
    requires lo <= i < |src|
    ensures Older(src, i + 1, lo, h) == if HistIdx(src, i) == h then i as int else Older(src, i, lo, h)
  {
  }

  lemma EntryPush(src: seq<Byte>, lo: nat, i: nat, p: nat)
    requires lo <= p <= i < |src|
    ensures EntryOf(src, lo, i + 1, p)
         == if p == i then Entry(Slot(Older(src, i, lo, HistIdx(src, i))), NULL, HistIdx(src, i), i)
            else if p == Older(src, i, lo, HistIdx(src, i)) then EntryOf(src, lo, i, p).(prev := Slot(i))
            else EntryOf(src, lo, i, p)
  {
    var h := HistIdx(src, p);
    if p < i { var a, b := Newer(src, p, i, h), Newer(src, p, i + 1, h); }
    hide Older, Newer, HistIdx;
  }
}
