/** The match search, as a search over positions of the source. */
module Match {
  import opened Bytes
  import opened Format
  import opened Wrappers

  const LISTS := 8192
  const SIZE := 4096
  const MAX_MATCH := 273

  /** A `char` is signed. */
  function SignExtend(b: Byte): int
  {
    if b < 128 then b else b - 256
  }

  /** The history bucket of position `p`: the low 13 bits of the first byte when fewer than
      four remain, otherwise of the next four bytes, shifted and xor-ed. */
  function HistIdx(src: seq<Byte>, p: nat): (h: nat)
    requires p < |src|
    ensures h < LISTS
  {
    if |src| - p < 4 then SignExtend(src[p]) % LISTS
    else
      BitXor(BitXor(BitXor((SignExtend(src[p]) * 512) % LISTS, (SignExtend(src[p + 1]) * 64) % LISTS),
                    (SignExtend(src[p + 2]) * 8) % LISTS), SignExtend(src[p + 3]) % LISTS) % LISTS
  }

  /** The oldest position the history still holds when `i` positions have been added. */
  function Oldest(i: nat): nat
  {
    if i >= SIZE then i - SIZE else 0
  }

  /** The nearest position in [lo, p) filed under `h`, or -1. */
  function Older(src: seq<Byte>, p: nat, lo: nat, h: nat): (q: int)
    requires p <= |src|
    ensures q == -1 || (lo <= q < p && HistIdx(src, q) == h)
    ensures forall k :: lo <= k < p && k > q ==> HistIdx(src, k) != h
  {
    if p <= lo then -1
    else if HistIdx(src, p - 1) == h then p - 1
    else Older(src, p - 1, lo, h)
  }

  /** The nearest position in (p, i) filed under `h`, or -1. */
  function Newer(src: seq<Byte>, p: nat, i: nat, h: nat): (q: int)
    requires i <= |src|
    ensures q == -1 || (p < q < i && HistIdx(src, q) == h)
    ensures forall k :: p < k < i && (q == -1 || k < q) ==> HistIdx(src, k) != h
    decreases i - p
  {
    if p + 1 >= i then -1
    else if HistIdx(src, p + 1) == h then p + 1
    else Newer(src, p + 1, i, h)
  }

  /** Positions of [lo, p) filed under `h`, nearest first. */
  function Bucket(src: seq<Byte>, lo: nat, p: nat, h: nat): seq<int>
    requires p <= |src|
  {
    if p <= lo then []
    else if HistIdx(src, p - 1) == h then [p - 1] + Bucket(src, lo, p - 1, h)
    else Bucket(src, lo, p - 1, h)
  }

  /** A bucket lists exactly the positions filed under it, each once, nearest first. */
  lemma {:induction false} BucketIs(src: seq<Byte>, lo: nat, p: nat, h: nat)
    requires p <= |src|
    ensures forall q :: lo <= q < p && HistIdx(src, q) == h ==> q in Bucket(src, lo, p, h)
    ensures forall k :: 0 <= k < |Bucket(src, lo, p, h)| ==>
      lo <= Bucket(src, lo, p, h)[k] < p && HistIdx(src, Bucket(src, lo, p, h)[k]) == h
    ensures forall j, k :: 0 <= j < k < |Bucket(src, lo, p, h)| ==> Bucket(src, lo, p, h)[j] > Bucket(src, lo, p, h)[k]
  {
    if p > lo {
      BucketIs(src, lo, p - 1, h);
      var rest := Bucket(src, lo, p - 1, h);
      assert Bucket(src, lo, p, h) == if HistIdx(src, p - 1) == h then [p - 1] + rest else rest;
      hide HistIdx, Bucket;
      if HistIdx(src, p - 1) == h {
        Headed(p - 1, rest, Bucket(src, lo, p, h));
      }
    }
  }

  /** A list with a larger number put in front. */
  lemma Headed(x: int, rest: seq<int>, all: seq<int>)
    requires all == [x] + rest
    requires forall k :: 0 <= k < |rest| ==> rest[k] < x
    requires forall j, k :: 0 <= j < k < |rest| ==> rest[j] > rest[k]
    ensures all[0] == x && forall k :: 1 <= k < |all| ==> all[k] == rest[k - 1]
    ensures forall q :: q in all <==> q == x || q in rest
    ensures forall j, k :: 0 <= j < k < |all| ==> all[j] > all[k]
  {
  }

  /** The `n` bytes at `i` are those at `p`. */
  predicate Matches(src: seq<Byte>, i: nat, p: nat, n: nat)
    requires p < i && i + n <= |src|
  {
    src[i..i + n] == src[p..p + n]
  }

  /** A match of `n` bytes contains every shorter one. */
  lemma MatchesPrefix(src: seq<Byte>, i: nat, p: nat, n: nat, m: nat)
    requires p < i && m <= n && i + n <= |src| && Matches(src, i, p, n)
    ensures Matches(src, i, p, m)
  {
    assert src[i..i + m] == src[i..i + n][..m];
    assert src[p..p + m] == src[p..p + n][..m];
  }

  lemma MatchesOneMore(src: seq<Byte>, i: nat, p: nat, n: nat)
    requires p < i && i + n < |src|
    ensures Matches(src, i, p, n + 1) <==> Matches(src, i, p, n) && src[i + n] == src[p + n]
  {
    var a, b := src[i..i + n + 1], src[p..p + n + 1];
    assert a == src[i..i + n] + [src[i + n]];
    assert b == src[p..p + n] + [src[p + n]];
    assert a[..n] == src[i..i + n] && b[..n] == src[p..p + n];
    assert a[n] == src[i + n] && b[n] == src[p + n];
  }

  /** How many bytes agree at `i` and `p`, given that `k` do, up to the source's end
      and the longest match a tag can carry. */
  function MatchLen(src: seq<Byte>, i: nat, p: nat, k: nat): (n: nat)
    requires p < i && i + k <= |src| && k <= MAX_MATCH
    ensures k <= n <= MAX_MATCH && i + n <= |src|
    ensures Matches(src, i, p, k) ==> Matches(src, i, p, n)
    ensures n == MAX_MATCH || i + n == |src| || src[i + n] != src[p + n]
    decreases MAX_MATCH - k
  {
    if i + k < |src| && src[i + k] == src[p + k] && k < MAX_MATCH then
      MatchesOneMore(src, i, p, k);
      MatchLen(src, i, p, k + 1)
    else k
  }

  /** The "good enough" threshold lowered by `drop` percent. */
  function Dropped(good: int, drop: int): int
  {
    good - good * drop / 100
  }

  /** Visit `p` and the older positions of its bucket, comparing byte by byte; `len` and
      `off` are the best match so far. */
  function Search(src: seq<Byte>, i: nat, lo: nat, p: int, len: nat, off: nat, good: int, drop: int): (r: (nat, nat))
    requires i < |src| && -1 <= p < i
    decreases p
  {
    if p < 0 || i - p >= 0x0fff then (len, off)
    else
      var best := Better(src, i, p, len, off);
      var next := Older(src, p, lo, HistIdx(src, i));
      if next < 0 || best.0 >= good then best
      else Search(src, i, lo, next, best.0, best.1, Dropped(good, drop), drop)
  }

  // ---- the length of a match --------------------------------------------------------

  /** The byte-by-byte count is the longest match there is. */
  lemma MatchLenIsLongest(src: seq<Byte>, i: nat, p: nat, n: nat)
    requires p < i && i + n <= |src| && n <= MAX_MATCH
    ensures Matches(src, i, p, n) <==> n <= MatchLen(src, i, p, 0)
  {
    var m := MatchLen(src, i, p, 0);
    assert Matches(src, i, p, m) by { assert Matches(src, i, p, 0); }
    hide MatchLen;
    if n <= m {
      MatchesPrefix(src, i, p, m, n);
    } else {
      MatchesOneMore(src, i, p, m);
      if Matches(src, i, p, n) {
        MatchesPrefix(src, i, p, n, m + 1);
      }
    }
  }

  /** With a match of `len` in hand, comparing `len` bytes at once and counting on from
      there finds the same improvements as counting from the start. */
  lemma Shortcut(src: seq<Byte>, i: nat, p: nat, len: nat)
    requires p < i && i + len <= |src| && len <= MAX_MATCH
    ensures Matches(src, i, p, len) ==> MatchLen(src, i, p, len) == MatchLen(src, i, p, 0)
    ensures !Matches(src, i, p, len) ==> MatchLen(src, i, p, 0) < len
  {
    hide MatchLen, Matches;
    MatchLenIsLongest(src, i, p, len);
    var fast, slow := MatchLen(src, i, p, len), MatchLen(src, i, p, 0);
    if Matches(src, i, p, len) {
      MatchLenIsLongest(src, i, p, fast);
      if fast < slow {
        MatchLenIsLongest(src, i, p, fast + 1);
        MatchesOneMore(src, i, p, fast);
      }
    }
  }

  // ---- the search ------------------------------------------------------------------

  /** A candidate a tag can carry: it repeats `len` bytes already seen. */
  ghost predicate Sound(src: seq<Byte>, i: nat, len: nat, off: nat)
  {
    && len <= MAX_MATCH && i + len <= |src|
    && (len > 0 ==> 1 <= off <= 0x0ffe && off <= i && Matches(src, i, i - off, len))
  }

  /** The better of the best so far and the match at `p`. */
  function Better(src: seq<Byte>, i: nat, p: nat, len: nat, off: nat): (nat, nat)
    requires p < i <= |src|
  {
    if MatchLen(src, i, p, 0) > len then (MatchLen(src, i, p, 0), i - p) else (len, off)
  }

  lemma BetterSound(src: seq<Byte>, i: nat, p: nat, len: nat, off: nat)
    requires p < i <= |src| && i - p < 0x0fff && Sound(src, i, len, off)
    ensures Sound(src, i, Better(src, i, p, len, off).0, Better(src, i, p, len, off).1)
  {
    assert Matches(src, i, p, 0);
    assert i - (i - p) == p;
  }

  lemma {:induction false} SearchSound(src: seq<Byte>, i: nat, lo: nat, p: int, len: nat, off: nat,
                                       good: int, drop: int)
    requires i < |src| && -1 <= p < i && Sound(src, i, len, off)
    ensures var r := Search(src, i, lo, p, len, off, good, drop); Sound(src, i, r.0, r.1)
    decreases p
  {
    hide HistIdx, MatchLen, Older, Matches, Better, Dropped;
    if p >= 0 && i - p < 0x0fff {
      BetterSound(src, i, p, len, off);
      var best, next := Better(src, i, p, len, off), Older(src, p, lo, HistIdx(src, i));
      if next >= 0 && best.0 < good {
        SearchSound(src, i, lo, next, best.0, best.1, Dropped(good, drop), drop);
      }
    }
  }

  /** The positions the search compares with, nearest first. */
  function Visited(src: seq<Byte>, i: nat, lo: nat, p: int, len: nat, good: int, drop: int): (r: seq<nat>)
    requires i < |src| && -1 <= p < i
    decreases p
  {
    if p < 0 || i - p >= 0x0fff then []
    else
      var best, next := Better(src, i, p, len, 0).0, Older(src, p, lo, HistIdx(src, i));
      if next < 0 || best >= good then [p]
      else [p] + Visited(src, i, lo, next, best, Dropped(good, drop), drop)
  }

  /** The length of the match at `p`. */
  function LenAt(src: seq<Byte>, i: nat, p: nat): nat
    requires i <= |src|
  {
    if p < i then MatchLen(src, i, p, 0) else 0
  }

  /** (len, off) is the longest match among `seen`, the first of equals. */
  ghost predicate Best(src: seq<Byte>, i: nat, seen: seq<nat>, len: nat, off: nat)
    requires i <= |src|
  {
    && (forall k :: 0 <= k < |seen| ==> LenAt(src, i, seen[k]) <= len)
    && (len > 0 ==> exists w :: BestAt(src, i, seen, len, off, w))
  }

  ghost predicate BestAt(src: seq<Byte>, i: nat, seen: seq<nat>, len: nat, off: nat, w: nat)
    requires i <= |src|
  {
    && w < |seen| && off == i - seen[w] && LenAt(src, i, seen[w]) == len
    && forall k :: 0 <= k < w ==> LenAt(src, i, seen[k]) < len
  }

  lemma BestSnoc(src: seq<Byte>, i: nat, seen: seq<nat>, p: nat, len: nat, off: nat)
    requires p < i <= |src| && Best(src, i, seen, len, off)
    ensures Best(src, i, seen + [p], Better(src, i, p, len, off).0, Better(src, i, p, len, off).1)
    ensures Better(src, i, p, len, off).0 == Better(src, i, p, len, 0).0
  {
    var all, best := seen + [p], Better(src, i, p, len, off);
    assert LenAt(src, i, p) == MatchLen(src, i, p, 0);
    hide MatchLen, LenAt;
    if MatchLen(src, i, p, 0) > len {
      assert BestAt(src, i, all, best.0, best.1, |seen|);
    } else if len > 0 {
      var w :| BestAt(src, i, seen, len, off, w);
      assert BestAt(src, i, all, len, off, w);
    }
  }

  /** The search returns the longest match among all positions it visits, the nearest
      of equals. `seen` are those visited before `p`. */
  lemma {:induction false} SearchIsBest(src: seq<Byte>, i: nat, lo: nat, seen: seq<nat>, p: int,
                                        len: nat, off: nat, good: int, drop: int)
    requires i < |src| && -1 <= p < i && Best(src, i, seen, len, off)
    ensures var r := Search(src, i, lo, p, len, off, good, drop);
            Best(src, i, seen + Visited(src, i, lo, p, len, good, drop), r.0, r.1)
    decreases p
  {
    hide HistIdx, MatchLen, Older, Better, Best, Dropped;
    if p < 0 || i - p >= 0x0fff {
      assert seen + [] == seen;
    } else {
      BestSnoc(src, i, seen, p, len, off);
      var best, next := Better(src, i, p, len, off), Older(src, p, lo, HistIdx(src, i));
      if next >= 0 && best.0 < good {
        SearchIsBest(src, i, lo, seen + [p], next, best.0, best.1, Dropped(good, drop), drop);
        var rest := Visited(src, i, lo, next, best.0, Dropped(good, drop), drop);
        assert (seen + [p]) + rest == seen + ([p] + rest);
      }
    }
  }

  /** The threshold as it stands at the last entry visited. */
  function LastGood(src: seq<Byte>, i: nat, lo: nat, p: int, len: nat, good: int, drop: int): int
    requires i < |src| && -1 <= p < i
    decreases p
  {
    if p < 0 || i - p >= 0x0fff then good
    else
      var best, next := Better(src, i, p, len, 0).0, Older(src, p, lo, HistIdx(src, i));
      if next < 0 || best >= good || i - next >= 0x0fff then good
      else LastGood(src, i, lo, next, best, Dropped(good, drop), drop)
  }

  /** One step of the search. */
  lemma SearchOne(src: seq<Byte>, i: nat, lo: nat, p: nat, len: nat, off: nat, good: int, drop: int)
    requires i < |src| && p < i && i - p < 0x0fff
    ensures var best, next := Better(src, i, p, len, off), Older(src, p, lo, HistIdx(src, i));
            && best.0 == Better(src, i, p, len, 0).0 && best.0 >= len && best.0 >= MatchLen(src, i, p, 0)
            && Search(src, i, lo, p, len, off, good, drop)
            == (if next < 0 || best.0 >= good then best
                else Search(src, i, lo, next, best.0, best.1, Dropped(good, drop), drop))
            && LastGood(src, i, lo, p, len, good, drop)
            == (if next < 0 || best.0 >= good || i - next >= 0x0fff then good
                else LastGood(src, i, lo, next, best.0, Dropped(good, drop), drop))
  {
    hide HistIdx, MatchLen, Older, Dropped;
  }

  lemma {:induction false} SearchGrows(src: seq<Byte>, i: nat, lo: nat, p: int, len: nat, off: nat,
                                       good: int, drop: int)
    requires i < |src| && -1 <= p < i
    ensures Search(src, i, lo, p, len, off, good, drop).0 >= len
    decreases p
  {
    if p >= 0 && i - p < 0x0fff {
      SearchOne(src, i, lo, p, len, off, good, drop);
      hide HistIdx, MatchLen, Older, Dropped, Better, Search, LastGood;
      var best, next := Better(src, i, p, len, off), Older(src, p, lo, HistIdx(src, i));
      if next >= 0 && best.0 < good {
        SearchGrows(src, i, lo, next, best.0, best.1, Dropped(good, drop), drop);
      }
    }
  }

  /** When the result stays below the threshold as it stands at the last entry visited, no entry
      of the bucket that is near enough was passed over: none holds a longer match. */
  lemma {:induction false} NonePassedOver(src: seq<Byte>, i: nat, lo: nat, p: int, len: nat, off: nat,
                                          good: int, drop: int, q: nat)
    requires i < |src| && -1 <= p < i && lo <= q <= p && HistIdx(src, q) == HistIdx(src, i) && i - q < 0x0fff
    requires Search(src, i, lo, p, len, off, good, drop).0 < LastGood(src, i, lo, p, len, good, drop)
    ensures MatchLen(src, i, q, 0) <= Search(src, i, lo, p, len, off, good, drop).0
    decreases p
  {
    hide HistIdx, MatchLen, Older, Dropped, Better, Search, LastGood;
    SearchOne(src, i, lo, p, len, off, good, drop);
    var h := HistIdx(src, i);
    var best, next, good' := Better(src, i, p, len, off), Older(src, p, lo, h), Dropped(good, drop);
    if next >= 0 && best.0 < good {
      SearchGrows(src, i, lo, next, best.0, best.1, good', drop);
    }
    if q < p {
      OlderReaches(src, p, lo, h, q);
      assert best.0 < good && i - next < 0x0fff;
      NonePassedOver(src, i, lo, next, best.0, best.1, good', drop, q);
    }
  }

  lemma OlderReaches(src: seq<Byte>, p: nat, lo: nat, h: nat, q: nat)
    requires lo <= q < p <= |src| && HistIdx(src, q) == h
    ensures q <= Older(src, p, lo, h) < p
  {
  }

  /** Without a drop the threshold stays. */
  lemma {:induction false} NeverLowered(src: seq<Byte>, i: nat, lo: nat, p: int, len: nat, good: int)
    requires i < |src| && -1 <= p < i
    ensures LastGood(src, i, lo, p, len, good, 0) == good
    decreases p
  {
    if p >= 0 && i - p < 0x0fff {
      assert Dropped(good, 0) == good;
      SearchOne(src, i, lo, p, len, 0, good, 0);
      hide HistIdx, MatchLen, Older, Dropped, Better, Search, LastGood;
      var best, next := Better(src, i, p, len, 0).0, Older(src, p, lo, HistIdx(src, i));
      if next >= 0 && best < good && i - next < 0x0fff {
        NeverLowered(src, i, lo, next, best, good);
      }
    }
  }

  /** With a drop of up to 33 percent a threshold above 2 never falls to 2: there the last step is
      that from 3, of which 33 percent round to nothing. */
  lemma DroppedStays(good: int, drop: int)
    requires good > 2 && 0 <= drop <= 33
    ensures Dropped(good, drop) > 2
  {
    if good > 3 {
      Rounds(good * drop, good * 33);
    } else {
      Rounds(good * drop, 99);
    }
  }

  lemma Rounds(a: int, b: int)
    requires a <= b
    ensures a / 100 <= b / 100
  {
  }

  lemma {:induction false} LastGoodStays(src: seq<Byte>, i: nat, lo: nat, p: int, len: nat, good: int, drop: int)
    requires i < |src| && -1 <= p < i && good > 2 && 0 <= drop <= 33
    ensures LastGood(src, i, lo, p, len, good, drop) > 2
    decreases p
  {
    if p >= 0 && i - p < 0x0fff {
      DroppedStays(good, drop);
      SearchOne(src, i, lo, p, len, 0, good, drop);
      hide HistIdx, MatchLen, Older, Dropped, Better, Search, LastGood;
      var best, next := Better(src, i, p, len, 0).0, Older(src, p, lo, HistIdx(src, i));
      if next >= 0 && best < good && i - next < 0x0fff {
        LastGoodStays(src, i, lo, next, best, Dropped(good, drop), drop);
      }
    }
  }

  /** If no near entry holds a match longer than `max`, none comes out. */
  lemma {:induction false} SearchBound(src: seq<Byte>, i: nat, lo: nat, p: int, len: nat, off: nat,
                                       good: int, drop: int, max: nat)
    requires i < |src| && -1 <= p < i && len <= max
    requires p >= 0 ==> lo <= p && HistIdx(src, p) == HistIdx(src, i)
    requires forall q :: lo <= q <= p && HistIdx(src, q) == HistIdx(src, i) && i - q < 0x0fff ==>
      MatchLen(src, i, q, 0) <= max
    ensures Search(src, i, lo, p, len, off, good, drop).0 <= max
    decreases p
  {
    if p >= 0 && i - p < 0x0fff {
      SearchOne(src, i, lo, p, len, off, good, drop);
      hide HistIdx, MatchLen, Older, Dropped, Search, Visited;
      var best, next := Better(src, i, p, len, off), Older(src, p, lo, HistIdx(src, i));
      if next >= 0 && best.0 < good {
        SearchBound(src, i, lo, next, best.0, best.1, Dropped(good, drop), drop, max);
      }
    }
  }

  /** A match of four bytes lies in the same bucket. */
  lemma MatchesShareBucket(src: seq<Byte>, i: nat, q: nat, n: nat)
    requires q < i && 4 <= n && i + n <= |src| && Matches(src, i, q, n)
    ensures HistIdx(src, q) == HistIdx(src, i)
  {
    MatchesPrefix(src, i, q, n, 4);
    var a, b := src[i..i + 4], src[q..q + 4];
    assert a[0] == b[0] && a[1] == b[1] && a[2] == b[2] && a[3] == b[3];
  }

  /** The search finds something as long as any near entry holds, or long enough for the
      threshold as it stands at the last entry visited. */
  lemma NoneMissed(src: seq<Byte>, i: nat, good: int, drop: int, q: nat)
    requires i < |src| && q < i && i - q < 0x0fff && HistIdx(src, q) == HistIdx(src, i)
    ensures var p := Older(src, i, Oldest(i), HistIdx(src, i));
            var len := Search(src, i, Oldest(i), p, 0, 0, good, drop).0;
            len >= MatchLen(src, i, q, 0) || len >= LastGood(src, i, Oldest(i), p, 0, good, drop)
  {
    hide HistIdx, MatchLen, Older, Dropped, Search, LastGood;
    var p := Older(src, i, Oldest(i), HistIdx(src, i));
    if Search(src, i, Oldest(i), p, 0, 0, good, drop).0 < LastGood(src, i, Oldest(i), p, 0, good, drop) {
      NonePassedOver(src, i, Oldest(i), p, 0, 0, good, drop, q);
    }
  }

  /** So with a threshold that is not lowered it misses no match of four bytes or more within reach. */
  lemma FindsLongest(src: seq<Byte>, i: nat, good: nat, q: nat, n: nat)
    requires q < i && i - q < 0x0fff && 4 <= n <= MAX_MATCH && i + n <= |src| && Matches(src, i, q, n) && good > 2
    ensures var r := FindMatch(src, i, good, 0); r.Some? && (r.value.len >= n || r.value.len >= good)
  {
    hide HistIdx, MatchLen, Older, Matches, Search, LastGood;
    MatchesShareBucket(src, i, q, n);
    MatchLenIsLongest(src, i, q, n);
    NoneMissed(src, i, good, 0, q);
    NeverLowered(src, i, Oldest(i), Older(src, i, Oldest(i), HistIdx(src, i)), 0, good);
  }

  /** Some entry of the bucket of `i` nearer than the cut-off holds a match worth a tag. */
  ghost predicate WithinReach(src: seq<Byte>, i: nat)
    requires i < |src|
  {
    exists q :: 0 <= q < i && i - q < 0x0fff && HistIdx(src, q) == HistIdx(src, i) && MatchLen(src, i, q, 0) > 2
  }

  /** Exactly when nothing is found: with a drop of up to 33, as in both strategies, when the bucket
      holds no match of three bytes or more nearer than the cut-off. */
  lemma FindsNothingIff(src: seq<Byte>, i: nat, good: nat, drop: nat)
    requires i < |src| && good > 2 && drop <= 33
    ensures FindMatch(src, i, good, drop).None? <==> !WithinReach(src, i)
  {
    hide HistIdx, MatchLen, Older, Dropped, Matches, Search, Visited, LastGood;
    if WithinReach(src, i) {
      var q :| 0 <= q < i && i - q < 0x0fff && HistIdx(src, q) == HistIdx(src, i) && MatchLen(src, i, q, 0) > 2;
      NoneMissed(src, i, good, drop, q);
      LastGoodStays(src, i, Oldest(i), Older(src, i, Oldest(i), HistIdx(src, i)), 0, good, drop);
    } else {
      OutOfReach(src, i, good, drop);
    }
  }

  /** Whatever the threshold and the drop, nothing is found beyond reach. */
  lemma OutOfReach(src: seq<Byte>, i: nat, good: int, drop: int)
    requires i < |src| && !WithinReach(src, i)
    ensures FindMatch(src, i, good, drop) == None
  {
    hide HistIdx, MatchLen, Older, Dropped, Search;
    SearchBound(src, i, Oldest(i), Older(src, i, Oldest(i), HistIdx(src, i)), 0, 0, good, drop, 2);
  }

  /** With the threshold dropped entirely after the first entry, a second entry is still
      visited, if there is one near enough and the first was not good enough; never a third. */
  lemma FullDropVisits(src: seq<Byte>, i: nat, lo: nat, p: nat, good: nat)
    requires i < |src| && p < i && i - p < 0x0fff
    ensures var next := Older(src, p, lo, HistIdx(src, i));
            Visited(src, i, lo, p, 0, good, 100)
            == if MatchLen(src, i, p, 0) < good && next >= 0 && i - next < 0x0fff then [p, next] else [p]
  {
    assert Dropped(good, 100) == 0;
    hide HistIdx, MatchLen, Older, Dropped;
    var next := Older(src, p, lo, HistIdx(src, i));
    if Better(src, i, p, 0, 0).0 < good && next >= 0 {
      var best := Better(src, i, p, 0, 0).0;
      assert Visited(src, i, lo, p, 0, good, 100) == [p] + Visited(src, i, lo, next, best, 0, 100);
    }
  }

  /** The rule for lowering, rounded as the division rounds: the threshold becomes the least
      integer not below `100 - drop` percent of it. */
  lemma DroppedRounds(good: int, drop: int)
    ensures good * (100 - drop) <= 100 * Dropped(good, drop) < good * (100 - drop) + 100
  {
    var cut := good * drop;
    assert good * (100 - drop) == good * 100 - cut;
    assert 100 * (cut / 100) <= cut < 100 * (cut / 100) + 100;
  }

  /** The longer of two matches. */
  function Longer(a: nat, b: nat): nat
  {
    if a > b then a else b
  }

  /** Under every drop: when the first entry is not good enough and three are near enough, the second
      is visited, and the third exactly when the better of the two falls short of the threshold
      lowered once, by `drop` percent. */
  lemma ThirdVisitedIff(src: seq<Byte>, i: nat, lo: nat, p: nat, second: nat, third: nat, good: nat, drop: nat)
    requires i < |src| && third < second < p < i && i - third < 0x0fff && drop <= 100
    requires Older(src, p, lo, HistIdx(src, i)) == second && Older(src, second, lo, HistIdx(src, i)) == third
    requires MatchLen(src, i, p, 0) < good
    ensures var seen := Visited(src, i, lo, p, 0, good, drop);
            && |seen| >= 2 && seen[0] == p && seen[1] == second
            && (|seen| >= 3 ==> seen[2] == third)
            && (|seen| >= 3 <==>
                100 * Longer(MatchLen(src, i, p, 0), MatchLen(src, i, second, 0)) < good * (100 - drop))
  {
    hide HistIdx, MatchLen, Older, Dropped;
    var one := Better(src, i, p, 0, 0).0;
    var two := Better(src, i, second, one, 0).0;
    assert one == MatchLen(src, i, p, 0) && two == Longer(one, MatchLen(src, i, second, 0));
    var good' := Dropped(good, drop);
    DroppedRounds(good, drop);
    VisitedHead(src, i, lo, p, 0, good, drop);
    VisitedHead(src, i, lo, second, one, good', drop);
    VisitedHead(src, i, lo, third, two, Dropped(good', drop), drop);
    hide Visited, Better;
    assert two < good' <==> 100 * two < good * (100 - drop);
  }

  /** One step of the visit. */
  lemma VisitedHead(src: seq<Byte>, i: nat, lo: nat, p: nat, len: nat, good: int, drop: int)
    requires i < |src| && p < i && i - p < 0x0fff
    ensures var best, next := Better(src, i, p, len, 0).0, Older(src, p, lo, HistIdx(src, i));
            && Visited(src, i, lo, p, len, good, drop) != [] && Visited(src, i, lo, p, len, good, drop)[0] == p
            && Visited(src, i, lo, p, len, good, drop)
            == (if next < 0 || best >= good then [p]
                else [p] + Visited(src, i, lo, next, best, Dropped(good, drop), drop))
  {
    hide HistIdx, MatchLen, Older, Dropped, Better;
  }

  /** The length of a match, from where it ends. */
  lemma MatchOf(src: seq<Byte>, i: nat, p: nat, n: nat)
    requires p < i && i + n <= |src| && n <= MAX_MATCH && Matches(src, i, p, n)
    requires i + n == |src| || src[i + n] != src[p + n]
    ensures MatchLen(src, i, p, 0) == n
  {
    MatchLenIsLongest(src, i, p, n);
    if MatchLen(src, i, p, 0) > n {
      MatchLenIsLongest(src, i, p, n + 1);
      MatchesOneMore(src, i, p, n);
    }
  }

  lemma OlderIs(src: seq<Byte>, p: nat, lo: nat, h: nat, q: nat)
    requires lo <= q < p <= |src| && HistIdx(src, q) == h && forall k :: q < k < p ==> HistIdx(src, k) != h
    ensures Older(src, p, lo, h) == q
  {
  }

  // ---- the tag the search leads to -----------------------------------------------------

  /** The `len` bytes at `i` repeat what stands `off` before them. */
  predicate Repeats(src: seq<Byte>, i: nat, len: nat, off: nat)
  {
    1 <= off <= i && i + len <= |src| && Matches(src, i, i - off, len)
  }

  /** The match to encode at `i`, if one of at least three bytes is found. */
  function FindMatch(src: seq<Byte>, i: nat, good: int, drop: int): (r: Option<Token>)
    requires i < |src|
    ensures r.Some? ==> r.value.Tag? && r.value.off <= 4094 && Repeats(src, i, r.value.len, r.value.off)
  {
    var p := Older(src, i, Oldest(i), HistIdx(src, i));
    SearchSound(src, i, Oldest(i), p, 0, 0, good, drop);
    var (len, off) := Search(src, i, Oldest(i), p, 0, 0, good, drop);
    if len > 2 then Some(Tag(len, off)) else None
  }

  /** A match repeats periodically, even when it overlaps the text it produces. */
  lemma {:induction false} MatchIsPeriodic(src: seq<Byte>, i: nat, off: nat, len: nat, k: nat)
    requires Repeats(src, i, len, off) && k < len
    ensures src[i + k] == src[i - off + Phase(k, off)]
    decreases k
  {
    assert src[i..i + len][k] == src[i - off..i - off + len][k];
    if k >= off {
      MatchIsPeriodic(src, i, off, len, k - off);
    }
  }

  lemma MatchRepeats(src: seq<Byte>, i: nat, off: nat, len: nat)
    requires Repeats(src, i, len, off)
    ensures Repeat(src[..i], off, len) == src[..i + len]
  {
    var out := Repeat(src[..i], off, len);
    forall x | i <= x < i + len ensures out[x] == src[x] {
      MatchIsPeriodic(src, i, off, len, x - i);
    }
  }
}
