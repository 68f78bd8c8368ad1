/** Scanning a file of chunk tuples finds every one of them, and where its data lies. */
module PageTheory {
  import opened Bytes
  import opened Varlena
  import opened Page

  lemma TwoParts(s: seq<Byte>, at: nat, a: seq<Byte>, b: seq<Byte>)
    requires at + |a + b| <= |s| && s[at..at + |a + b|] == a + b
    ensures s[at..at + |a|] == a && s[at + |a|..at + |a| + |b|] == b
  {
    SubSlice(s, at, at + |a + b|, 0, |a|);
    SubSlice(s, at, at + |a + b|, |a|, |a + b|);
  }

  lemma FourParts(s: seq<Byte>, at: nat, a: seq<Byte>, b: seq<Byte>, c: seq<Byte>, d: seq<Byte>)
    requires at + |a + b + c + d| <= |s| && s[at..at + |a + b + c + d|] == a + b + c + d
    ensures s[at..at + |a|] == a && s[at + |a|..at + |a| + |b|] == b
    ensures s[at + |a| + |b|..at + |a| + |b| + |c|] == c
    ensures s[at + |a| + |b| + |c|..at + |a| + |b| + |c| + |d|] == d
  {
    TwoParts(s, at, a + b + c, d);
    TwoParts(s, at, a + b, c);
    TwoParts(s, at, a, b);
  }

  /** The parts of a tuple's user data. */
  lemma TupleParts(page: seq<Byte>, data: nat, t: Tuple)
    requires ValidTuple(t) && data + |TupleData(t)| <= |page| && page[data..data + |TupleData(t)|] == TupleData(t)
    ensures var hdr := |PlainHeader(|t.data|, t.short)|;
            && |TupleData(t)| == 8 + hdr + |t.data|
            && Word32(page, data) == t.id && Word32(page, data + 4) == t.chunkSeq
            && page[data + 8..data + 8 + hdr] == PlainHeader(|t.data|, t.short)
            && page[data + 8 + hdr..data + 8 + hdr + |t.data|] == t.data
  {
    hide Le32, Word32, PlainHeader;
    FourParts(page, data, Le32(t.id), Le32(t.chunkSeq), PlainHeader(|t.data|, t.short), t.data);
    WordOfLe32(t.id, page, data);
    WordOfLe32(t.chunkSeq, page, data + 4);
  }

  /** The dumper sees that the three attributes are present. */
  lemma PresentRead(page: seq<Byte>, off: nat)
    requires off + 23 <= |page| && ThreePresent(page, off)
    ensures HeaderReadable(page, off)
    ensures HasAttribute(page, off, 0) && HasAttribute(page, off, 1) && HasAttribute(page, off, 2)
  {
    NullIff(page, off);
    hide HasAttribute;
    if page[off + 20] % 2 == 1 { LowThree(page[off + 23]); }
  }

  /** The dumper reads a stored tuple as its key and the place of its data. */
  lemma ReadTupleOf(page: seq<Byte>, pageNo: nat, off: nat, len: nat, t: Tuple) returns (rec: ChunkRec)
    requires |page| == PAGE_SIZE && PAGE_SIZE * pageNo + PAGE_SIZE < WORD && HoldsTuple(page, off, len, t)
    ensures ReadTuple(page, pageNo, off) == Chunk(rec)
    ensures rec.id == t.id && rec.chunkSeq == t.chunkSeq && rec.len == |t.data|
    ensures PAGE_SIZE * pageNo <= rec.pos && rec.pos + rec.len <= PAGE_SIZE * pageNo + PAGE_SIZE
    ensures page[rec.pos - PAGE_SIZE * pageNo..rec.pos - PAGE_SIZE * pageNo + rec.len] == t.data
  {
    hide TupleData, Word32, Size, DataOffset, PlainHeader, HasAttribute, SizeReadable, ThreePresent;
    var hoff := page[off + 22] as int;
    var data := off + hoff;
    PresentRead(page, off);
    TupleParts(page, data, t);
    HeaderReadBack(page, data + 8, |t.data|, t.short);
    var hdr := DataOffset(page[data + 8]);
    assert hdr <= 4 && data + 8 + hdr + |t.data| <= PAGE_SIZE;
    rec := ChunkRec(t.id, t.chunkSeq, PAGE_SIZE * pageNo + off + hoff + 8 + hdr, |t.data|);
    assert page[data + 8 + hdr..data + 8 + hdr + |t.data|] == t.data;
  }

  /** What is recorded of any tuple, sound or not, from its bytes: the two words at the data, and by
      the first header byte where the chunk's data begins and how long it is, in 32 bits. The largest
      sequence number has no place in a vector. */
  lemma AnyTupleRead(page: seq<Byte>, pageNo: nat, off: nat)
    requires off + 23 <= |page| && ThreePresent(page, off)
    requires off + page[off + 22] as int + 12 <= |page|
    ensures var base := off + page[off + 22] as int;
            var b := page[base + 8];
            var size := Word32(page, base + 8) / 4;
            var (skip, len) := if b == 1 then (0, 18)
                               else if b % 2 == 1 then (1, b as int / 2 - 1)
                               else if b % 4 == 0 then (4, if size >= 4 then size - 4 else 4294967292 + size)
                               else (0, size);
            ReadTuple(page, pageNo, off)
            == if Word32(page, base + 4) == 4294967295 then Fault(OutOfBuffer)
               else Chunk(ChunkRec(Word32(page, base), Word32(page, base + 4),
                                   (8192 * pageNo + base + 8 + skip) % 4294967296, len))
  {
    hide Word32, HasAttribute, ThreePresent;
    PresentRead(page, off);
    var base := off + page[off + 22] as int;
    assert Size(page, base + 8) < 0x4000_0000;
    var b: nat := page[base + 8];
    assert b % 4 == b % 2 + 2 * (b / 2 % 2);
    if b % 2 == 1 && b != 1 { assert b / 2 >= 1; }
  }

  /** The chunk tuples among the items, in order. */
  function LiveOf(items: seq<Item>): seq<Tuple>
  {
    if items == [] then []
    else (match items[0] case Dead => [] case Live(t) => [t]) + LiveOf(items[1..])
  }

  function AllLive(pages: seq<seq<Item>>): seq<Tuple>
  {
    if pages == [] then [] else LiveOf(pages[0]) + AllLive(pages[1..])
  }

  /** Records and tuples correspond one to one. */
  ghost predicate AllRecords(file: seq<Byte>, recs: seq<ChunkRec>, tuples: seq<Tuple>)
  {
    |recs| == |tuples| && forall j :: 0 <= j < |recs| ==> Records(file, recs[j], tuples[j])
  }

  lemma AllRecordsAppend(file: seq<Byte>, a: seq<ChunkRec>, ta: seq<Tuple>, b: seq<ChunkRec>, tb: seq<Tuple>)
    requires AllRecords(file, a, ta) && AllRecords(file, b, tb)
    ensures AllRecords(file, a + b, ta + tb)
  {
    hide Records;
  }

  lemma ReadItemOf(file: seq<Byte>, pageNo: nat, i: nat, t: Tuple) returns (rec: ChunkRec)
    requires PAGE_SIZE * (pageNo + 1) <= |file| < WORD && LINP + 4 * i + 4 <= PAGE_SIZE
    requires HoldsItem(PageOf(file, pageNo), i, Live(t))
    ensures ReadItem(PageOf(file, pageNo), pageNo, i) == Chunk(rec) && Records(file, rec, t)
  {
    hide HoldsTuple, ReadTuple, Word32, ItemIdOf;
    var page := PageOf(file, pageNo);
    var off: nat, len: nat :| Points(page, i, off, 1, len) && len > 0 && HoldsTuple(page, off, len, t);
    ItemIdIs(off, 1, len);
    HeldInside(page, off, len, t);
    rec := ReadTupleOf(page, pageNo, off, len, t);
    var at := rec.pos - PAGE_SIZE * pageNo;
    SubSlice(file, PAGE_SIZE * pageNo, PAGE_SIZE * (pageNo + 1), at, at + rec.len);
  }

  lemma HeldInside(page: seq<Byte>, off: nat, len: nat, t: Tuple)
    requires HoldsTuple(page, off, len, t)
    ensures off + len <= |page|
  {
  }

  lemma {:induction false} ScanItemsOf(file: seq<Byte>, pageNo: nat, items: seq<Item>, i: nat)
    returns (recs: seq<ChunkRec>)
    requires PAGE_SIZE * (pageNo + 1) <= |file| < WORD && i <= |items|
    requires HoldsPage(PageOf(file, pageNo), items)
    ensures ScanItems(PageOf(file, pageNo), pageNo, i, |items|) == Ok(recs)
    ensures AllRecords(file, recs, LiveOf(items[i..]))
    decreases |items| - i
  {
    hide ReadItem, HoldsItem, Records;
    recs := [];
    if i < |items| {
      var page := PageOf(file, pageNo);
      var rest := ScanItemsOf(file, pageNo, items, i + 1);
      assert items[i..][0] == items[i] && items[i..][1..] == items[i + 1..];
      assert HoldsItem(page, i, items[i]);
      if items[i].Dead? {
        ReadDead(page, pageNo, i);
        recs := rest;
      } else {
        var rec := ReadItemOf(file, pageNo, i, items[i].tuple);
        recs := [rec] + rest;
        AllRecordsAppend(file, [rec], [items[i].tuple], rest, LiveOf(items[i + 1..]));
      }
    }
  }

  lemma ReadDead(page: seq<Byte>, pageNo: nat, i: nat)
    requires |page| == PAGE_SIZE && LINP + 4 * i + 4 <= PAGE_SIZE && HoldsItem(page, i, Dead)
    ensures ReadItem(page, pageNo, i) == Skip
  {
    hide Word32, ItemIdOf, ReadTuple;
    var off: nat, flags: nat, len: nat :|
      Points(page, i, off, flags, len) && (flags != 1 || len == 0 || off + len > 8192);
    ItemIdIs(off, flags, len);
  }

  lemma {:induction false} ScanPagesOf(file: seq<Byte>, pages: seq<seq<Item>>, p: nat) returns (recs: seq<ChunkRec>)
    requires HoldsFile(file, pages) && p <= |pages|
    ensures ScanPages(file, p, |pages|) == Ok(recs)
    ensures AllRecords(file, recs, AllLive(pages[p..]))
    decreases |pages| - p
  {
    hide HoldsPage, ScanItems, Records, Word16;
    recs := [];
    if p < |pages| {
      assert PageOf(file, p) == file[PAGE_SIZE * p..PAGE_SIZE * p + PAGE_SIZE];
      var here := ScanPageOf(file, p, pages[p]);
      var rest := ScanPagesOf(file, pages, p + 1);
      recs := here + rest;
      assert pages[p..][0] == pages[p] && pages[p..][1..] == pages[p + 1..];
      AllRecordsAppend(file, here, LiveOf(pages[p]), rest, AllLive(pages[p + 1..]));
    }
  }

  lemma ScanPageOf(file: seq<Byte>, p: nat, items: seq<Item>) returns (recs: seq<ChunkRec>)
    requires PAGE_SIZE * (p + 1) <= |file| < WORD && HoldsPage(PageOf(file, p), items)
    ensures ScanPage(file, p) == Ok(recs) && AllRecords(file, recs, LiveOf(items))
  {
    hide HoldsItem, ScanItems, Records;
    recs := ScanItemsOf(file, p, items, 0);
    assert items[0..] == items;
  }

  /** Every chunk tuple of the file is found once, in file order, with the place of its data. */
  lemma ScanFindsAll(file: seq<Byte>, pages: seq<seq<Item>>) returns (recs: seq<ChunkRec>)
    requires HoldsFile(file, pages)
    ensures Scan(file) == Ok(recs) && AllRecords(file, recs, AllLive(pages))
  {
    hide HoldsPage, ScanPages, Records;
    recs := ScanPagesOf(file, pages, 0);
    assert pages[0..] == pages;
  }
}
