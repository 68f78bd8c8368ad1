/** Page files: line pointers, tuple headers, and the chunk tuples of a TOAST table. */
module Page {
  import opened Bytes
  import opened Varlena

  const PAGE_SIZE := 8192
  const LINP := 24
  const LP_NORMAL := 1

  /** How a dump can fail: an unaligned file, a failed assertion, an access outside a buffer,
      a thrown error, or `abort`. */
  datatype Error = Misaligned | AssertFailed | OutOfBuffer | NotFound | Corrupted | BadLength | Aborted

  datatype Result<T> = Ok(value: T) | Err(error: Error)

  // ---- line pointers ---------------------------------------------------------------------

  datatype ItemId = ItemId(off: nat, flags: nat, len: nat)

  /** 15 bits of offset, 2 of flags, 15 of length. */
  function ItemIdOf(w: nat): ItemId
  {
    ItemId(w % 32768, w / 32768 % 4, w / 131072 % 32768)
  }

  lemma ItemIdIs(off: nat, flags: nat, len: nat)
    requires off < 32768 && flags < 4 && len < 32768
    ensures ItemIdOf(off + 32768 * flags + 131072 * len) == ItemId(off, flags, len)
  {
    var w := off + 32768 * flags + 131072 * len;
    assert w / 32768 == flags + 4 * len && w / 131072 == len;
  }

  /** `itemid_count`: an unsigned subtraction, and a division asserted to be exact. */
  function ItemidCount(pdLower: nat): Result<nat>
  {
    var dividend := (pdLower - LINP) % WORD;
    if dividend % 4 != 0 then Err(AssertFailed) else Ok(dividend / 4)
  }

  /** The count is the number of line pointers before `pd_lower` exactly when that lies behind
      the page header; below, it is over a thousand million. */
  lemma ItemidCountIsRight(pdLower: nat)
    requires pdLower < 65536 && pdLower % 4 == 0
    ensures ItemidCount(pdLower).Ok?
    ensures LINP + 4 * ItemidCount(pdLower).value == pdLower <==> pdLower >= LINP
    ensures pdLower < LINP ==> ItemidCount(pdLower).value >= 1073741818
  {
  }

  // ---- tuples ----------------------------------------------------------------------------

  /** `word_padding`. */
  function WordPadding(pos: nat): nat
  {
    (4 - pos % 4) % 4
  }

  /** The tuple header fields that are read lie inside the page. */
  predicate HeaderReadable(page: seq<Byte>, off: nat)
  {
    off + 23 <= |page| && (page[off + 20] % 2 == 1 ==> off + 24 <= |page|)
  }

  /** `has_attribute` for the first eight attributes: no bitmap, or a set bit. */
  predicate HasAttribute(page: seq<Byte>, off: nat, att: nat)
    requires HeaderReadable(page, off)
  {
    page[off + 20] % 2 == 0 || Bit(page[off + 23], att) == 1
  }

  lemma {:induction false} LowBit(x: nat, k: nat)
    requires k < 3
    ensures Bit(x, k) == x / (if k == 0 then 1 else if k == 1 then 2 else 4) % 2
  {
    assert Bit(x, 0) == x % 2 && Bit(x, 1) == Bit(x / 2, 0) == x / 2 % 2;
    assert Bit(x, 2) == Bit(x / 2, 1) == Bit(x / 2 / 2, 0) == x / 4 % 2;
  }

  /** An attribute is null exactly when bit 0 of the infomask is set and its own bit in the bitmap
      is clear. */
  lemma NullIff(page: seq<Byte>, off: nat)
    requires HeaderReadable(page, off)
    ensures !HasAttribute(page, off, 0) <==> page[off + 20] % 2 == 1 && page[off + 23] % 2 == 0
    ensures !HasAttribute(page, off, 1) <==> page[off + 20] % 2 == 1 && page[off + 23] / 2 % 2 == 0
    ensures !HasAttribute(page, off, 2) <==> page[off + 20] % 2 == 1 && page[off + 23] / 4 % 2 == 0
  {
    if page[off + 20] % 2 == 1 {
      LowBit(page[off + 23], 0);
      LowBit(page[off + 23], 1);
      LowBit(page[off + 23], 2);
    }
    hide Bit;
  }

  /** What the index records of a chunk: its key, and where its data lies in the file. */
  datatype ChunkRec = ChunkRec(id: nat, chunkSeq: nat, pos: nat, len: nat)

  datatype Slot = Skip | Chunk(rec: ChunkRec) | Fault(error: Error)

  /** Read the tuple at `off` of page `pageNo` as a chunk. */
  function ReadTuple(page: seq<Byte>, pageNo: nat, off: nat): Slot
  {
    if !HeaderReadable(page, off) then Fault(OutOfBuffer)
    else if !(HasAttribute(page, off, 0) && HasAttribute(page, off, 1) && HasAttribute(page, off, 2)) then
      Fault(AssertFailed)
    else
      var hoff := page[off + 22] as int;
      var data := off + hoff;
      if !SizeReadable(page, data + 8) || Word32(page, data + 4) == WORD - 1 then Fault(OutOfBuffer)
      else
        var offset := DataOffset(page[data + 8]);
        Chunk(ChunkRec(Word32(page, data), Word32(page, data + 4),
                       (PAGE_SIZE * pageNo + off + hoff + 8 + offset) % WORD,
                       (Size(page, data + 8) - offset) % WORD))
  }

  /** The assertions on a readable header fail exactly when the tuple has a bitmap, by bit 0 of the
      infomask, and one of the three low bits of it is clear. */
  lemma AssertFailsIff(page: seq<Byte>, pageNo: nat, off: nat)
    requires off + 24 <= |page|
    ensures ReadTuple(page, pageNo, off) == Fault(AssertFailed)
       <==> page[off + 20] % 2 == 1 && page[off + 23] % 8 != 7
  {
    NullIff(page, off);
    hide HasAttribute, Word32, Size, DataOffset, SizeReadable;
    if page[off + 20] % 2 == 1 { LowThree(page[off + 23]); }
  }

  lemma LowThree(x: nat)
    ensures x % 8 == 7 <==> x % 2 == 1 && x / 2 % 2 == 1 && x / 4 % 2 == 1
  {
    var q, r := x / 8, x % 8;
    Eighths(q, r);
    assert r == 7 <==> r % 2 == 1 && r / 2 % 2 == 1 && r / 4 == 1;
  }

  lemma Even(half: nat, r: nat)
    ensures (2 * half + r) % 2 == r % 2 && (2 * half + r) / 2 == half + r / 2
  {
  }

  lemma Eighths(q: nat, r: nat)
    requires r < 8
    ensures (8 * q + r) % 2 == r % 2
    ensures (8 * q + r) / 2 % 2 == r / 2 % 2
    ensures (8 * q + r) / 4 % 2 == r / 4
  {
    var x := 8 * q + r;
    Even(4 * q, r);
    Even(2 * q, r / 2);
    Even(q, r / 4);
    assert x / 2 == 4 * q + r / 2 && x / 4 == 2 * q + r / 4;
  }

  /** What the index makes of line pointer `i`. */
  function ReadItem(page: seq<Byte>, pageNo: nat, i: nat): Slot
    requires |page| == PAGE_SIZE
  {
    if LINP + 4 * i + 4 > PAGE_SIZE then Fault(OutOfBuffer)
    else
      var id := ItemIdOf(Word32(page, LINP + 4 * i));
      if id.flags != LP_NORMAL || id.len == 0 || id.off > PAGE_SIZE || id.off + id.len > PAGE_SIZE then Skip
      else ReadTuple(page, pageNo, id.off)
  }

  /** The chunks of the page's line pointers from the i-th on, in order. */
  function ScanItems(page: seq<Byte>, pageNo: nat, i: nat, count: nat): Result<seq<ChunkRec>>
    requires |page| == PAGE_SIZE
    decreases count - i
  {
    if i >= count then Ok([])
    else
      match ReadItem(page, pageNo, i)
      case Fault(e) => Err(e)
      case Skip => ScanItems(page, pageNo, i + 1, count)
      case Chunk(rec) =>
        match ScanItems(page, pageNo, i + 1, count)
        case Err(e) => Err(e)
        case Ok(recs) => Ok([rec] + recs)
  }

  function PageOf(file: seq<Byte>, pageNo: nat): (r: seq<Byte>)
    requires PAGE_SIZE * (pageNo + 1) <= |file|
    ensures |r| == PAGE_SIZE
  {
    file[PAGE_SIZE * pageNo..PAGE_SIZE * (pageNo + 1)]
  }

  function ScanPage(file: seq<Byte>, pageNo: nat): Result<seq<ChunkRec>>
    requires PAGE_SIZE * (pageNo + 1) <= |file|
  {
    var page := PageOf(file, pageNo);
    match ItemidCount(Word16(page, 12))
    case Err(e) => Err(e)
    case Ok(count) => ScanItems(page, pageNo, 0, count)
  }

  /** The chunks of the file's pages from `pageNo` on. */
  function ScanPages(file: seq<Byte>, pageNo: nat, end: nat): Result<seq<ChunkRec>>
    requires PAGE_SIZE * end <= |file|
    decreases end - pageNo
  {
    if pageNo >= end then Ok([])
    else
      match ScanPage(file, pageNo)
      case Err(e) => Err(e)
      case Ok(recs) =>
        match ScanPages(file, pageNo + 1, end)
        case Err(e) => Err(e)
        case Ok(more) => Ok(recs + more)
  }

  /** The whole file; its size is read into an `unsigned`. */
  function Scan(file: seq<Byte>): Result<seq<ChunkRec>>
  {
    var size := |file| % WORD;
    if size % PAGE_SIZE != 0 then Err(Misaligned) else ScanPages(file, 0, size / PAGE_SIZE)
  }

  // ---- when the walk over a page stays inside it ---------------------------------------------

  /** One of the first `n` line pointers leads to a tuple that cannot be read. */
  predicate Faulty(page: seq<Byte>, pageNo: nat, n: nat)
    requires |page| == PAGE_SIZE
  {
    exists i :: 0 <= i < n && ReadItem(page, pageNo, i).Fault?
  }

  /** How many line pointers fit in a page. */
  const MAX_ITEMS := (PAGE_SIZE - LINP) / 4

  lemma {:induction false} ScanItemsOkIff(page: seq<Byte>, pageNo: nat, i: nat, count: nat)
    requires |page| == PAGE_SIZE
    ensures ScanItems(page, pageNo, i, count).Ok? <==> forall k :: i <= k < count ==> !ReadItem(page, pageNo, k).Fault?
    decreases count - i
  {
    hide ReadItem;
    if i < count {
      ScanItemsOkIff(page, pageNo, i + 1, count);
    }
  }

  /** A count beyond what fits makes the walk run through the line pointers off the page buffer,
      unless a tuple faults before. */
  lemma {:induction false} LongWalkFaults(page: seq<Byte>, pageNo: nat, i: nat, count: nat)
    requires |page| == PAGE_SIZE && i <= MAX_ITEMS < count && !Faulty(page, pageNo, MAX_ITEMS)
    ensures ScanItems(page, pageNo, i, count) == Err(OutOfBuffer)
    decreases count - i
  {
    if i < MAX_ITEMS {
      LongWalkFaults(page, pageNo, i + 1, count);
    } else {
      BeyondFaults(page, pageNo);
    }
    hide ReadItem;
  }

  lemma BeyondFaults(page: seq<Byte>, pageNo: nat)
    requires |page| == PAGE_SIZE
    ensures ReadItem(page, pageNo, MAX_ITEMS) == Fault(OutOfBuffer)
  {
  }

  /** The walk over a page stays inside it exactly when `pd_lower` is a multiple of 4 from the
      end of the page header up to the end of the page, and none of the tuples faults. */
  lemma ScanPageOkIff(file: seq<Byte>, pageNo: nat)
    requires PAGE_SIZE * (pageNo + 1) <= |file|
    ensures var page, lower := PageOf(file, pageNo), Word16(PageOf(file, pageNo), 12);
            ScanPage(file, pageNo).Ok? <==>
            lower % 4 == 0 && LINP <= lower <= PAGE_SIZE && !Faulty(page, pageNo, (lower - LINP) / 4)
  {
    hide ReadItem, Word16, ScanItems;
    var page, lower := PageOf(file, pageNo), Word16(PageOf(file, pageNo), 12);
    if lower % 4 == 0 {
      ItemidCountIsRight(lower);
      var count := ItemidCount(lower).value;
      ScanItemsOkIff(page, pageNo, 0, count);
      BeyondFaults(page, pageNo);
    }
  }

  /** How the walk fails when `pd_lower` is wrong and the tuples are not. */
  lemma ScanPageFails(file: seq<Byte>, pageNo: nat)
    requires PAGE_SIZE * (pageNo + 1) <= |file|
    ensures var page, lower := PageOf(file, pageNo), Word16(PageOf(file, pageNo), 12);
            && (lower % 4 != 0 ==> ScanPage(file, pageNo) == Err(AssertFailed))
            && (lower % 4 == 0 && !(LINP <= lower <= PAGE_SIZE) && !Faulty(page, pageNo, MAX_ITEMS) ==>
                  ScanPage(file, pageNo) == Err(OutOfBuffer))
  {
    hide ReadItem, Word16, ScanItems;
    var page, lower := PageOf(file, pageNo), Word16(PageOf(file, pageNo), 12);
    if lower % 4 == 0 && !(LINP <= lower <= PAGE_SIZE) && !Faulty(page, pageNo, MAX_ITEMS) {
      ItemidCountIsRight(lower);
      LongWalkFaults(page, pageNo, 0, ItemidCount(lower).value);
    }
  }

  /** A page never initialized, all zero, makes the walk leave the page buffer. */
  lemma ZeroPageFails(file: seq<Byte>, pageNo: nat)
    requires PAGE_SIZE * (pageNo + 1) <= |file|
    requires forall k :: PAGE_SIZE * pageNo <= k < PAGE_SIZE * (pageNo + 1) ==> file[k] == 0
    ensures ScanPage(file, pageNo) == Err(OutOfBuffer)
  {
    var page := PageOf(file, pageNo);
    assert forall k :: 0 <= k < PAGE_SIZE ==> page[k] == 0;
    assert forall i :: 0 <= i < MAX_ITEMS ==> ReadItem(page, pageNo, i) == Skip;
    assert Word16(page, 12) == 0;
    ScanPageFails(file, pageNo);
  }

  lemma {:induction false} ScanPagesOkIff(file: seq<Byte>, pageNo: nat, end: nat)
    requires PAGE_SIZE * end <= |file|
    ensures ScanPages(file, pageNo, end).Ok? <==> forall p :: pageNo <= p < end ==> ScanPage(file, p).Ok?
    decreases end - pageNo
  {
    hide ScanPage;
    if pageNo < end {
      ScanPagesOkIff(file, pageNo + 1, end);
    }
  }

  /** The scan succeeds exactly when the size, as an `unsigned`, is a whole number of pages, and
      the walk stays inside each of that many. */
  lemma ScanOkIff(file: seq<Byte>)
    ensures Scan(file).Ok? <==>
            |file| % WORD % PAGE_SIZE == 0 && forall p :: 0 <= p < |file| % WORD / PAGE_SIZE ==> ScanPage(file, p).Ok?
  {
    hide ScanPage, ScanPages;
    if |file| % WORD % PAGE_SIZE == 0 {
      ScanPagesOkIff(file, 0, |file| % WORD / PAGE_SIZE);
    }
  }

  // ---- how much of a file is read ------------------------------------------------------------------

  lemma ScanPageLocal(file: seq<Byte>, n: nat, pageNo: nat)
    requires PAGE_SIZE * (pageNo + 1) <= n <= |file|
    ensures ScanPage(file[..n], pageNo) == ScanPage(file, pageNo)
  {
    hide ScanItems, Word16, ItemidCount;
    assert PageOf(file[..n], pageNo) == PageOf(file, pageNo);
  }

  lemma {:induction false} ScanPagesLocal(file: seq<Byte>, n: nat, pageNo: nat, end: nat)
    requires PAGE_SIZE * end <= n <= |file|
    ensures ScanPages(file[..n], pageNo, end) == ScanPages(file, pageNo, end)
    decreases end - pageNo
  {
    hide ScanPage;
    if pageNo < end {
      ScanPageLocal(file, n, pageNo);
      ScanPagesLocal(file, n, pageNo + 1, end);
    }
  }

  /** The scan is that of the file's first bytes, as many as the size modulo 2^32. What lies
      behind has no influence. */
  lemma OnlyRemainderRead(file: seq<Byte>)
    ensures Scan(file) == Scan(file[..|file| % WORD])
  {
    hide ScanPages;
    var size := |file| % WORD;
    assert size % WORD == size;
    if size % PAGE_SIZE == 0 {
      assert PAGE_SIZE * (size / PAGE_SIZE) == size;
      ScanPagesLocal(file, size, 0, size / PAGE_SIZE);
    }
  }

  /** So a successful scan has read the pages of the whole file exactly when the file is smaller
      than 2^32 bytes. */
  lemma WholeFileReadIff(file: seq<Byte>)
    requires Scan(file).Ok?
    ensures var pages := |file| % WORD / PAGE_SIZE;
            Scan(file) == ScanPages(file, 0, pages) && (PAGE_SIZE * pages == |file| <==> |file| < WORD)
  {
    hide ScanPages;
  }

  /** A file of exactly 2^32 bytes, whatever is in its 524288 pages, is indexed as if it were
      empty, and success is reported. */
  lemma FourGigabytesLost(file: seq<Byte>)
    requires |file| == 4294967296
    ensures Scan(file) == Ok([])
  {
  }

  // ---- what a TOAST table holds --------------------------------------------------------------

  /** A chunk tuple as stored: value id, sequence number, and a plain varlena. */
  datatype Tuple = Tuple(id: nat, chunkSeq: nat, data: seq<Byte>, short: bool)

  /** A line pointer is either passed over, or leads to a chunk tuple. */
  datatype Item = Dead | Live(tuple: Tuple)

  predicate ValidTuple(t: Tuple)
  {
    t.id < WORD && t.chunkSeq < WORD - 1 && |t.data| + 4 < 0x4000_0000 && (t.short ==> |t.data| + 1 <= 127)
  }

  /** The user data of a chunk tuple. */
  function TupleData(t: Tuple): seq<Byte>
  {
    Le32(t.id) + Le32(t.chunkSeq) + PlainHeader(|t.data|, t.short) + t.data
  }

  /** No attribute of the first three is null, as the header bytes say: bit 0 of the infomask is
      clear, or else the three low bits of the bitmap behind the header are set. */
  predicate ThreePresent(page: seq<Byte>, off: nat)
    requires off + 23 <= |page|
  {
    page[off + 20] % 2 == 0 || (off + 24 <= |page| && page[off + 23] % 8 == 7)
  }

  /** A heap tuple at `off`, `len` bytes long, holds the chunk. */
  predicate HoldsTuple(page: seq<Byte>, off: nat, len: nat, t: Tuple)
  {
    && ValidTuple(t) && off + len <= |page| && off + 23 <= |page| && ThreePresent(page, off)
    && page[off + 22] as int + |TupleData(t)| == len
    && page[off + page[off + 22] as int..off + len] == TupleData(t)
  }

  /** Line pointer `i` says: `len` bytes at `off`, in the state `flags`. */
  predicate Points(page: seq<Byte>, i: nat, off: nat, flags: nat, len: nat)
    requires LINP + 4 * i + 4 <= |page|
  {
    && off < 32768 && flags < 4 && len < 32768
    && Word32(page, LINP + 4 * i) == off + 32768 * flags + 131072 * len
  }

  /** A line pointer is passed over if it is unused, redirected or dead, empty, or overhangs the page. */
  ghost predicate HoldsItem(page: seq<Byte>, i: nat, item: Item)
    requires |page| == PAGE_SIZE && LINP + 4 * i + 4 <= PAGE_SIZE
  {
    match item
    case Dead => exists off, flags, len ::
      Points(page, i, off, flags, len) && (flags != 1 || len == 0 || off + len > 8192)
    case Live(t) => exists off, len ::
      Points(page, i, off, 1, len) && len > 0 && HoldsTuple(page, off, len, t)
  }

  /** A page as PostgreSQL writes it, with these items. */
  ghost predicate HoldsPage(page: seq<Byte>, items: seq<Item>)
  {
    && |page| == PAGE_SIZE && LINP + 4 * |items| <= PAGE_SIZE
    && page[12] as int + 256 * page[13] as int == LINP + 4 * |items|
    && forall i :: 0 <= i < |items| ==> HoldsItem(page, i, items[i])
  }

  /** A file of pages under four gigabytes, with these items. */
  ghost predicate HoldsFile(file: seq<Byte>, pages: seq<seq<Item>>)
  {
    && |file| == PAGE_SIZE * |pages| && |file| < WORD
    && forall p :: 0 <= p < |pages| ==> HoldsPage(file[PAGE_SIZE * p..PAGE_SIZE * p + PAGE_SIZE], pages[p])
  }

  /** The recorded place of a tuple is right: there lie its data. */
  ghost predicate Records(file: seq<Byte>, rec: ChunkRec, t: Tuple)
  {
    && rec.id == t.id && rec.chunkSeq == t.chunkSeq && rec.len == |t.data|
    && rec.pos + rec.len <= |file| && file[rec.pos..rec.pos + rec.len] == t.data
  }
}
