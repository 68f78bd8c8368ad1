/** The TOAST index and the fetching of out-of-line values. */
module Toast {
  import opened Bytes
  import opened Varlena
  import opened Page
  import opened Decoder

  // ---- the index ---------------------------------------------------------------------------

  /** A chunk's file offset and length. */
  type Place = (nat, nat)

  type Index = map<nat, seq<Place>>

  /** `vector::resize` to a larger size: new cells are zero. */
  function Grown(data: seq<Place>, n: nat): (r: seq<Place>)
    requires |data| <= n
    ensures |r| == n
  {
    data + seq(n - |data|, _ => (0, 0))
  }

  /** The index after one more chunk. */
  function Insert(m: Index, rec: ChunkRec): Index
  {
    var data := if rec.id in m then m[rec.id] else [];
    var grown := if |data| <= rec.chunkSeq then Grown(data, rec.chunkSeq + 1) else data;
    m[rec.id := grown[rec.chunkSeq := (rec.pos, rec.len)]]
  }

  function InsertAll(m: Index, recs: seq<ChunkRec>): Index
  {
    if recs == [] then m else Insert(InsertAll(m, recs[..|recs| - 1]), recs[|recs| - 1])
  }

  /** `r` with `acc` in front of its records. */
  function After(acc: seq<ChunkRec>, r: Result<seq<ChunkRec>>): Result<seq<ChunkRec>>
  {
    match r case Ok(recs) => Ok(acc + recs) case Err(e) => Err(e)
  }

  // ---- fetching ------------------------------------------------------------------------------

  /** `varatt_external`, little-endian, as it lies two bytes into a TOAST pointer datum. */
  datatype Pointer = Pointer(rawsize: int, extsize: int, valueid: nat, toastrelid: nat)

  function PointerAt(s: seq<Byte>, at: nat): Pointer
    requires at + 18 <= |s|
  {
    Pointer(Signed32(Word32(s, at + 2)), Signed32(Word32(s, at + 6)), Word32(s, at + 10), Word32(s, at + 14))
  }

  /** A pointer whose fields fit into their words. */
  predicate ValidPointer(p: Pointer)
  {
    && -0x8000_0000 <= p.rawsize < 0x8000_0000 && -0x8000_0000 <= p.extsize < 0x8000_0000
    && p.valueid < WORD && p.toastrelid < WORD
  }

  /** The TOAST pointer datum: its header, then the four words. */
  function PointerDatum(p: Pointer): (r: seq<Byte>)
    ensures |r| == 18
  {
    Header1BE(18) + Le32(p.rawsize % WORD) + Le32(p.extsize % WORD) + Le32(p.valueid) + Le32(p.toastrelid)
  }

  /** `is_compressed`. */
  predicate IsCompressed(p: Pointer)
  {
    p.extsize < p.rawsize - 4
  }

  function Zeros(n: nat): (r: seq<Byte>)
    ensures |r| == n
  {
    seq(n, _ => 0)
  }

  /** Seek and read `n` bytes into a zeroed buffer: a read past the end of the file fails
      the stream, and a failed stream reads nothing more. */
  function StreamRead(file: seq<Byte>, failed: bool, pos: nat, n: nat): (r: (seq<Byte>, bool))
    ensures |r.0| == n
  {
    if failed then (Zeros(n), true)
    else if n == 0 then ([], false)
    else if pos + n <= |file| then (file[pos..pos + n], false)
    else if pos <= |file| then (file[pos..] + Zeros(n - (|file| - pos)), true)
    else (Zeros(n), true)
  }

  function Total(places: seq<Place>): nat
  {
    if places == [] then 0 else Total(places[..|places| - 1]) + places[|places| - 1].1
  }

  /** The bytes at the given places, one after the other. */
  function Gather(file: seq<Byte>, failed: bool, places: seq<Place>): (r: (seq<Byte>, bool))
    ensures |r.0| == Total(places)
  {
    if places == [] then ([], failed)
    else
      var (head, failed') := Gather(file, failed, places[..|places| - 1]);
      var (last, failed'') := StreamRead(file, failed', places[|places| - 1].0, places[|places| - 1].1);
      (head + last, failed'')
  }

  /** Decompress a datum into a buffer with a kilobyte to spare; a result that begins
      with the give-up marker is taken to be corrupt. */
  function Inflate(mem: seq<Byte>): Result<seq<Byte>>
    requires |mem| >= 8
  {
    var rawsize := Signed32(Word32(mem, 4));
    if rawsize < 0 || rawsize + 1024 >= 0x8000_0000 then Err(BadLength)
    else
      match Decompressed(mem, Zeros(rawsize + 1024))
      case Overread => Err(OutOfBuffer)
      case Aborted => Err(Error.Aborted)
      case Returned(d, _, _) => Unmarked(d, rawsize)
      case GaveUp(d) => Unmarked(d, rawsize)
  }

  function Unmarked(d: seq<Byte>, rawsize: nat): Result<seq<Byte>>
  {
    if |d| < 2 || |d| < rawsize then Err(OutOfBuffer)
    else if d[0] == 99 && d[1] == 99 then Err(Corrupted)
    else Ok(d[..rawsize])
  }

  /** The value of the stored bytes a pointer leads to. The length word given to the
      decompressor holds the raw size, not the stored size. */
  function Unpacked(data: seq<Byte>, p: Pointer): Result<seq<Byte>>
  {
    if !IsCompressed(p) then Ok(data)
    else if |data| < 4 then Err(OutOfBuffer)
    else Inflate(Le32(p.rawsize * 4 % WORD) + data)
  }

  /** `fetch_data`. */
  function Fetched(file: seq<Byte>, failed: bool, m: Index, p: Pointer): Result<seq<Byte>>
  {
    if p.valueid !in m then Err(NotFound)
    else if 4 + Total(m[p.valueid]) >= WORD then Err(AssertFailed)
    else Unpacked(Gather(file, failed, m[p.valueid]).0, p)
  }

  /** The stream's fail bit after the fetch. */
  predicate FetchFails(file: seq<Byte>, failed: bool, m: Index, p: Pointer)
  {
    if p.valueid in m then Gather(file, failed, m[p.valueid]).1 else failed
  }

  /** What `build_bytes` returns for an inline compressed value. */
  const PLACEHOLDER: seq<Byte> := [67, 79, 77, 80, 82, 69, 83, 83, 69, 68]

  /** `build_bytes` of the varlena at `at`, an index being at hand. */
  function BuiltBytes(file: seq<Byte>, failed: bool, m: Index, s: seq<Byte>, at: nat): Result<seq<Byte>>
  {
    if !SizeReadable(s, at) then Err(OutOfBuffer)
    else
      match LenTypeOf(s[at])
      case COMPRESSED => Ok(PLACEHOLDER)
      case TOASTED => if at + 18 > |s| then Err(OutOfBuffer) else Fetched(file, failed, m, PointerAt(s, at))
      case _ =>
        if DataOffset(s[at]) > Size(s, at) || at + Size(s, at) > |s| then Err(OutOfBuffer)
        else Ok(s[at + DataOffset(s[at])..at + Size(s, at)])
  }

  /** The stream's fail bit after `build_bytes`: only a fetch reads the stream. */
  predicate BuildFails(file: seq<Byte>, failed: bool, m: Index, s: seq<Byte>, at: nat)
  {
    if SizeReadable(s, at) && LenTypeOf(s[at]) == TOASTED && at + 18 <= |s| then
      FetchFails(file, failed, m, PointerAt(s, at))
    else failed
  }

  // ---- the imperative code --------------------------------------------------------------------

  /** Drop the first four of `size` cells by moving every cell down, four at a time but
      advancing by one. Three cells beyond are read, and do not matter. */
  method ShiftDown(result: array<Byte>, size: nat)
    requires 4 <= size && size + 3 <= result.Length
    modifies result
    ensures forall k :: 0 <= k < size - 4 ==> result[k] == old(result[k + 4])
  {
    var i := 0;
    while i < size - 4
      invariant 0 <= i <= size - 4
      invariant forall k :: 0 <= k < i ==> result[k] == old(result[k + 4])
      invariant forall k :: (if i == 0 then 0 else i + 3) <= k < size + 3 ==> result[k] == old(result[k])
    {
      result[i + 0] := result[i + 0 + 4];
      result[i + 1] := result[i + 1 + 4];
      result[i + 2] := result[i + 2 + 4];
      result[i + 3] := result[i + 3 + 4];
      i := i + 1;
    }
  }

  /** The pages of a file, one after the other. */
  class PageIterator {
    const file: seq<Byte>
    const end: nat
    var it: nat

    ghost predicate Valid()
      reads this
    {
      it <= end && PAGE_SIZE * end <= |file|
    }

    constructor (f: seq<Byte>)
      ensures Valid() && file == f && it == 0 && end == |f| % WORD / PAGE_SIZE
    {
      file, end, it := f, |f| % WORD / PAGE_SIZE, 0;
    }

    /** The next page, or none at the end. */
    method Next() returns (more: bool, page: seq<Byte>)
      requires Valid()
      modifies this
      ensures Valid() && more == (old(it) < end)
      ensures more ==> it == old(it) + 1 && page == PageOf(file, old(it))
      ensures !more ==> it == old(it)
    {
      more, page := it < end, [];
      if more {
        page := file[PAGE_SIZE * it..PAGE_SIZE * (it + 1)];
        it := it + 1;
      }
    }
  }

  class ToastMap {
    var positions: Index
    const file: seq<Byte>
    /** The stream's fail bit. */
    var failed: bool

    constructor (f: seq<Byte>)
      ensures positions == map[] && file == f && !failed
    {
      positions, file, failed := map[], f, false;
    }

    /** File one chunk, growing its value's vector as needed. */
    method Record(chunkId: nat, chunkSeq: nat, pos: nat, len: nat)
      modifies this`positions
      ensures positions == Insert(old(positions), ChunkRec(chunkId, chunkSeq, pos, len))
    {
      var data := if chunkId in positions then positions[chunkId] else [];
      if |data| <= chunkSeq {
        data := Grown(data, chunkSeq + 1);
      }
      data := data[chunkSeq := (pos, len)];
      positions := positions[chunkId := data];
    }

    /** The tuple at `off`, walked attribute by attribute. */
    method AddTuple(page: seq<Byte>, pagePos: nat, off: nat) returns (r: Result<()>)
      modifies this`positions
      ensures match ReadTuple(page, pagePos, off)
              case Chunk(rec) => r.Ok? && positions == Insert(old(positions), rec)
              case Fault(e) => r == Err(e) && positions == old(positions)
              case Skip => false
    {
      hide Word32, Size, DataOffset, HasAttribute, LenTypeOf, Insert;
      if !HeaderReadable(page, off) {
        return Err(OutOfBuffer);
      }
      if !(HasAttribute(page, off, 0) && HasAttribute(page, off, 1) && HasAttribute(page, off, 2)) {
        return Err(AssertFailed);
      }
      var hoff := page[off + 22] as int;
      var base := off + hoff;
      if !SizeReadable(page, base + 8) {
        return Err(OutOfBuffer);
      }
      var pos := 0;
      var chunkId := Word32(page, base + pos + WordPadding(pos));
      pos := pos + 4 + WordPadding(pos);
      var chunkSeq := Word32(page, base + pos + WordPadding(pos));
      pos := pos + 4 + WordPadding(pos);
      var chunkData := base + pos;
      if chunkSeq == WORD - 1 {
        return Err(OutOfBuffer);
      }
      var dataOffset := DataOffset(page[chunkData]);
      Record(chunkId, chunkSeq, (PAGE_SIZE * pagePos + off + hoff + 8 + dataOffset) % WORD,
             (Size(page, chunkData) - dataOffset) % WORD);
      r := Ok(());
    }

    method AddItem(page: seq<Byte>, pagePos: nat, i: nat) returns (r: Result<()>)
      requires |page| == PAGE_SIZE
      modifies this`positions
      ensures match ReadItem(page, pagePos, i)
              case Skip => r.Ok? && positions == old(positions)
              case Chunk(rec) => r.Ok? && positions == Insert(old(positions), rec)
              case Fault(e) => r == Err(e)
    {
      r := Ok(());
      if LINP + 4 * i + 4 > PAGE_SIZE {
        return Err(OutOfBuffer);
      }
      var itemid := ItemIdOf(Word32(page, LINP + 4 * i));
      if itemid.flags != LP_NORMAL {
      } else if itemid.len == 0 {
      } else if itemid.off > PAGE_SIZE {
      } else if itemid.off + itemid.len > PAGE_SIZE {
      } else {
        r := AddTuple(page, pagePos, itemid.off);
      }
    }

    method AddPage(page: seq<Byte>, pagePos: nat) returns (r: Result<()>)
      requires |page| == PAGE_SIZE
      modifies this`positions
      ensures match ItemidCount(Word16(page, 12))
              case Err(e) => r == Err(e)
              case Ok(count) =>
                (match ScanItems(page, pagePos, 0, count)
                 case Ok(recs) => r.Ok? && positions == InsertAll(old(positions), recs)
                 case Err(e) => r == Err(e))
    {
      hide ReadItem, Word16, Insert;
      var count := ItemidCount(Word16(page, 12));
      if count.Err? {
        return Err(count.error);
      }
      ghost var acc: seq<ChunkRec> := [];
      ghost var all := ScanItems(page, pagePos, 0, count.value);
      AfterNone(acc, all);
      var i := 0;
      while i < count.value
        invariant i <= count.value
        invariant all == After(acc, ScanItems(page, pagePos, i, count.value))
        invariant positions == InsertAll(old(positions), acc)
      {
        r := AddItem(page, pagePos, i);
        if r.Err? {
          return;
        }
        if ReadItem(page, pagePos, i).Chunk? {
          ghost var rec := ReadItem(page, pagePos, i).rec;
          AfterOne(acc, rec, ScanItems(page, pagePos, i + 1, count.value));
          assert (acc + [rec])[..|acc|] == acc;
          acc := acc + [rec];
        }
        i := i + 1;
      }
      AfterNone(acc, all);
      r := Ok(());
    }

    /** `fill_toast_map`: on a readable file, the index gains every chunk of the file in order. */
    method FillToastMap() returns (r: Result<()>)
      modifies this`positions
      ensures match Scan(file)
              case Ok(recs) => r.Ok? && positions == InsertAll(old(positions), recs)
              case Err(e) => r == Err(e)
    {
      hide ScanPage, InsertAll;
      if |file| % WORD % PAGE_SIZE != 0 {
        return Err(Misaligned);
      }
      var it := new PageIterator(file);
      var pagePos := 0;
      ghost var acc: seq<ChunkRec> := [];
      ghost var all := ScanPages(file, 0, it.end);
      AfterNone(acc, all);
      assert positions == InsertAll(old(positions), acc) by { NothingInserted(positions); }
      var more, page := it.Next();
      while more
        invariant it.Valid() && fresh(it) && it.file == file && it.it == pagePos + (if more then 1 else 0)
        invariant it.end == |file| % WORD / PAGE_SIZE
        invariant more ==> page == PageOf(file, pagePos)
        invariant !more ==> pagePos == it.end
        invariant all == After(acc, ScanPages(file, pagePos, it.end))
        invariant positions == InsertAll(old(positions), acc)
        decreases it.end - pagePos, more
      {
        ghost var here := ScanPage(file, pagePos);
        ScanPageIs(file, pagePos);
        r := AddPage(page, pagePos);
        if r.Err? {
          return;
        }
        AfterMany(acc, here.value, ScanPages(file, pagePos + 1, it.end));
        InsertAllAppend(old(positions), acc, here.value);
        acc := acc + here.value;
        pagePos := pagePos + 1;
        more, page := it.Next();
      }
      AfterNone(acc, all);
      r := Ok(());
    }

    /** Read `n` bytes at `pos`. */
    method Read(pos: nat, n: nat) returns (bytes: seq<Byte>)
      modifies this`failed
      ensures (bytes, failed) == StreamRead(file, old(failed), pos, n)
    {
      bytes, failed := StreamRead(file, failed, pos, n).0, StreamRead(file, failed, pos, n).1;
    }

    /** Read all chunks into `result`, behind the four bytes kept for a length word. */
    method ReadChunks(datas: seq<Place>, result: array<Byte>, size: nat) returns (r: Result<()>)
      requires size < WORD && size <= result.Length
      requires forall k :: 0 <= k < size ==> result[k] == 0
      modifies result, this`failed
      ensures r == if 4 + Total(datas) == size then Ok(()) else Err(AssertFailed)
      ensures r.Ok? ==> (result[4..size], failed) == Gather(file, old(failed), datas)
    {
      var pos := 4;
      var i := 0;
      while i < |datas|
        invariant 0 <= i <= |datas| && pos == 4 + Total(datas[..i])
        invariant i > 0 ==> pos <= size
        invariant i > 0 ==> (result[4..pos], failed) == Gather(file, old(failed), datas[..i])
        invariant i == 0 ==> failed == old(failed)
      {
        assert datas[..i + 1][..i] == datas[..i];
        TotalMonotone(datas, i + 1);
        if pos + datas[i].1 > size {
          return Err(AssertFailed);
        }
        ghost var before := result[..];
        var bytes := Read(datas[i].0, datas[i].1);
        forall k | 0 <= k < |bytes| {
          result[pos + k] := bytes[k];
        }
        Appended(before, result[..], pos, bytes);
        pos := pos + |bytes|;
        i := i + 1;
      }
      assert datas[..i] == datas;
      if pos != size {
        return Err(AssertFailed);
      }
      r := Ok(());
    }

    /** The buffer size: four bytes more than all chunks, in `unsigned` arithmetic. */
    method SumSizes(datas: seq<Place>) returns (size: nat)
      ensures size == (4 + Total(datas)) % WORD
    {
      size := 4;
      var i := 0;
      while i < |datas|
        invariant 0 <= i <= |datas| && size == (4 + Total(datas[..i])) % WORD
      {
        assert datas[..i + 1][..i] == datas[..i];
        size := (size + datas[i].1) % WORD;
        i := i + 1;
      }
      assert datas[..i] == datas;
    }

    /** Hand the buffer to the decompressor, its length word set from the raw size. */
    method InflateBuffer(mem: seq<Byte>) returns (r: Result<seq<Byte>>)
      requires |mem| >= 8
      ensures r == Inflate(mem)
    {
      hide Decompressed, Word32;
      var rawsize := Signed32(Word32(mem, 4));
      if rawsize < 0 || rawsize + 1024 >= 0x8000_0000 {
        return Err(BadLength);
      }
      var decompressed := new Byte[rawsize + 1024](_ => 0);
      assert decompressed[..] == Zeros(rawsize + 1024);
      if Decompressed(mem, decompressed[..]).Overread? {
        return Err(OutOfBuffer);
      }
      var status := Decompress(mem, decompressed);
      if status == Abort {
        return Err(Error.Aborted);
      }
      if decompressed[0] == 99 && decompressed[1] == 99 {
        return Err(Corrupted);
      }
      r := Ok(decompressed[..rawsize]);
    }

    /** `fetch_data`. */
    method FetchData(pointer: Pointer) returns (r: Result<seq<Byte>>)
      modifies this`failed
      ensures r == Fetched(file, old(failed), positions, pointer)
      ensures r != Err(AssertFailed) ==> failed == FetchFails(file, old(failed), positions, pointer)
    {
      hide Gather, Inflate, Le32, Total;
      if pointer.valueid !in positions {
        return Err(NotFound);
      }
      var datas := positions[pointer.valueid];
      var size := SumSizes(datas);
      var result := new Byte[size + 3];
      forall k | 0 <= k < size {
        result[k] := 0;
      }
      var read := ReadChunks(datas, result, size);
      if read.Err? {
        return Err(AssertFailed);
      }
      ghost var data := Gather(file, old(failed), datas).0;
      if !IsCompressed(pointer) {
        ghost var before := result[..];
        assert forall k :: 0 <= k < size - 4 ==> before[k + 4] == before[4..size][k];
        ShiftDown(result, size);
        assert result[..size - 4] == data;
        return Ok(result[..size - 4]);
      }
      if size < 8 {
        return Err(OutOfBuffer);
      }
      var word := Le32(pointer.rawsize * 4 % WORD);
      r := InflateBuffer(word + result[4..size]);
    }

    /** `build_bytes`: follow a TOAST pointer, or copy the data byte by byte. */
    method BuildBytes(s: seq<Byte>, at: nat) returns (r: Result<seq<Byte>>)
      modifies this`failed
      ensures r == BuiltBytes(file, old(failed), positions, s, at)
      ensures r != Err(AssertFailed) ==> failed == BuildFails(file, old(failed), positions, s, at)
    {
      hide Fetched, FetchFails, Word32;
      if !SizeReadable(s, at) {
        return Err(OutOfBuffer);
      }
      var size, data := Size(s, at), at;
      match LenTypeOf(s[at]) {
        case COMPRESSED => return Ok(PLACEHOLDER);
        case TOASTED =>
          if at + 18 > |s| {
            return Err(OutOfBuffer);
          }
          r := FetchData(PointerAt(s, at));
          return;
        case NORMAL => data := data + 4; size := size - 4;
        case ONE_BYTE => data := data + 1; size := size - 1;
      }
      if size < 0 || data + size > |s| {
        return Err(OutOfBuffer);
      }
      var bytes: seq<Byte> := [];
      var i := 0;
      while i < size
        invariant 0 <= i <= size && bytes == s[data..data + i]
      {
        bytes := bytes + [s[data + i]];
        i := i + 1;
      }
      r := Ok(bytes);
    }
  }

  // ---- small facts about buffers and lists of records ------------------------------------------------

  /** Writing behind the bytes from 4 up to `pos`. */
  lemma Appended(before: seq<Byte>, after: seq<Byte>, pos: nat, bytes: seq<Byte>)
    requires 4 <= pos && pos + |bytes| <= |before| == |after|
    requires forall k :: 4 <= k < pos ==> after[k] == before[k]
    requires forall k :: 0 <= k < |bytes| ==> after[pos + k] == bytes[k]
    ensures after[4..pos + |bytes|] == before[4..pos] + bytes
  {
    assert after[4..pos] == before[4..pos];
    assert after[pos..pos + |bytes|] == bytes;
  }

  lemma AfterNone(acc: seq<ChunkRec>, r: Result<seq<ChunkRec>>)
    ensures After([], r) == r && After(acc, Ok([])) == Ok(acc)
  {
    if r.Ok? { assert [] + r.value == r.value; }
    assert acc + [] == acc;
  }

  lemma AfterOne(acc: seq<ChunkRec>, rec: ChunkRec, r: Result<seq<ChunkRec>>)
    ensures After(acc, After([rec], r)) == After(acc + [rec], r)
  {
    if r.Ok? { assert acc + ([rec] + r.value) == (acc + [rec]) + r.value; }
  }

  lemma AfterMany(acc: seq<ChunkRec>, recs: seq<ChunkRec>, r: Result<seq<ChunkRec>>)
    ensures After(acc, After(recs, r)) == After(acc + recs, r)
  {
    if r.Ok? { assert acc + (recs + r.value) == (acc + recs) + r.value; }
  }

  lemma NothingInserted(m: Index)
    ensures InsertAll(m, []) == m
  {
  }

  lemma {:induction false} InsertAllAppend(m: Index, a: seq<ChunkRec>, b: seq<ChunkRec>)
    ensures InsertAll(InsertAll(m, a), b) == InsertAll(m, a + b)
  {
    hide Insert;
    if b == [] {
      assert a + b == a;
    } else {
      var n := |b| - 1;
      InsertAllAppend(m, a, b[..n]);
      assert (a + b)[..|a + b| - 1] == a + b[..n] && (a + b)[|a + b| - 1] == b[n];
    }
  }

  lemma ScanPageIs(file: seq<Byte>, pageNo: nat)
    requires PAGE_SIZE * (pageNo + 1) <= |file|
    ensures ScanPage(file, pageNo)
         == (match ItemidCount(Word16(PageOf(file, pageNo), 12))
             case Err(e) => Err(e)
             case Ok(count) => ScanItems(PageOf(file, pageNo), pageNo, 0, count))
  {
  }

  lemma {:induction false} TotalMonotone(places: seq<Place>, n: nat)
    requires n <= |places|
    ensures Total(places[..n]) <= Total(places)
    decreases |places|
  {
    if n < |places| {
      var shorter := places[..|places| - 1];
      TotalMonotone(shorter, n);
      assert shorter[..n] == places[..n];
    } else {
      assert places[..n] == places;
    }
  }
}
