/** A whole run: the file is indexed once, then one datum after the other is built over the same stream. */
module ToastRun {
  import opened Bytes
  import opened Wrappers
  import opened Varlena
  import opened Decoder
  import opened DecoderTheory
  import opened Compressor
  import opened Page
  import opened PageTheory
  import opened Toast
  import opened ToastTheory

  // ---- datums stored well ------------------------------------------------------------------------

  /** What a datum in a row stands for: data in place, or a value in chunks. */
  datatype Datum = Plain(data: seq<Byte>, short: bool)
                 | OutOfLine(p: Pointer, chunks: seq<seq<Byte>>, value: seq<Byte>, strategy: Option<Strategy>)

  /** The bytes at `at` are the datum, and its chunks, if any, are in the pages. */
  ghost predicate Stored(pages: seq<seq<Item>>, s: seq<Byte>, at: nat, d: Datum)
  {
    match d
    case Plain(data, short) =>
      var n := |PlainHeader(|data|, short) + data|;
      && |data| + 4 < 0x4000_0000 && (short ==> |data| + 1 <= 127)
      && at + n <= |s| && s[at..at + n] == PlainHeader(|data|, short) + data
    case OutOfLine(p, chunks, value, strategy) =>
      && Numbered(AllLive(pages), p.valueid, chunks) && chunks != []
      && StoredAs(value, strategy, Concat(chunks), p) && ValidPointer(p)
      && at + 18 <= |s| && s[at..at + 18] == PointerDatum(p)
  }

  /** What is to come out: the data or the value, unless the decompressed value begins with the marker. */
  function Answer(d: Datum): Result<seq<Byte>>
  {
    match d
    case Plain(data, _) => Ok(data)
    case OutOfLine(p, _, value, _) => if IsCompressed(p) && BeginsMarked(value) then Err(Corrupted) else Ok(value)
  }

  lemma PlainAnswered(file: seq<Byte>, m: Index, s: seq<Byte>, at: nat, data: seq<Byte>, short: bool)
    requires |data| + 4 < 0x4000_0000 && (short ==> |data| + 1 <= 127)
    requires at + |PlainHeader(|data|, short) + data| <= |s|
    requires s[at..at + |PlainHeader(|data|, short) + data|] == PlainHeader(|data|, short) + data
    ensures BuiltBytes(file, false, m, s, at) == Ok(data) && !BuildFails(file, false, m, s, at)
  {
    hide PlainHeader, Size, BuiltBytes;
    PlainIsCopied(file, false, m, s, at, data, short);
    var head := PlainHeader(|data|, short);
    Cut(s[..at + |head + data|], at, head, data);
    HeaderReadBack(s, at, |data|, short);
  }

  lemma OutOfLineAnswered(file: seq<Byte>, pages: seq<seq<Item>>, s: seq<Byte>, at: nat, p: Pointer,
                          chunks: seq<seq<Byte>>, value: seq<Byte>, strategy: Option<Strategy>)
    requires HoldsFile(file, pages) && Numbered(AllLive(pages), p.valueid, chunks) && chunks != []
    requires StoredAs(value, strategy, Concat(chunks), p) && ValidPointer(p)
    requires at + 18 <= |s| && s[at..at + 18] == PointerDatum(p)
    ensures Scan(file).Ok?
    ensures var m := InsertAll(map[], Scan(file).value);
            && BuiltBytes(file, false, m, s, at) == Answer(OutOfLine(p, chunks, value, strategy))
            && !BuildFails(file, false, m, s, at)
  {
    hide HoldsFile, Scan, InsertAll, Numbered, StoredAs, Gather, BuiltBytes, PointerDatum, Concat;
    DatumReadsBack(file, pages, chunks, value, strategy, p, s, at);
    PointerReadBack(s, at, p);
    var m := ChunksFetched(file, pages, p.valueid, chunks);
  }

  /** A datum stored well is answered right over a good stream, and leaves the stream good. */
  lemma DatumAnswered(file: seq<Byte>, pages: seq<seq<Item>>, s: seq<Byte>, at: nat, d: Datum)
    requires HoldsFile(file, pages) && Stored(pages, s, at, d)
    ensures Scan(file).Ok? && Answer(d) != Err(AssertFailed)
    ensures var m := InsertAll(map[], Scan(file).value);
            BuiltBytes(file, false, m, s, at) == Answer(d) && !BuildFails(file, false, m, s, at)
  {
    hide HoldsFile, Scan, InsertAll, Numbered, StoredAs, BuiltBytes, BuildFails, PointerDatum, Concat, PlainHeader;
    var recs := ScanFindsAll(file, pages);
    match d {
      case Plain(data, short) =>
        PlainAnswered(file, InsertAll(map[], recs), s, at, data, short);
      case OutOfLine(p, chunks, value, strategy) =>
        OutOfLineAnswered(file, pages, s, at, p, chunks, value, strategy);
    }
  }

  /** The whole run: every datum is answered right, rejected ones among them. */
  method Dump(file: seq<Byte>, datums: seq<(seq<Byte>, nat)>, ghost pages: seq<seq<Item>>, ghost stored: seq<Datum>)
    returns (answers: seq<Result<seq<Byte>>>)
    requires HoldsFile(file, pages) && |stored| == |datums|
    requires forall k :: 0 <= k < |datums| ==> Stored(pages, datums[k].0, datums[k].1, stored[k])
    ensures |answers| == |datums| && forall k :: 0 <= k < |datums| ==> answers[k] == Answer(stored[k])
  {
    hide HoldsFile, Scan, InsertAll, Stored, BuiltBytes, BuildFails, Answer;
    var toast := new ToastMap(file);
    ghost var recs := ScanFindsAll(file, pages);
    var filled := toast.FillToastMap();
    answers := [];
    var i := 0;
    while i < |datums|
      invariant 0 <= i == |answers| <= |datums| && fresh(toast) && toast.file == file
      invariant !toast.failed && toast.positions == InsertAll(map[], recs)
      invariant forall k :: 0 <= k < i ==> answers[k] == Answer(stored[k])
    {
      DatumAnswered(file, pages, datums[i].0, datums[i].1, stored[i]);
      var r := toast.BuildBytes(datums[i].0, datums[i].1);
      answers := answers + [r];
      i := i + 1;
    }
  }

  /** An inline compressed value is answered with the word COMPRESSED. */
  lemma InlineCompressed(file: seq<Byte>, failed: bool, m: Index, s: seq<Byte>, at: nat)
    requires at + 4 <= |s| && s[at] % 4 == 2
    ensures BuiltBytes(file, failed, m, s, at) == Ok([67, 79, 77, 80, 82, 69, 83, 83, 69, 68])
  {
    hide Fetched, PointerAt, Size;
  }

  // ---- when the stream breaks ------------------------------------------------------------------------

  /** Reading the place runs past the end of the file. */
  predicate Overruns(file: seq<Byte>, place: Place)
  {
    place.1 > 0 && place.0 + place.1 > |file|
  }

  /** What a read over a good stream leaves in the buffer: the file's bytes as far as they go, then
      zeros. */
  lemma ReadBytes(file: seq<Byte>, pos: nat, n: nat, k: nat)
    requires k < n
    ensures StreamRead(file, false, pos, n).0[k] == if pos + k < |file| then file[pos + k] else 0
  {
  }

  /** A good stream breaks exactly when some place read runs past the end of the file. */
  lemma {:induction false} GatherFailsIff(file: seq<Byte>, places: seq<Place>)
    ensures Gather(file, false, places).1 <==> exists k :: 0 <= k < |places| && Overruns(file, places[k])
  {
    if places != [] {
      var n := |places| - 1;
      var init := places[..n];
      GatherFailsIff(file, init);
      if k :| 0 <= k < |init| && Overruns(file, init[k]) {
        assert Overruns(file, places[k]);
      } else if Overruns(file, places[n]) {
      } else {
        assert forall k :: 0 <= k < n ==> places[k] == init[k];
      }
    }
  }

  /** A broken stream stays broken and reads zeros only. */
  lemma {:induction false} GatherBroken(file: seq<Byte>, places: seq<Place>)
    ensures Gather(file, true, places) == (Zeros(Total(places)), true)
  {
    if places != [] {
      var n := |places| - 1;
      GatherBroken(file, places[..n]);
      assert Zeros(Total(places[..n])) + Zeros(places[n].1) == Zeros(Total(places));
    }
  }

  /** What becomes of every later value, without any error: a plain one is all zeros, a compressed
      one is empty. */
  lemma FetchedBroken(file: seq<Byte>, m: Index, p: Pointer)
    requires p.valueid in m && 4 + Total(m[p.valueid]) < WORD
    ensures var n := Total(m[p.valueid]);
            Fetched(file, true, m, p)
            == if !IsCompressed(p) then Ok(Zeros(n)) else if n < 4 then Err(OutOfBuffer) else Ok([])
  {
    var n := Total(m[p.valueid]);
    GatherBroken(file, m[p.valueid]);
    hide Gather, Total;
    if IsCompressed(p) && n >= 4 {
      ZerosInflate(Le32(p.rawsize * 4 % WORD), n);
    }
  }

  /** A raw size of zero asks for nothing. */
  lemma ZerosInflate(word: seq<Byte>, n: nat)
    requires |word| == 4 && n >= 4
    ensures Inflate(word + Zeros(n)) == Ok([])
  {
    var mem := word + Zeros(n);
    assert mem[4] == 0 && mem[5] == 0 && mem[6] == 0 && mem[7] == 0;
    assert Word32(mem, 4) == 0;
    hide Word32;
    assert Decompressed(mem, Zeros(1024)) == Returned(Zeros(1024), 0, 8);
  }

  /** The fail bit after fetching the values in turn. */
  predicate RunFails(file: seq<Byte>, m: Index, ps: seq<Pointer>)
  {
    ps != [] && FetchFails(file, RunFails(file, m, ps[..|ps| - 1]), m, ps[|ps| - 1])
  }

  /** Some chunk of the value overruns. */
  ghost predicate Breaks(file: seq<Byte>, m: Index, p: Pointer)
  {
    p.valueid in m && exists k :: 0 <= k < |m[p.valueid]| && Overruns(file, m[p.valueid][k])
  }

  /** In a run of fetches the stream is broken exactly from the first value on that has a chunk
      recorded past the end of the file. */
  lemma {:induction false} RunFailsIff(file: seq<Byte>, m: Index, ps: seq<Pointer>)
    ensures RunFails(file, m, ps) <==> exists j :: 0 <= j < |ps| && Breaks(file, m, ps[j])
  {
    hide Gather, Breaks;
    if ps != [] {
      var n := |ps| - 1;
      var init := ps[..n];
      RunFailsIff(file, m, init);
      assert forall j :: 0 <= j < n ==> ps[j] == init[j];
      FetchFailsIff(file, RunFails(file, m, init), m, ps[n]);
    }
  }

  lemma FetchFailsIff(file: seq<Byte>, failed: bool, m: Index, p: Pointer)
    ensures FetchFails(file, failed, m, p) <==> failed || Breaks(file, m, p)
  {
    if p.valueid in m {
      if failed { GatherBroken(file, m[p.valueid]); } else { GatherFailsIff(file, m[p.valueid]); }
    }
  }

  // ---- a file on which it breaks -------------------------------------------------------------------------

  /** A page with two chunk tuples: value 7, whose header claims more than the file holds, in the
      last 33 bytes, and value 8, four sound bytes, at 8000. */
  function CorruptByte(i: nat): Byte
  {
    match i
    case 12 => 32
    case 24 => 223 case 25 => 159 case 26 => 66
    case 28 => 64 case 29 => 159 case 30 => 74
    case 8022 => 24 case 8024 => 8 case 8032 => 11
    case 8033 => 1 case 8034 => 2 case 8035 => 3 case 8036 => 4
    case 8181 => 24 case 8183 => 7 case 8191 => 255
    case _ => 0
  }

  function CorruptFile(): (r: seq<Byte>)
    ensures |r| == PAGE_SIZE
  {
    seq(PAGE_SIZE, i requires 0 <= i < PAGE_SIZE => CorruptByte(i))
  }

  const SEVEN := ChunkRec(7, 0, 8192, 126)
  const EIGHT := ChunkRec(8, 0, 8033, 4)

  /** Four consecutive bytes, and the word they make. */
  lemma WordAt(page: seq<Byte>, at: nat, a: Byte, b: Byte, c: Byte, d: Byte)
    requires at + 4 <= |page| && page[at] == a && page[at + 1] == b && page[at + 2] == c && page[at + 3] == d
    ensures Word32(page, at) == (a as int) + 256 * (b as int) + 65536 * (c as int) + 16777216 * (d as int)
  {
  }

  lemma CorruptPointers(page: seq<Byte>)
    requires page == CorruptFile()
    ensures Word32(page, 24) == 4366303 && Word32(page, 28) == 4890432 && Word16(page, 12) == 32
  {
    WordAt(page, 24, 223, 159, 66, 0);
    WordAt(page, 28, 64, 159, 74, 0);
    hide Word32;
  }

  lemma CorruptSeven(page: seq<Byte>)
    requires page == CorruptFile()
    ensures ReadTuple(page, 0, 8159) == Chunk(SEVEN)
  {
    WordAt(page, 8183, 7, 0, 0, 0);
    WordAt(page, 8187, 0, 0, 0, 0);
    assert page[8179] == 0 && page[8181] == 24 && page[8191] == 255;
    hide Word32, CorruptFile, CorruptByte;
  }

  lemma CorruptEight(page: seq<Byte>)
    requires page == CorruptFile()
    ensures ReadTuple(page, 0, 8000) == Chunk(EIGHT)
  {
    WordAt(page, 8024, 8, 0, 0, 0);
    WordAt(page, 8028, 0, 0, 0, 0);
    assert page[8020] == 0 && page[8022] == 24 && page[8032] == 11;
    hide Word32, CorruptFile, CorruptByte;
  }

  lemma CorruptItems(page: seq<Byte>)
    requires page == CorruptFile()
    ensures ReadItem(page, 0, 0) == Chunk(SEVEN) && ReadItem(page, 0, 1) == Chunk(EIGHT)
  {
    hide Word32, CorruptFile, ReadTuple, ItemIdOf, Word16;
    CorruptPointers(page);
    CorruptSeven(page);
    CorruptEight(page);
    ItemIdIs(8159, 1, 33);
    ItemIdIs(8000, 1, 37);
  }

  lemma ScanOne(page: seq<Byte>, pageNo: nat, i: nat, count: nat, rec: ChunkRec, rest: seq<ChunkRec>,
                all: seq<ChunkRec>)
    requires |page| == PAGE_SIZE && i < count && ReadItem(page, pageNo, i) == Chunk(rec)
    requires ScanItems(page, pageNo, i + 1, count) == Ok(rest) && all == [rec] + rest
    ensures ScanItems(page, pageNo, i, count) == Ok(all)
  {
    hide ReadItem;
  }

  lemma ScanSinglePage(file: seq<Byte>, recs: seq<ChunkRec>)
    requires |file| == PAGE_SIZE && ScanPage(file, 0) == Ok(recs)
    ensures Scan(file) == Ok(recs)
  {
    hide ScanPage;
    assert ScanPages(file, 1, 1) == Ok([]);
    assert recs + [] == recs;
  }

  lemma CorruptScan(file: seq<Byte>)
    requires file == CorruptFile()
    ensures Scan(file) == Ok([SEVEN, EIGHT])
  {
    hide ReadItem, Word16, Word32, CorruptFile, Scan, ScanItems, PageOf;
    CorruptPointers(file);
    CorruptItems(file);
    OnlyPage(file);
    ScanOne(file, 0, 1, 2, EIGHT, [], [EIGHT]);
    ScanOne(file, 0, 0, 2, SEVEN, [EIGHT], [SEVEN, EIGHT]);
    assert ItemidCount(32) == Ok(2);
    ScanSinglePage(file, [SEVEN, EIGHT]);
  }

  lemma OnlyPage(file: seq<Byte>)
    requires |file| == PAGE_SIZE
    ensures PageOf(file, 0) == file && ScanItems(file, 0, 2, 2) == Ok([])
  {
  }

  lemma CorruptIndex()
    ensures var m := InsertAll(map[], [SEVEN, EIGHT]);
            7 in m && m[7] == [(8192, 126)] && 8 in m && m[8] == [(8033, 4)]
  {
    var one := [SEVEN];
    assert one[..0] == [] && [SEVEN, EIGHT][..1] == one;
    assert InsertAll(map[], one) == Insert(map[], SEVEN);
    assert InsertAll(map[], [SEVEN, EIGHT]) == Insert(Insert(map[], SEVEN), EIGHT);
    hide InsertAll;
  }

  /** A value of a single chunk. */
  lemma SingleChunk(file: seq<Byte>, failed: bool, place: Place)
    ensures Gather(file, failed, [place]) == StreamRead(file, failed, place.0, place.1)
    ensures Total([place]) == place.1
  {
    assert [place][..0] == [];
    assert Gather(file, failed, []) == ([], failed) && Total([]) == 0;
    assert [] + StreamRead(file, failed, place.0, place.1).0 == StreamRead(file, failed, place.0, place.1).0;
  }

  /** Value 8 reads back as it is, until value 7 has been fetched; then it is four zeros, and no
      error is reported. */
  lemma CorruptFileBreaks()
    ensures Scan(CorruptFile()) == Ok([SEVEN, EIGHT])
    ensures var file := CorruptFile();
            var m := InsertAll(map[], Scan(file).value);
            var seven, eight := Pointer(130, 126, 7, 0), Pointer(8, 4, 8, 0);
            && Fetched(file, false, m, eight) == Ok([1, 2, 3, 4])
            && Fetched(file, false, m, seven).Ok? && RunFails(file, m, [seven])
            && Fetched(file, true, m, eight) == Ok([0, 0, 0, 0])
  {
    var file := CorruptFile();
    assert file[8033..8037] == [1, 2, 3, 4];
    CorruptScan(file);
    CorruptIndex();
    hide CorruptFile, Scan, InsertAll;
    SingleChunk(file, false, (8192, 126));
    SingleChunk(file, false, (8033, 4));
    SingleChunk(file, true, (8033, 4));
    hide Gather, Total;
    assert Zeros(4) == [0, 0, 0, 0];
    var seven := Pointer(130, 126, 7, 0);
    assert [seven][..0] == [];
    assert !RunFails(file, InsertAll(map[], [SEVEN, EIGHT]), []);
  }
}
