/** A value stored out of line is fetched back. */
module ToastTheory {
  import opened Bytes
  import opened Format
  import opened Varlena
  import opened Wrappers
  import opened Match
  import opened Writer
  import opened Decoder
  import opened DecoderTheory
  import opened Compressor
  import opened RoundTrip
  import opened Page
  import opened PageTheory
  import opened Toast

  // ---- what the index holds ------------------------------------------------------------------

  /** One more than the largest sequence number recorded for value `v`. */
  function Length(recs: seq<ChunkRec>, v: nat): nat
  {
    if recs == [] then 0
    else
      var n, last := Length(recs[..|recs| - 1], v), recs[|recs| - 1];
      if last.id == v && last.chunkSeq >= n then last.chunkSeq + 1 else n
  }

  /** The last place recorded for chunk `k` of value `v`; a hole is (0, 0). */
  function Last(recs: seq<ChunkRec>, v: nat, k: nat): Place
  {
    if recs == [] then (0, 0)
    else
      var last := recs[|recs| - 1];
      if last.id == v && last.chunkSeq == k then (last.pos, last.len) else Last(recs[..|recs| - 1], v, k)
  }

  lemma {:induction false} HoleBeyond(recs: seq<ChunkRec>, v: nat, k: nat)
    requires k >= Length(recs, v)
    ensures Last(recs, v, k) == (0, 0)
  {
    if recs != [] { HoleBeyond(recs[..|recs| - 1], v, k); }
  }

  /** The index maps each recorded value to its chunks' places, whatever order they came in. */
  lemma {:induction false} IndexHolds(recs: seq<ChunkRec>, v: nat)
    ensures var m := InsertAll(map[], recs);
            && (v in m <==> Length(recs, v) > 0)
            && (v in m ==> |m[v]| == Length(recs, v) && forall k :: 0 <= k < |m[v]| ==> m[v][k] == Last(recs, v, k))
  {
    if recs != [] {
      var init, last := recs[..|recs| - 1], recs[|recs| - 1];
      IndexHolds(init, v);
      if last.id == v {
        forall k | Length(init, v) <= k ensures Last(init, v, k) == (0, 0) { HoleBeyond(init, v, k); }
      }
    }
  }

  // ---- a value among the chunks ------------------------------------------------------------------

  function Concat(chunks: seq<seq<Byte>>): seq<Byte>
  {
    if chunks == [] then [] else Concat(chunks[..|chunks| - 1]) + chunks[|chunks| - 1]
  }

  /** Among the tuples, those of value `v` are exactly its chunks, numbered from 0,
      in any order and between any others. */
  ghost predicate Numbered(tuples: seq<Tuple>, v: nat, chunks: seq<seq<Byte>>)
  {
    && (forall j :: 0 <= j < |tuples| && tuples[j].id == v ==>
          tuples[j].chunkSeq < |chunks| && tuples[j].data == chunks[tuples[j].chunkSeq])
    && forall k :: 0 <= k < |chunks| ==> IsStored(tuples, v, k)
  }

  ghost predicate IsStored(tuples: seq<Tuple>, v: nat, k: nat)
  {
    exists j :: 0 <= j < |tuples| && tuples[j].id == v && tuples[j].chunkSeq == k
  }

  lemma {:induction false} LengthIs(file: seq<Byte>, recs: seq<ChunkRec>, tuples: seq<Tuple>, v: nat, n: nat)
    requires AllRecords(file, recs, tuples)
    requires forall j :: 0 <= j < |tuples| && tuples[j].id == v ==> tuples[j].chunkSeq < n
    ensures Length(recs, v) <= n
    ensures forall j :: 0 <= j < |tuples| && tuples[j].id == v ==> tuples[j].chunkSeq < Length(recs, v)
    decreases |recs|
  {
    if recs != [] {
      var i := |recs| - 1;
      LengthIs(file, recs[..i], tuples[..i], v, n);
    }
  }

  /** The place found for a stored chunk holds that chunk. */
  lemma {:induction false} LastHolds(file: seq<Byte>, recs: seq<ChunkRec>, tuples: seq<Tuple>, v: nat, k: nat,
                                     data: seq<Byte>)
    requires AllRecords(file, recs, tuples) && IsStored(tuples, v, k)
    requires forall j :: 0 <= j < |tuples| && tuples[j].id == v && tuples[j].chunkSeq == k ==> tuples[j].data == data
    ensures var (pos, len) := Last(recs, v, k);
            len == |data| && pos + len <= |file| && file[pos..pos + len] == data
    decreases |recs|
  {
    var i := |recs| - 1;
    assert Records(file, recs[i], tuples[i]);
    if !(recs[i].id == v && recs[i].chunkSeq == k) {
      var j :| 0 <= j < |tuples| && tuples[j].id == v && tuples[j].chunkSeq == k;
      assert tuples[..i][j] == tuples[j];
      LastHolds(file, recs[..i], tuples[..i], v, k, data);
    }
  }

  /** Reading places that hold the chunks yields their concatenation. */
  lemma {:induction false} GatherHolds(file: seq<Byte>, places: seq<Place>, chunks: seq<seq<Byte>>)
    requires |places| == |chunks|
    requires forall k :: 0 <= k < |places| ==>
      places[k].1 == |chunks[k]| && places[k].0 + places[k].1 <= |file|
      && file[places[k].0..places[k].0 + places[k].1] == chunks[k]
    ensures Gather(file, false, places) == (Concat(chunks), false)
  {
    if places != [] {
      var n := |places| - 1;
      GatherHolds(file, places[..n], chunks[..n]);
      assert StreamRead(file, false, places[n].0, places[n].1) == (chunks[n], false);
    }
  }

  /** Whatever pages and order the chunks are stored in, the index leads to all of them. */
  lemma ChunksFetched(file: seq<Byte>, pages: seq<seq<Item>>, v: nat, chunks: seq<seq<Byte>>) returns (m: Index)
    requires HoldsFile(file, pages) && Numbered(AllLive(pages), v, chunks) && chunks != []
    ensures Scan(file).Ok? && m == InsertAll(map[], Scan(file).value)
    ensures v in m && Gather(file, false, m[v]) == (Concat(chunks), false)
  {
    hide HoldsFile, Scan, InsertAll, Length, Last, Gather, Concat;
    var tuples := AllLive(pages);
    var recs := ScanFindsAll(file, pages);
    m := InsertAll(map[], recs);
    IndexHolds(recs, v);
    LengthIs(file, recs, tuples, v, |chunks|);
    assert IsStored(tuples, v, |chunks| - 1);
    forall k | 0 <= k < |chunks|
      ensures m[v][k].1 == |chunks[k]| && m[v][k].0 + m[v][k].1 <= |file|
           && file[m[v][k].0..m[v][k].0 + m[v][k].1] == chunks[k]
    {
      assert IsStored(tuples, v, k);
      LastHolds(file, recs, tuples, v, k, chunks[k]);
    }
    GatherHolds(file, m[v], chunks);
  }

  /** A value is in the index exactly when some chunk of it was recorded. */
  lemma {:induction false} RecordedIff(recs: seq<ChunkRec>, v: nat)
    ensures Length(recs, v) > 0 <==> exists j :: 0 <= j < |recs| && recs[j].id == v
  {
    if recs != [] {
      var n := |recs| - 1;
      RecordedIff(recs[..n], v);
      assert forall j :: 0 <= j < n ==> recs[..n][j] == recs[j];
    }
  }

  /** Over a well-formed file a fetch reports "not found" exactly when no live tuple, on any page,
      belongs to the value. */
  lemma NotFoundIff(file: seq<Byte>, pages: seq<seq<Item>>, failed: bool, p: Pointer)
    requires HoldsFile(file, pages)
    ensures Scan(file).Ok?
    ensures Fetched(file, failed, InsertAll(map[], Scan(file).value), p) == Err(NotFound)
       <==> forall j :: 0 <= j < |AllLive(pages)| ==> AllLive(pages)[j].id != p.valueid
  {
    hide HoldsFile, Scan, InsertAll, Length, Last, Gather, Total, Decompressed, Le32;
    var tuples := AllLive(pages);
    var recs := ScanFindsAll(file, pages);
    assert forall j :: 0 <= j < |recs| ==> Records(file, recs[j], tuples[j]);
    IndexHolds(recs, p.valueid);
    RecordedIff(recs, p.valueid);
    hide AllLive, Records;
    assert forall j :: 0 <= j < |recs| ==> recs[j].id == tuples[j].id;
  }

  // ---- from stored bytes to the value -----------------------------------------------------------

  /** A value's out-of-line bytes and its pointer: plain, or the raw size and the payload of
      a compression that saved at least the room for the raw size. */
  predicate StoredAs(value: seq<Byte>, strategy: Option<Strategy>, stored: seq<Byte>, p: Pointer)
  {
    && |value| + 4 < 0x4000_0000 && p.rawsize == |value| + 4 && p.extsize == |stored|
    && (stored == value
        || (Compressed(value, strategy).Some? && |stored| < |value|
            && stored == Le32(|value|) + Serialize(Compressed(value, strategy).value)))
  }

  /** The datum handed to the decompressor: its length word, taken from the raw size,
      overstates the payload. */
  lemma OverstatedHolds(value: seq<Byte>, toks: seq<Token>, mem: seq<Byte>)
    requires |value| + 4 < 0x4000_0000 && 4 + |Serialize(toks)| < |value|
    requires mem == Le32((|value| + 4) * 4 % WORD) + (Le32(|value|) + Serialize(toks))
    ensures Holds(mem, value, toks) && VarSize4(Word32(mem, 0)) >= |mem|
  {
    hide Serialize, Le32, Word32;
    assert mem[0..4] == Le32((|value| + 4) * 4) && mem[4..8] == Le32(|value|);
    assert mem[HEADER..] == Serialize(toks);
    WordOfLe32((|value| + 4) * 4, mem, 0);
  }

  lemma InflateStored(value: seq<Byte>, strategy: Option<Strategy>, mem: seq<Byte>)
    requires |value| + 4 < 0x4000_0000 && Compressed(value, strategy).Some?
    requires 4 + |Serialize(Compressed(value, strategy).value)| < |value|
    requires mem == Le32((|value| + 4) * 4 % WORD) + (Le32(|value|) + Serialize(Compressed(value, strategy).value))
    ensures Inflate(mem) == if BeginsMarked(value) then Err(Corrupted) else Ok(value)
  {
    hide Compressed, Serialize, Decompressed, Le32, Word32, Holds, VarSize4;
    OverstatedHolds(value, Compressed(value, strategy).value, mem);
    assert |mem| >= 8;
    var dest := Zeros(|value| + 1024);
    StoredDecodes(value, strategy, mem, dest);
    var d := value + dest[|value|..];
    assert d[..|value|] == value && d[0] == value[0] && d[1] == value[1];
  }

  /** Stored bytes unpack to the value, except that a compressed value that begins with the
      give-up marker is rejected. */
  lemma UnpackedIs(value: seq<Byte>, strategy: Option<Strategy>, stored: seq<Byte>, p: Pointer)
    requires StoredAs(value, strategy, stored, p)
    ensures Unpacked(stored, p) == if IsCompressed(p) && BeginsMarked(value) then Err(Corrupted) else Ok(value)
  {
    hide Compressed, Serialize, Inflate, Le32;
    if stored != value {
      assert |stored| == 4 + |Serialize(Compressed(value, strategy).value)|;
      InflateStored(value, strategy, Le32(p.rawsize * 4 % WORD) + stored);
    }
  }

  /** End to end: a file of chunk tuples that holds a value's stored bytes, cut into any
      chunks, on any pages, in any order, among any others, yields the value. */
  lemma ToastRoundTrip(file: seq<Byte>, pages: seq<seq<Item>>, chunks: seq<seq<Byte>>,
                       value: seq<Byte>, strategy: Option<Strategy>, p: Pointer)
    requires HoldsFile(file, pages) && Numbered(AllLive(pages), p.valueid, chunks) && chunks != []
    requires StoredAs(value, strategy, Concat(chunks), p)
    ensures Scan(file).Ok?
    ensures Fetched(file, false, InsertAll(map[], Scan(file).value), p)
         == if IsCompressed(p) && BeginsMarked(value) then Err(Corrupted) else Ok(value)
  {
    hide HoldsFile, Scan, InsertAll, Gather, Concat, Numbered, Compressed, Serialize, Unpacked;
    var m := ChunksFetched(file, pages, p.valueid, chunks);
    UnpackedIs(value, strategy, Concat(chunks), p);
  }

  // ---- from a datum to the value -----------------------------------------------------------------

  lemma SignedBack(x: int)
    requires -0x8000_0000 <= x < 0x8000_0000
    ensures Signed32(x % WORD % WORD) == x
  {
  }

  /** A TOAST pointer datum is read back as that pointer. */
  lemma PointerReadBack(s: seq<Byte>, at: nat, p: Pointer)
    requires ValidPointer(p) && at + 18 <= |s| && s[at..at + 18] == PointerDatum(p)
    ensures Is1BE(s[at]) && PointerAt(s, at) == p
  {
    hide Le32, Word32;
    var head, a, b := Header1BE(18), Le32(p.rawsize % WORD), Le32(p.extsize % WORD);
    FourParts(s, at, head, a, b, Le32(p.valueid) + Le32(p.toastrelid)) by {
      assert PointerDatum(p) == head + a + b + (Le32(p.valueid) + Le32(p.toastrelid));
    }
    assert s[at] == s[at..at + 2][0];
    Cut(s[..at + 18], at + 10, Le32(p.valueid), Le32(p.toastrelid));
    WordOfLe32(p.rawsize % WORD, s, at + 2);
    WordOfLe32(p.extsize % WORD, s, at + 6);
    WordOfLe32(p.valueid, s, at + 10);
    WordOfLe32(p.toastrelid, s, at + 14);
    SignedBack(p.rawsize);
    SignedBack(p.extsize);
  }

  /** `build_bytes` on a TOAST pointer fetches what it points to. */
  lemma ToastedIsFetched(file: seq<Byte>, failed: bool, m: Index, s: seq<Byte>, at: nat, p: Pointer)
    requires ValidPointer(p) && at + 18 <= |s| && s[at..at + 18] == PointerDatum(p)
    ensures BuiltBytes(file, failed, m, s, at) == Fetched(file, failed, m, p)
  {
    hide Fetched, PointerAt, PointerDatum;
    PointerReadBack(s, at, p);
  }

  /** `build_bytes` on a plain varlena, with either header, returns its data. */
  lemma PlainIsCopied(file: seq<Byte>, failed: bool, m: Index, s: seq<Byte>, at: nat, data: seq<Byte>, short: bool)
    requires |data| + 4 < 0x4000_0000 && (short ==> |data| + 1 <= 127)
    requires at + |PlainHeader(|data|, short) + data| <= |s|
    requires s[at..at + |PlainHeader(|data|, short) + data|] == PlainHeader(|data|, short) + data
    ensures BuiltBytes(file, failed, m, s, at) == Ok(data)
  {
    hide PlainHeader, Size, SizeReadable, Fetched, PointerAt;
    var head := PlainHeader(|data|, short);
    var n := |head + data|;
    Cut(s[..at + n], at, head, data);
    HeaderReadBack(s, at, |data|, short);
  }

  /** End to end from the datum in a row: the value it stands for. */
  lemma DatumReadsBack(file: seq<Byte>, pages: seq<seq<Item>>, chunks: seq<seq<Byte>>, value: seq<Byte>,
                       strategy: Option<Strategy>, p: Pointer, s: seq<Byte>, at: nat)
    requires HoldsFile(file, pages) && Numbered(AllLive(pages), p.valueid, chunks) && chunks != []
    requires StoredAs(value, strategy, Concat(chunks), p) && ValidPointer(p)
    requires at + 18 <= |s| && s[at..at + 18] == PointerDatum(p)
    ensures Scan(file).Ok?
    ensures BuiltBytes(file, false, InsertAll(map[], Scan(file).value), s, at)
         == if IsCompressed(p) && BeginsMarked(value) then Err(Corrupted) else Ok(value)
  {
    hide HoldsFile, Scan, InsertAll, Numbered, StoredAs, Fetched, BuiltBytes, PointerDatum, Concat;
    ToastRoundTrip(file, pages, chunks, value, strategy, p);
    ToastedIsFetched(file, false, InsertAll(map[], Scan(file).value), s, at, p);
  }

  // ---- what a rejection means ---------------------------------------------------------------------

  /** A raw size that is negative, or leaves no room for the spare kilobyte in an `int`, is refused
      before anything is decoded. */
  lemma BadLengthIff(mem: seq<Byte>)
    requires |mem| >= 8
    ensures Inflate(mem) == Err(BadLength) <==> Word32(mem, 4) >= 0x8000_0000 - 1024
  {
    hide Word32, Decompressed;
  }

  /** A datum is reported corrupt exactly when the decompressor gives up on it, or decodes it
      to a text that begins with the marker. */
  lemma ReportedCorruptIff(mem: seq<Byte>)
    requires |mem| >= 8 && 0 <= Signed32(Word32(mem, 4)) < 0x8000_0000 - 1024
    ensures var out := Decompressed(mem, Zeros(Signed32(Word32(mem, 4)) + 1024));
            Inflate(mem) == Err(Corrupted) <==> out.GaveUp? || (out.Returned? && BeginsMarked(out.dest))
  {
    hide Word32;
    var rawsize := Signed32(Word32(mem, 4));
    GiveUpIsMarked(mem, VarSize4(Word32(mem, 0)), rawsize, 8, 0, 0, Zeros(rawsize + 1024), 0);
    hide Decode;
  }
}
