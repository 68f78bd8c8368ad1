# Page dumper: a verified model

PageDumper reads the heap and TOAST files of a PostgreSQL 8.4 database and prints their rows as SQL. This
project models its four cores and proves what they are for.

- **The PGLZ codec** (`Bytes`, `Format`, `Match`, `Hash`, `SearchSamples`, `SteepDrop`, `History`, `Writer`, `Coverage`,
  `Compressor`, `Success`, `Decoder`, `DecoderTheory`, `RoundTrip`). The compressor works in place over a byte buffer, with the control byte reserved
  first and patched in later, and over a history of doubly linked entries recycled in a circle. It is proved equal to a
  pure search over positions of the source; the decompressor, over arbitrary payloads, is proved equal to a replay of
  tokens; and the two are proved inverse for every source and strategy.
- **TOAST reassembly** (`Page`, `PageTheory`, `Toast`, `ToastTheory`, `ToastRun`, `Recognition`). A file of chunk tuples,
  in any order on any pages, is indexed once, and value after value is fetched back over the one stream, also through the
  deliberately overstated length word.
- **Tuple layout** (`Varlena`, `TupleLayout`). PostgreSQL's writer-side and reader-side offset computations agree on
  every row; the dumper's own walk agrees with them exactly when no varlena is padded.
- **The SQL script** (`Sql`). Batching over a whole run, and string literals that read back.

`Samples` holds small known streams, headers, texts and scripts, byte by byte.

Code that works in place is imperative Dafny (classes `Table`, `TokenWriter`, `PageIterator`, `ToastMap`, `Script`, and
methods with loops); each method's contract equates its effect with a function, and the lemmas below are about those
functions. A macro or function of the source that is long is cut into several methods; `hide` keeps definitions folded
that a proof does not need.

## What was found

- The comment above the search's cut-off says an offset that "does not fit into our tag" is skipped; offset 4095 fits and is
  skipped too. Which matches of four bytes or more are lost is proved exactly for every drop up to 33, and so for both
  strategies (`LostIff`); a source that loses one is given (`FarApartIsLost`). The header comment's offset limit is 4095; the
  compressor's is 4094.
- With a drop of 34 or more the lowered threshold also loses matches within reach; 33 is exactly the limit, because a
  threshold of 3 lowered by 33 percent, rounded down, stays 3 (`NeverMissesIff`, `SteepDropMisses`).
- A `match_size_drop` of 100 is documented as visiting the latest history entry only; the code visits a second one when
  the first is not good enough (`FullDropVisits`), and the second can win (`SecondEntryWins`).
- The default strategy is documented to give up "if no compression in the first 1KB"; the kilobyte is one of output, reached
  with the 911th literal (`DefaultPatience`).
- A success of `pglz_compress` does not make the dumper see a value as compressed. It does if the size limit for the
  value's length leaves four bytes to spare, and never up to eight bytes (`Recognized`); between the two, length and
  strategy do not settle it (`ContentDecides`, at every length from 9 to 122 for the "always" strategy). The default
  strategy is safe (`DefaultIsRecognized`), the "always" strategy is not (`AlwaysIsNotRecognized`).
- A compressed value that begins with `cc` is rejected as corrupt, and no other stored value is (`ToastRoundTrip`,
  `DatumReadsBack`); such values exist (`MarkedIsRejected`).
- All fetches share one stream, whose fail bit is never cleared. While every chunk fetched lies inside the file, all
  answers are right (`Dump`); the first chunk recorded past its end, as a corrupt length word makes it, breaks the stream
  (`RunFailsIff`), and every later value silently comes back as zeros or empty (`FetchedBroken`, `CorruptFileBreaks`).
- A page whose `pd_lower` lies inside the page header, as in a page of zeros, or beyond the page, makes the indexing run
  off the page buffer; the exact condition for a page is `ScanPageOkIff`.
- The size of a file is read into 32 bits: of a larger file only the first pages, up to the size modulo 2^32, are indexed,
  and success is reported (`WholeFileReadIff`, `FourGigabytesLost`).
- The row counter wraps after 2^32 rows and the script is then malformed; up to there it is right (`ScriptReadsBackIff`).

## Model

Cited paths are relative to the repository's root.

| member | source | states |
|---|---|---|
| RoundTrip.CodecRoundTrip | pgsql_src/pg_lzcompress.c:483-755 | for every source, strategy and destination, decompressing what compression stored writes exactly the source, consumes exactly the payload, leaves the rest of the destination alone, and neither gives up nor aborts |
| RoundTrip.StoredDecodes | pgsql_src/pg_lzcompress.c:659-737 | the same when the length word says anything at or beyond the payload's real end; no byte behind the payload is read |
| RoundTrip.CompressAndBack | pgsql_src/pg_lzcompress.c:483-755 | the two imperative procedures in a row return the source |
| RoundTrip.LoopHeadDecodes | pgsql_src/pg_lzcompress.c:569-629 | in every state at a head of the loop of `Emit`, the bytes emitted, the pending control byte patched in, decode to exactly the source read so far |
| RoundTrip.RunCovers | pgsql_src/pg_lzcompress.c:569-623 | from any point of a run on, the tokens emitted go on expanding to the source read |
| RoundTrip.CompressedCovers | pgsql_src/pg_lzcompress.c:516-634 | success stores tokens that expand to the source and fit below the strategy's limit, itself at most the source's length |
| RoundTrip.SerializedControl | pgsql_src/pg_lzcompress.c:314-365 | bit k of each emitted control byte is set exactly when its group has a k-th token and that is a tag; unused bits are clear |
| RoundTrip.PayloadSize | pgsql_src/pg_lzcompress.c:333-365 | payload bytes = literals + 2 per tag up to 17 long + 3 per longer tag + one control byte for every eight tokens |
| RoundTrip.ExpandedSize | pgsql_src/pg_lzcompress.c:600-622 | consumed input = literals + lengths of tags |
| RoundTrip.SuccessNeedsTag | pgsql_src/pg_lzcompress.c:578-632 | compression never succeeds without a back reference |
| Samples.KnownPayload | pgsql_src/pg_lzcompress.c:314-365 | the five payload bytes of a literal and a long tag |
| Samples.KnownTag | pgsql_src/pg_lzcompress.c:349-365 | the two bytes of a tag with an offset above 255 |
| Samples.KnownImage | pgsql_src/pg_lzcompress.c:516-634 | 99 equal bytes as the default strategy stores them, byte by byte |
| Compressor.Compress | pgsql_src/pg_lzcompress.c:483-640 | succeeds and stores length word, raw size and payload exactly as a function of source and strategy says, whatever an earlier call left in the history; nothing at or past payload index slen + 4 is written, on failing runs too |
| Compressor.Emit | pgsql_src/pg_lzcompress.c:569-623 | the main loop computes that function's tokens; at its head they expand to the source read so far |
| Compressor.EmitNext | pgsql_src/pg_lzcompress.c:593-622 | one round emits the tag found or a literal, files every position it covers, and extends the covered source by it |
| Compressor.AddMatched | pgsql_src/pg_lzcompress.c:601-608 | all positions under a tag are filed in order |
| Compressor.ResultMaxBounds | pgsql_src/pg_lzcompress.c:541-558 | neither branch of the size limit overflows an int32 and both stay at or below floor(slen * (100 - rate) / 100) |
| Compressor.ResultMaxReaches | pgsql_src/pg_lzcompress.c:552-558 | the limit is no lower: exact up to INT_MAX / 100, and beyond at least what 99 bytes fewer would allow |
| Compressor.ParametersInRange | pgsql_src/pg_lzcompress.c:526-544 | the match parameters and the rate are the strategy's, brought into 17 to 273, 0 to 100 and 0 to 99 |
| Compressor.ShippedParameters | pgsql_src/pg_lzcompress.c:214-240 | the limits and parameters of the two strategies, the default one for a null strategy |
| Success.SingleMatch | pgsql_src/pg_lzcompress.c:516-634 | under every strategy, a source whose first match reaches its end is stored as literals and that tag exactly when the strategy admits its length, its patience lasts, and the payload is below the limit; else compression declines |
| Success.StairsStoredIff | pgsql_src/pg_lzcompress.c:516-634 | so rising bytes with a run behind them are stored exactly when their payload, plus one, is at most (100 - rate) percent of their length, and the strategy's other limits admit them |
| Success.RunStoredIff | pgsql_src/pg_lzcompress.c:516-634 | the same for 5 to 274 equal bytes: a literal and one tag |
| Success.DefaultStoresRuns | pgsql_src/pg_lzcompress.c:214-226 | the default strategy stores every run of 32 to 274 equal bytes and no shorter one |
| Success.DefaultNeedsQuarter | pgsql_src/pg_lzcompress.c:214-226 | of rising bytes with a run it stores exactly those of 32 bytes or more that save a quarter |
| Success.DefaultPatience | pgsql_src/pg_lzcompress.c:578-591 | it goes on after 910 literals without a match and gives up with the 911th |
| Writer.PatchedIsSerialized | pgsql_src/pg_lzcompress.c:314-365 | with the pending control byte patched in, the emitted bytes are the serialization of the emitted tokens |
| Writer.TokenWriter.PatchedIs | pgsql_src/pg_lzcompress.c:578-588 | at every head of the loop the emitted bytes, patched, are the serialization of the emitted tokens, and bp - bstart is its size |
| Writer.TokenWriter.OutCtrl | pgsql_src/pg_lzcompress.c:314-323 | writes a full group's control byte and reserves the next; no token is lost |
| Writer.TokenWriter.OutLiteral | pgsql_src/pg_lzcompress.c:333-338 | appends a literal to the token stream, at most four bytes, nothing else changed |
| Writer.TokenWriter.OutTag | pgsql_src/pg_lzcompress.c:349-365 | appends a tag, at most four bytes, nothing else changed |
| Writer.TokenWriter.PutTagBytes | pgsql_src/pg_lzcompress.c:354-364 | the bytes put together with bit operations are the tag's nibble layout |
| Writer.TokenWriter.Finish | pgsql_src/pg_lzcompress.c:629-630 | the buffer holds exactly the serialization of all tokens |
| Format.SerializeAppend | pgsql_src/pg_lzcompress.c:314-323 | after a multiple of eight tokens the stream goes on independently of what came before |
| Format.ControlBits | pgsql_src/pg_lzcompress.c:352-353 | the bits of a control byte, one by one |
| Format.PhaseIsMod | pgsql_src/pg_lzcompress.c:712-718 | the reference copy's phase is k mod off |
| Coverage.CoversNext | pgsql_src/pg_lzcompress.c:593-622 | whatever the search returns, the token emitted extends what the tokens expand to by the right bytes |
| Coverage.CutOffLosesOne | pgsql_src/pg_lzcompress.c:395-400 | an entry exactly 4095 back is passed over although its tag is encodable and right |
| Coverage.LostIff | pgsql_src/pg_lzcompress.c:395-400 | where a tag of four bytes or more could be written, with a drop of up to 33 the search finds nothing exactly when the match lies 4095 back and no nearer entry of the bucket is worth a tag |
| Coverage.LostAnyway | pgsql_src/pg_lzcompress.c:395-400 | such a match is lost whatever the threshold and the drop |
| Coverage.FarApartIsLost | pgsql_src/pg_lzcompress.c:395-400 | a source of 4099 bytes on which the search meets an entry 4095 back, heading its bucket and worth a tag of four bytes, and reports nothing |
| Match.SearchSound | pgsql_src/pg_lzcompress.c:376-474 | a match found is at most 273 long, 1 to 4094 back, inside the source, and repeats the bytes there, overlapping or not |
| Match.SearchIsBest | pgsql_src/pg_lzcompress.c:388-460 | the result is the longest match among the entries visited, the nearest of equals |
| Match.NonePassedOver | pgsql_src/pg_lzcompress.c:448-459 | for every threshold and drop: if the result stays below the threshold as it stands at the last entry visited, no near enough entry of the bucket holds a longer match |
| Match.NeverLowered | pgsql_src/pg_lzcompress.c:457-459 | with a drop of 0 that is the threshold itself |
| Match.FindsLongest | pgsql_src/pg_lzcompress.c:376-474 | with no drop the search misses no match of four bytes or more within reach, unless a good enough one is found |
| Match.FindsNothingIff | pgsql_src/pg_lzcompress.c:376-474 | with a drop of up to 33 nothing is found exactly when no entry of the bucket nearer than the cut-off holds a match of three bytes or more |
| Match.LastGoodStays | pgsql_src/pg_lzcompress.c:457-459 | with such a drop a threshold above 2 stays above 2 however often it is lowered |
| SteepDrop.SteepDropMisses | pgsql_src/pg_lzcompress.c:454-459 | with any drop from 34 on and any threshold from 3 to 273, a match of four bytes within reach is missed on a source of 1096 bytes |
| SteepDrop.NeverMissesIff | pgsql_src/pg_lzcompress.c:454-459 | for every threshold a strategy can set, whatever lies within reach leads to a tag exactly when the drop is at most 33 |
| Match.OutOfReach | pgsql_src/pg_lzcompress.c:376-474 | in that case nothing is found under any threshold and drop |
| Match.FullDropVisits | pgsql_src/pg_lzcompress.c:454-459 | with a drop of 100 exactly one or two entries are visited, and when two |
| Match.ThirdVisitedIff | pgsql_src/pg_lzcompress.c:448-459 | for every drop from 0 to 100: after a first entry not good enough the second is visited, and the third exactly when 100 times the better length of the two is below (100 - drop) times the threshold |
| Match.DroppedRounds | pgsql_src/pg_lzcompress.c:457-458 | the lowered threshold is the least integer not below (100 - drop) percent of it |
| SearchSamples.DropStopsSearch | pgsql_src/pg_lzcompress.c:448-459 | a source on which a drop of 10 ends the search with a match of 16 bytes, and a drop of 0 finds 20 |
| SearchSamples.SecondEntryWins | pgsql_src/pg_lzcompress.c:454-459 | a source on which, with a drop of 100, the second entry is visited and yields the tag |
| Hash.HistIdxBits | pgsql_src/pg_lzcompress.c:262-266 | bit k of the bucket of four bytes is the sum modulo 2 of bits k, k - 3, k - 6 and k - 9 of the signed bytes, last to first |
| Hash.HistIdxTail | pgsql_src/pg_lzcompress.c:262-266 | with fewer than four bytes left the bucket is the signed first byte in 13 bits |
| Hash.HistIdxSmall | pgsql_src/pg_lzcompress.c:262-266 | for bytes that share no bit when shifted the bucket is the octal number they form |
| Match.Shortcut | pgsql_src/pg_lzcompress.c:410-434 | comparing the length in hand at once and counting on gives the same improvements as counting from the start |
| Match.MatchLenIsLongest | pgsql_src/pg_lzcompress.c:428-433 | the byte-by-byte count is the longest match there is |
| Match.FindMatch | pgsql_src/pg_lzcompress.c:462-473 | what is reported is a tag of 3 to 273 bytes, at most 4094 back, that repeats bytes already seen |
| Match.MatchesShareBucket | pgsql_src/pg_lzcompress.c:262-266 | four equal bytes are filed in one bucket |
| Match.MatchRepeats | pgsql_src/pg_lzcompress.c:406-434 | expanding a match yields the source's bytes, even when it overlaps itself |
| Match.BucketIs | pgsql_src/pg_lzcompress.c:189-199 | a bucket lists exactly the positions filed under it, each once, nearest first |
| History.Table.Reset | pgsql_src/pg_lzcompress.c:560-564 | clearing the list heads alone establishes the empty history, whatever the entries hold |
| History.Table.Add | pgsql_src/pg_lzcompress.c:281-305 | filing one more position keeps every link, head and entry right for exactly the last 4096 positions |
| History.Table.Unlink | pgsql_src/pg_lzcompress.c:286-293 | the relinking of an entry's neighbours |
| History.Table.UnlinkOldest | pgsql_src/pg_lzcompress.c:286-293 | recycling takes out exactly the oldest position |
| History.Table.LinkHead | pgsql_src/pg_lzcompress.c:294-300 | the new position heads its list |
| History.Table.LinksAreMutual | pgsql_src/pg_lzcompress.c:201-207 | each list is doubly linked, positions strictly decrease along it, all in one bucket, and its first entry is the head |
| History.Table.RecycledIsTail | pgsql_src/pg_lzcompress.c:286-293 | the entry recycled next holds the oldest position and is the tail of its list |
| History.Table.WalkIsBucket | pgsql_src/pg_lzcompress.c:387-448 | walking a list meets exactly the last 4096 positions filed under its bucket, nearest first, and ends |
| History.Table.FollowList | pgsql_src/pg_lzcompress.c:387-460 | the pointer walk, with its memcmp shortcut and early exits, terminates and computes the simple search over positions |
| History.Table.FindMatch | pgsql_src/pg_lzcompress.c:376-474 | reports the simple search's match if it is longer than two bytes |
| History.Compare | pgsql_src/pg_lzcompress.c:398-443 | the fast comparison improves the best match exactly as the byte-by-byte one does |
| History.CountFrom | pgsql_src/pg_lzcompress.c:418-423 | the counting loop |
| Decoder.Decompress | pgsql_src/pg_lzcompress.c:651-755 | on any payload whose decoding stays in memory, the in-place loops end as specified: normally, by giving up with the marker, or by abort |
| Decoder.CopyTag | pgsql_src/pg_lzcompress.c:712-718 | the forward byte copy is the periodic extension of the last off bytes and changes nothing else; with off 0 it changes nothing; it gives up on the first byte or never |
| Decoder.DecodeGroup | pgsql_src/pg_lzcompress.c:670-736 | the inner loop over one control byte |
| Decoder.ReadTag | pgsql_src/pg_lzcompress.c:687-691 | the bit operations read the tag the layout describes |
| DecoderTheory.DecodeIsReplay | pgsql_src/pg_lzcompress.c:664-752 | on any payload readable two bytes past its end the decoder stays in memory and equals the replay of its tokens, stopping when the output is full; it aborts exactly when the tokens fall short and the last crosses the payload's end |
| DecoderTheory.Replay | pgsql_src/pg_lzcompress.c:700-730 | only bytes below rawsize are written |
| DecoderTheory.DecodeSerialized | pgsql_src/pg_lzcompress.c:664-737 | decoding a serialized stream from any point of it yields what the tokens expand to |
| DecoderTheory.DecompressSerialized | pgsql_src/pg_lzcompress.c:651-755 | a call on any grounded token list writes its expansion and consumes exactly its payload |
| DecoderTheory.DecodeLocal | pgsql_src/pg_lzcompress.c:664-737 | a call that stays in its memory does not depend on what lies behind |
| DecoderTheory.ItemOfToken | pgsql_src/pg_lzcompress.c:678-691 | every token is read back from its bytes |
| DecoderTheory.GiveUpIsMarked | pgsql_src/pg_lzcompress.c:642-715 | giving up leaves the marker, inside the output, as rawsize is then at least 3 |
| DecoderTheory.MarkedIs | pgsql_src/pg_lzcompress.c:642 | the marker is two letters c in front, and leaves the rest of the output |
| DecoderTheory.BeginsMarkedIff | page_dumper.h:122 | a text is taken for marked exactly when its first two bytes are c |
| DecoderTheory.ZeroOffsetKeeps | pgsql_src/pg_lzcompress.c:712-718 | a tag with offset 0 leaves the output as it is |
| ToastTheory.ToastRoundTrip | page_dumper.h:76-127 | a file holding a value's stored bytes, cut into any chunks, on any pages, in any order among any others, yields the value; the one exception, exactly: a compressed value beginning with the marker is rejected |
| ToastTheory.PointerReadBack | pgsql_src/include/server/postgres.h:67-73 | a TOAST pointer datum, header and four little-endian words, is read back as the pointer it was made from |
| Samples.KnownPointer | pgsql_src/include/server/postgres.h:67-73 | a TOAST pointer from its eighteen bytes, a negative size among them |
| Samples.KnownVarlenas | page_dumper.h:182-203 | four bytes with either plain header |
| ToastTheory.ToastedIsFetched | page_dumper.h:182-190 | `build_bytes` on a TOAST pointer datum fetches the value it points to |
| ToastTheory.PlainIsCopied | page_dumper.h:182-203 | `build_bytes` on a plain varlena, with a one-byte or four-byte header, returns its data |
| ToastRun.InlineCompressed | page_dumper.h:187 | an inline compressed value is answered with the word COMPRESSED |
| ToastTheory.DatumReadsBack | page_dumper.h:182-203 | end to end from the datum in a row: `build_bytes` on the stored pointer returns the value its chunks hold, with the marker case as the one rejection |
| ToastRun.DatumAnswered | page_dumper.h:182-203 | a datum stored well, in place or in chunks, is answered right over a good stream and leaves the stream good |
| ToastRun.Dump | table_sample_user.cpp:14-31 | the whole run through the imperative code: the file is indexed once, then any sequence of such datums is built over the one stream, every answer right, rejected values among them |
| ToastRun.GatherFailsIff | page_dumper.h:95-99 | a good stream breaks exactly when a chunk read runs past the end of the file |
| ToastRun.ReadBytes | page_dumper.h:97-98 | a read over a good stream leaves the file's bytes as far as they go, then zeros |
| ToastRun.GatherBroken | page_dumper.h:95-99 | a broken stream stays broken and reads zeros only |
| ToastRun.RunFailsIff | page_dumper.h:95-99 | over a run of fetches the stream is broken exactly when some value fetched has a chunk recorded past the end of the file |
| ToastRun.FetchedBroken | page_dumper.h:76-127 | from then on every plain value comes back as zeros and every compressed one as empty, without an error |
| ToastRun.CorruptFileBreaks | page_dumper.h:76-127 | a file of one page on which a sound value reads back until another with a corrupt header has been fetched, and as zeros after |
| ToastTheory.ChunksFetched | page_dumper.cpp:80-87 | the index leads to all chunks of a value, in sequence order |
| ToastTheory.IndexHolds | page_dumper.cpp:80-87 | for each id the index is as long as its largest sequence number says and holds, for each, the last place recorded; holes are zero |
| ToastTheory.NotFoundIff | page_dumper.h:79-82 | over a well-formed file "not found" is reported exactly when no live tuple belongs to the value |
| ToastTheory.GatherHolds | page_dumper.h:93-99 | reading right places yields the concatenation of the chunks and leaves the stream good |
| ToastTheory.OverstatedHolds | page_dumper.h:114-119 | the length word made from the raw size covers the payload, so decoding is not cut short |
| ToastTheory.UnpackedIs | page_dumper.h:102-126 | stored bytes unpack to the value, plain or compressed |
| ToastTheory.ReportedCorruptIff | page_dumper.h:122-124 | "corrupted" is reported exactly when the decompressor gave up or the text begins with the marker |
| ToastTheory.BadLengthIff | page_dumper.h:117-120 | a raw size that is negative or too near 2^31 is refused before decoding |
| Recognition.Recognized | page_dumper.h:67-74 | for every strategy, a value compressed is recognized if the size limit computed from its length and the rate leaves four bytes to spare, and never if it is at most eight bytes long; unrecognized, its stored bytes are returned as the value |
| Recognition.DefaultIsRecognized | pgsql_src/pg_lzcompress.c:214-226 | so whatever the default strategy compresses is recognized |
| Recognition.AlwaysIsNotRecognized | pgsql_src/pg_lzcompress.c:230-238 | five equal bytes are compressed by the other strategy and not recognized |
| Recognition.RunRecognizedIff | page_dumper.h:67-74 | 5 to 274 equal bytes are compressed by the other strategy, and recognized exactly from nine bytes on |
| Recognition.ContentDecides | page_dumper.h:67-74 | at every length from 9 to 122 the other strategy compresses one value that is recognized and one that is not |
| Recognition.MarkedIsRejected | page_dumper.h:122-124 | twelve letters c are stored compressed, and rejected as corrupt |
| Toast.ShiftDown | page_dumper.h:102-112 | the loop that moves four cells and advances by one drops the first four cells; what it reads beyond the end does not survive |
| Toast.ToastMap.FillToastMap | page_dumper.cpp:45-94 | the index gains every chunk of the file in file order, or the walk fails as the page scan says |
| Toast.ToastMap.AddPage | page_dumper.cpp:55-89 | the same for one page |
| Toast.ToastMap.AddItem | page_dumper.cpp:56-88 | the same for one line pointer |
| Toast.ToastMap.AddTuple | page_dumper.cpp:63-87 | the attribute walk records the chunk's key and the place of its data |
| Toast.ToastMap.Record | page_dumper.cpp:80-87 | one chunk enters the index, growing its value's vector with zero places as needed |
| Toast.ToastMap.FetchData | page_dumper.h:76-127 | equals the specified fetch, errors included, and leaves the fail bit the reads leave |
| Toast.ToastMap.ReadChunks | page_dumper.h:93-100 | the buffer holds all chunks and the fail bit is that of the reads, unless the unsigned size wrapped, which the assertions catch |
| Toast.ToastMap.SumSizes | page_dumper.h:85-89 | the size in unsigned arithmetic |
| Toast.ToastMap.InflateBuffer | page_dumper.h:114-126 | decompression with a kilobyte to spare, and the marker test |
| Toast.ToastMap.BuildBytes | page_dumper.h:182-203 | a plain value's data, or the fetched value; only a fetch touches the fail bit |
| Toast.PageIterator.Next | page_dumper.cpp:156-161 | hands out the file's pages one after the other |
| PageTheory.ScanFindsAll | page_dumper.cpp:45-94 | every live chunk tuple of a file is found once, in file order, with the place of its data |
| PageTheory.ReadTupleOf | page_dumper.cpp:63-87 | a tuple as stored, its attributes present by bit 0 of the infomask or the bitmap's low bits, with either varlena header, is read as its id, sequence number and data place |
| PageTheory.AnyTupleRead | page_dumper.cpp:63-87 | what is recorded of any tuple, sound or not, from its bytes: key, place and length by the four kinds of header, lengths in 32 bits |
| PageTheory.ReadDead | page_dumper.cpp:58-61 | line pointers that are unused, redirected, dead, empty, or overhang the page are passed over |
| Page.ItemIdIs | page_dumper.cpp:56-61 | the fields of a line pointer: 15 bits of offset, 2 of state, 15 of length |
| Page.NullIff | page_dumper.h:270-283 | an attribute is null exactly when bit 0 of the infomask is set and its own bit of the bitmap is clear |
| Page.AssertFailsIff | page_dumper.cpp:67-70 | the assertions fail exactly when bit 0 of the infomask is set and one of the three low bits of the bitmap is clear |
| Page.ItemidCountIsRight | page_dumper.h:287-289 | the count is that of the line pointers up to pd_lower exactly when pd_lower is behind the page header; otherwise the subtraction wraps |
| Page.ScanPageOkIff | page_dumper.cpp:55-89 | the walk over a page stays inside it exactly when `pd_lower` is a multiple of 4 from 24 to 8192 and no line pointer before it leads to a tuple that cannot be read |
| Page.ScanPageFails | page_dumper.cpp:55-56 | otherwise it ends in the failed assertion, if `pd_lower` is no multiple of 4, or outside the page buffer, unless a tuple faults first |
| Page.ZeroPageFails | page_dumper.cpp:55-56 | a page of zeros makes the walk leave the page buffer |
| Page.ScanOkIff | page_dumper.cpp:138-161 | the scan succeeds exactly when the size modulo 2^32 is a whole number of pages and the walk stays inside each of that many |
| Page.OnlyRemainderRead | page_dumper.cpp:138-161 | the scan is that of the first bytes, as many as the size modulo 2^32; the rest has no influence |
| Page.WholeFileReadIff | page_dumper.cpp:138-161 | a successful scan has read the whole file exactly when the file is smaller than 2^32 bytes |
| Page.FourGigabytesLost | page_dumper.cpp:138-161 | a file of exactly 2^32 bytes is indexed as if it were empty, and success is reported |
| Varlena.HeaderReadBack | page_dumper.h:162-180 | the dumper reads size and data place back from a header as SET_VARSIZE stores it |
| Varlena.SizesAgree | pgsql_src/include/server/postgres.h:265-268 | the dumper's size is VARSIZE_ANY, except for TOAST pointers whose length byte is not 18 |
| Varlena.LengthWordIs | pgsql_src/include/server/postgres.h:192-202 | VARSIZE reads back what SET_VARSIZE_COMPRESSED stored, below 2^30 |
| TupleLayout.ReaderAgrees | pgsql_src/include/server/access/tupmacs.h:101-185 | for every row of fixed, varlena and C-string columns the reader, peeking at pad bytes, visits the writer's offsets, ends at the end of the data, and finds the values there |
| TupleLayout.SameAlignment | pgsql_src/include/server/access/tupmacs.h:121-125 | peeking at one byte decides alignment as the writer did |
| TupleLayout.AlignNominalIsLeast | pgsql_src/include/server/access/tupmacs.h:142-151 | the nominal place is the first multiple of the alignment |
| TupleLayout.OffsetsInPlace | pgsql_src/include/server/access/tupmacs.h:101-151 | the writer puts a varlena whose first byte is odd directly behind what precedes it, and every other value at the next multiple of its alignment |
| TupleLayout.ShortRowIsJoined | pgsql_src/include/server/access/tupmacs.h:101-105 | so a row of short varlenas is stored as its values, one directly after the other |
| TupleLayout.PointerInPlace | pgsql_src/include/server/access/tupmacs.h:121-125 | on any data the reader takes a varlena at once if the byte is not zero, and goes to the next multiple of the alignment otherwise |
| TupleLayout.LengthIs | pgsql_src/include/server/access/tupmacs.h:160-185 | the length read is that of the value: a fixed width, one of three varlena headers, or up to the only zero of a C string |
| TupleLayout.BitmapTellsNulls | pgsql_src/include/server/access/tupmacs.h:21 | att_isnull on the stored bitmap tells exactly which attributes are null |
| TupleLayout.NullsAreRead | page_dumper.h:279-283 | with or without a stored bitmap, has_attribute tells the nulls |
| TupleLayout.DumperAgreesIff | page_dumper.h:243-267 | for rows of nullable integers and varlenas, the dumper visits the writer's offsets and ends at the data size exactly when no varlena is preceded by padding |
| TupleLayout.UserCodeWalk | table_sample_user.cpp:79-180 | on the sample table, guided by the null bitmap, the dumper passes its three assertions and reads at the offsets of PostgreSQL's reader exactly when the first two attributes are not null and no varlena is padded |
| TupleLayout.UserCodeAsserts | table_sample_user.cpp:79-180 | on any data, which assertions must hold for the row's values to be read |
| TupleLayout.GrupoColumns | table_sample_user.cpp:79-141 | the sample table's eleven columns |
| Sql.LiteralReadsBack | table_sample_user.cpp:43-53 | the literal written for any string reads back, as an escape string constant, as that string, and ends where it should |
| Sql.ValueReadsBack | table_sample_user.cpp:37-54 | the text of any value, null or not, before a comma or a parenthesis, reads back as that value: the keyword NULL or an escape string |
| Samples.KnownTexts | table_sample_user.cpp:37-54 | NULL, and a string with a quote and a backslash, both doubled |
| Sql.SqlVarlena | table_sample_user.cpp:37-54 | the loop appends that literal, or NULL |
| Sql.Script.UserCode | table_sample_user.cpp:143-198 | a row is appended whole with the right lead, or not at all when it threw |
| Sql.Run | table_sample_user.cpp:67-204 | a run prints the script of exactly the rows that did not throw, in order |
| Sql.ScriptReadsBackIff | table_sample_user.cpp:143-204 | the script reads back as the rows in order, 500 to a statement, exactly when at most 2^32 rows are printed |
| Sql.BatchesAre | table_sample_user.cpp:146-153 | there are ceil(n / 500) statements and the k-th holds rows 500k up to 500(k + 1) |
| Samples.KnownScripts | table_sample_user.cpp:67-204 | the scripts of no rows and of two, piece by piece |

## Conventions

- Bytes are integers 0 to 255. `& mask` and shifts by constants are written as `%`, `/` and `*`; `|` and `^` are the
  functions `BitOr` and `BitXor`. A `char` is signed. `unsigned` arithmetic is modulo 2^32, `int32` values are read
  through `Signed32`. The machine is little-endian, double alignment is 8, and `sizeof(PageHeaderData)` is 28.
- Null links are -1 and entry pointers are indices into the entry array.
- Reading outside a buffer, a failed assertion, a thrown error and `abort` are result variants. `Decompress` requires
  that the decoding stays inside the memory it is given; `Decompressed` says when that is.
- The history's `hist_next` and `hist_recycle`, locals of `pglz_compress` that the macro updates, are fields of `Table`;
  the output cursors are fields of `TokenWriter`.

## Left out

- Streams, seeking beyond the fail bit, program arguments, diagnostics on standard error and the `print_*` functions.
- `int32` overflow of a negative source length or of strategy values near the ends of the range: sources are sequences of at most 2^31 - 1 bytes.
- Inline compressed varlenas, which the dumper answers with a placeholder, and PostGIS geometry.
- `build_bytes` without an index, which formats the pointer as text.
- The text of a row: number formatting and the order of columns in it; rows are opaque to the batching model.
- Numeric escapes in escape strings, which the dumper never writes: the reader in `Sql` rejects them.
- Tuple conversion to short varlenas before storing: rows hold values as they will be stored.
- Big-endian branches, tuple visibility, and memory exhaustion when a chunk's sequence number is huge.
- Toast.ToastMap.BuildBytes: the four-byte header read of a one-byte varlena at the very end of a buffer is taken as a read of its first byte, the only one used.
- How good the compression is beyond that: neither a ratio nor an optimal choice of matches is promised.
