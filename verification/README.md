# Verification of spidoNG's core in Dafny

This project models the parts of spidoNG in which a mistake would lose or corrupt data and
proves what they promise. spidoNG is an HTTP/1.1 server with a PostgreSQL layer behind it.

- **Write-ahead log** (`Crc32c`, `WalIntegers`, `WalFraming`, `WalCodec`, `WalBytes`,
  `WalLog`, `WalRuns`, `WalManager`, `WalEdges`): checksum, record codec, group commit,
  crash recovery.
- **HTTP parser and pipelining loop** (`HttpSyntax`, `HttpMeaning`, `HttpRender`, `HttpSound`,
  `HttpPrefix`, `HttpExtent`, `HttpStarved`, `HttpParser`, `HttpPipeline`, `HttpStreams`,
  `HttpCuts`): a specification by recursion, the grammar it accepts, the imperative parser
  that rewrites its buffer, and theorems about prefixes, receives and streams of messages.
- **JSON printer and body scanner** (`JsonText`, `JsonScan`, `JsonStrings`, `JsonFlat`,
  `JsonLayout`, `JsonRoundTrip`).
- **Batch writer** (`Coalesce`, `BatchWriter`): coalescing, versioned upserts, the queue
  and the dirty counts.
- **Caches** (`Probing`, `Shards`, `ShardOrder`, `CacheL1`, `EntityCache`, `EntityMap`,
  `EntityRuns`, `QueryCache`, `QueryInvalidation`, `QueryRuns`): three open-addressed tables with eviction, quotas and tags.
- **Router** (`Router`, `RouterTrie`): a trie against a plain list search.
- **Connection pool and token bucket** (`Pool`, `TokenBucket`).
- `TextAt` says that a text stands at a position of a buffer; `Basics` holds what several
  components share.

Objects the source mutates are classes, and each of their methods is proved against a
function of the state before it; theorems over runs are lemmas about those functions.
Concurrency is a state machine: the log and the pool take a step wherever their mutex is
free, the caches and the bucket take one step per public call. Inputs from outside are
parameters: hash functions, clocks, connect and ping outcomes, how many bytes the kernel
accepts, whether a swap is lost, which slots a sweep finds locked. Bytes are numbers below
256, a checksum word is 32 bits, sizes and wrap-around are explicit where they matter.

`dafny verify dfyconfig.toml` checks the whole project.

## Where code and documentation disagree

The model follows the code.

- The header of the log says replay delivers in increasing sequence order and that a
  refused record stays pending. Delivery is in file order, and the compaction guard looks
  only at the record accepted last (`WalEdges.ReplayInOrderIff`, `WalEdges.CompactsIff`).
- The log ignores a truncated record because it was never acknowledged; but records
  appended behind one are acknowledged and are not delivered
  (`WalEdges.TornWriteBlocksIff`, `WalEdges.DurableLostBehindTear`).
- A first-level cache key longer than its 80-byte buffer is stored under its prefix
  (`CacheL1.FoundIffShort`, `CacheL1.LongKeyAliases`).
- A shared-level put with a dirty window is said to be dropped; it replaces an entry
  (`QueryCache.ReplacesDirtyIff`).
- The dirty mark is said to be cleared once the database acknowledges; rows superseded by
  coalescing stay counted (`BatchWriter.Conservation`,
  `BatchWriter.MarkStaysBehind`).
- A retune of the token bucket is said to preserve the level; tokens accrued since the
  last call are forgotten (`TokenBucket.ResetKeepsIff`).
- The pool's maximum can be exceeded by one (`Pool.OverMaximumIff`).
- Repeated length headers with different values are accepted and the last one counts,
  where section 3.3.3 of RFC 7230 asks for a refusal (`HttpMeaning.NoteAllMeans`).
- A chunked body cut at a size line or before a trailer line feed is refused rather than
  awaited, and an unfinished chunked body has overwritten its own framing
  (`HttpStarved.VerdictFinal`, `HttpPipeline.CutsHarmlessIff`, `HttpCuts.CutOverwrites`).
- A connection refuses to receive once its unread input has reached the request limit, so
  that a longer request is served whole and refused in parts
  (`HttpPipeline.SplitIndependentIff`).

## Model

| member | source | states |
|---|---|---|
| WalLog.DurableSurvivesCrash | spido-pg/src/wal.cpp:165-217 | open a new or old file of whole records and run any interleaving of appenders and syncs: a handle that reads durable and was issued before any partial write is delivered at its place, behind all the old records, by replay from any disk that agrees with the file on its stable part; every delivered record equals the logged one in every field, with its timestamp cut to the whole microsecond toward zero |
| WalLog.CutRecovers | spido-pg/src/wal.cpp:268-327 | a log of whole records, old and new, cut anywhere behind the magic, reopens and delivers exactly the whole records before the cut, in file order, each equal to the logged one to the microsecond |
| WalLog.DamageStopsReplay | spido-pg/src/wal.cpp:291-294 | with checksums on, a record body damaged within 32 consecutive bits is never delivered; the records before it all are, and nothing after it |
| WalLog.SyncedAll | spido-pg/src/wal.cpp:202-217 | a group commit makes every handle issued so far durable and leaves no waiter |
| WalLog.RunKeeps | spido-pg/src/wal.cpp:165-217 | over every run: intact records lie back to back behind the magic, handle offsets are record ends, a set flag means a stable end, a clear flag has a waiter |
| WalLog.ApplyKeeps | spido-pg/src/wal.cpp:110-217 | one step (taking a number, a whole or short write, a sync) keeps that invariant |
| WalLog.Deliverable | spido-pg/src/wal.cpp:296-323 | what replay hands out for a list of records: each as it was logged, to the microsecond |
| WalRuns.DurableIffReached | spido-pg/src/wal.cpp:165-217 | in every run a handle reads durable if and only if the reported durable offset is at or past its offset, and in the modes that sync every append it always is |
| WalRuns.WaitsForSync | spido-pg/src/wal.cpp:179-197 | which of the four modes make a record durable at once, and what a whole write leaves |
| WalRuns.NumbersUnique | spido-pg/src/wal.cpp:172 | in every run with fewer than 2^64 appends the numbers are handed out as 1, 2, 3 and so on, and no two records are logged under the same one |
| WalRuns.OpensIff | spido-pg/src/wal.cpp:86-104 | a file opens if and only if it is empty or starts with the 64-bit magic, low byte first |
| WalRuns.MagicIs | spido-pg/src/wal.cpp:18 | the eight bytes of the magic spell its number |
| WalBytes.RecordBytes | spido-pg/src/wal.cpp:110-143 | a record on disk byte by byte: total length, checksum of what follows, every fixed field at its offset, the timestamp in whole microseconds, and three texts behind their lengths |
| WalBytes.DecodesIff | spido-pg/src/wal.cpp:296-323 | a body decodes if and only if it is 41 bytes and three texts, each behind its length, whatever follows |
| WalLog.RecoverPrefix | spido-pg/src/wal.cpp:268-327 | whole records at the front of a file are delivered first, then what a scan of the rest gives |
| WalEdges.TornWriteBlocksIff | spido-pg/src/wal.cpp:268-300 | checksums on or off, a record torn behind its length field blocks replay, so that only the records before it are delivered, if and only if what was appended behind it does not complete it to an acceptable record of its length |
| WalEdges.ScanTornIff | spido-pg/src/wal.cpp:276-294 | the same for any framing codec: the scan passes a torn frame exactly when the bytes that follow complete it |
| WalEdges.TornLengthBlocks | spido-pg/src/wal.cpp:276-286 | a record torn inside its length field, with another behind it, blocks replay until the log has grown to 256 to the power of the torn length times that record |
| WalEdges.DurableLostBehindTear | spido-pg/src/wal.cpp:152-158 | the failing family without the no-partial-write condition: a write torn inside its length field, or a longer one torn behind it, then a record written, synced and acknowledged, and replay delivers nothing |
| WalEdges.ReplayInOrderIff | spido-pg/include/spido_pg/wal.h:134-139 | in every run without partial or oversize writes, on a new or old file, replay is in increasing sequence order if and only if the old numbers followed by those of the writes that take effect, in step order, increase |
| WalEdges.ReplayNotInSequenceOrder | spido-pg/src/wal.cpp:172-179 | numbers taken as 1, 2 and written as 2, 1 replay as 2, 1: delivery is in file order |
| WalEdges.SerialReplaysInOrder | spido-pg/src/wal.cpp:165-200 | records appended one after the other replay as exactly those records, numbered from 1 in order |
| WalEdges.CompactsIff | spido-pg/src/wal.cpp:251-266 | for every delivered list, every callback and all counters, the compaction guard is open after a replay if and only if the record accepted last carries the largest number delivered or appended, or nothing was accepted and the old mark is that large |
| WalEdges.CompactsIffLastAccepted | spido-pg/src/wal.cpp:251-266 | the special case of a fresh process and records in sequence order: nothing was delivered or the last record was accepted |
| WalEdges.RefusedRecordDropped | spido-pg/include/spido_pg/wal.h:134-139 | so a record the callback left pending is not kept: in any log whose last accepted record carries the largest number the guard lets the whole file go |
| WalEdges.CrossedCompaction | spido-pg/src/wal.cpp:310-317 | the log holding 2, 1 never compacts when both are accepted, and does when only the first delivered is |
| WalEdges.AppendThenSync | spido-pg/src/wal.cpp:165-217 | the durability premises are met: one append and one sync make any record that fits durable and intact |
| WalCodec.FrameReads | spido-pg/src/wal.cpp:110-143 | what a record within 32-bit sizes is framed as reads back as that record to the microsecond, with or without checksums |
| WalCodec.DecodeBody | spido-pg/src/wal.cpp:296-323 | decoding undoes encoding: every field equal, and the timestamp a multiple of 1000 nanoseconds of the same sign, no further from zero and less than 1000 nearer to it |
| WalCodec.AtMicroseconds | spido-pg/src/wal.cpp:121-123 | the same statement about the record that comes back |
| WalCodec.DamageDetected | spido-pg/src/wal.cpp:291-294 | a body damaged within 32 consecutive bits keeps its length field but fails its checksum |
| WalFraming.Deliver | spido-pg/src/wal.cpp:268-327 | the scanning loop delivers what the recursive scan of the file does |
| WalFraming.ScanCut | spido-pg/src/wal.cpp:268-294 | a run of frames cut anywhere yields exactly the whole ones before the cut |
| WalFraming.ScanPrefix | spido-pg/src/wal.cpp:268-327 | whole frames are delivered in order and the scan goes on behind them |
| WalFraming.ScanStops | spido-pg/src/wal.cpp:291-294 | a wrong checksum ends the scan with everything before it delivered |
| WalIntegers.AppendLe | spido-pg/src/wal.cpp:32-35 | the byte loop appends the little-endian form |
| WalIntegers.ReadLe | spido-pg/src/wal.cpp:36-41 | the byte loop reads the little-endian value |
| WalIntegers.LittleEndianRoundTrip | spido-pg/src/wal.cpp:32-41 | reading undoes writing for every value that fits the width |
| WalIntegers.PutLeBytes | spido-pg/src/wal.cpp:32-35 | byte k of the written form is digit k of the number in base 256 |
| WalIntegers.FourBytes | spido-pg/src/wal.cpp:36-41 | the weights of the four bytes of a length or checksum field |
| WalIntegers.LittleEndianUnique | spido-pg/src/wal.cpp:32-41 | writing undoes reading |
| Crc32c.BurstDetected | spido-pg/src/wal.cpp:25-50 | two different byte strings of one length that differ only within 32 consecutive bits have different CRC-32C |
| Crc32c.ChecksumIsRemainder | spido-pg/src/wal.cpp:25-50 | the checksum is, inverted, the remainder of the message, moved up 32 places and with its first 32 bits inverted, divided by the generator 0x11EDC6F41 of section 12.1 of RFC 3720 |
| Crc32c.FeedDivides | spido-pg/src/wal.cpp:25-30 | shifting bits through the register is schoolbook division by the generator |
| Crc32c.PolynomialIsGenerator | spido-pg/src/wal.cpp:25-30 | the reflected constant has exactly the exponents of the generator |
| Crc32c.AllBitsAre | spido-pg/src/wal.cpp:25-30 | the bits of a message: eight per byte, low one first |
| Crc32c.FourBytesAreBurst | spido-pg/src/wal.cpp:45-50 | a difference within four consecutive bytes is such a burst |
| Crc32c.RegisterIsFeed | spido-pg/src/wal.cpp:25-30 | the byte-at-a-time register equals feeding the message bit by bit |
| Crc32c.FeedBackwards | spido-pg/src/wal.cpp:25-30 | equal registers after at most 32 bits mean that start register and bits differ in the same places |
| Crc32c.FeedInjective | spido-pg/src/wal.cpp:25-30 | a fixed suffix maps different registers to different registers |
| Crc32c.Compute | spido-pg/src/wal.cpp:45-50 | the loops compute the checksum, with its initial and final complement |
| Crc32c.ComputeRegister | spido-pg/src/wal.cpp:45-50 | the loop over bytes |
| Crc32c.ComputeByte | spido-pg/src/wal.cpp:25-30 | the eight shift steps of one byte |
| WalManager.Manager.constructor | spido-pg/src/wal.cpp:73-108 | an empty file gets the magic, an existing one is kept and appended to; the invariant holds |
| WalManager.Manager.Open | spido-pg/src/wal.cpp:73-108 | opening is refused exactly when a non-empty file does not start with the magic |
| WalManager.Manager.TakeSequence | spido-pg/src/wal.cpp:172 | taking a number is one step of a run and keeps the invariant |
| WalManager.Manager.WriteRecord | spido-pg/src/wal.cpp:110-163 | the locked part of an append is one step; it fails exactly on a short write; the handle it returns is the new one, at the new offset |
| WalManager.Manager.Store | spido-pg/src/wal.cpp:179-197 | file, offsets, synced length, waiters and handles after a whole write, by durability mode |
| WalManager.Manager.Append | spido-pg/src/wal.cpp:165-200 | an append takes the next number and writes under it; it fails exactly on a short write, and its handle is the new one, for that entry, at the new offset |
| WalManager.Manager.Fdatasync | spido-pg/src/wal.cpp:202-217 | the sync step: afterwards every handle is durable and nobody waits |
| WalManager.Manager.Replay | spido-pg/src/wal.cpp:268-327 | delivers the scan of the file up to the offset, sets flushed to the last accepted number and appended to the largest, and keeps the invariant |
| WalManager.Settle | spido-pg/src/wal.cpp:208-216 | the erase-while-iterating loop sets exactly the flags within the limit and keeps exactly the waiters beyond it |
| WalManager.Serialise | spido-pg/src/wal.cpp:113-143 | the field-by-field serialisation is the frame of the entry, whose bytes `WalBytes.RecordBytes` gives |
| HttpPipeline.SplitIndependentIff | spido/src/server/io_uring_server.cpp:640-661 | for a stream without chunked requests, single-shot receives: every way of cutting it gives the same requests, refusals, close and unread input as one receive of the whole, if and only if every request in it is decided within the limit on unread input, or never, or is refused for its size anyway |
| HttpPipeline.SplitIndependent | spido/src/server/io_uring_server.cpp:766-896 | the sufficient half, for each way of cutting |
| HttpPipeline.MultishotIff | spido/src/server/io_uring_server.cpp:682-714 | the same for receives that stay armed, where input arriving behind a close is still processed: if and only if the stream closes with its last byte, or not, or with nothing answerable behind |
| HttpPipeline.ServeSplit | spido/src/server/io_uring_server.cpp:768-782 | behind any prefix that neither starves nor has chunk data moved, serving the prefix and then processing the rest is serving the whole |
| HttpPipeline.CutsHarmlessIff | spido/src/server/http_parser.cpp:359-418 | a complete keep-alive request is insensitive to every way of cutting it exactly when it is not chunked and, single-shot, no longer than the limit |
| HttpPipeline.ChunkedCutRefused | spido/src/server/http_parser.cpp:382 | a chunked request cut right behind its head is answered with 400 instead of being awaited |
| HttpCuts.CutOverwrites | spido/src/server/http_parser.cpp:385-413 | cut behind a whole chunk and the beginning of the next size line, the parser asks for more with the chunk's data written over its size line |
| HttpCuts.CutServesOtherBody | spido/src/server/http_parser.cpp:385-413 | so the request can be served with another body than it was sent with |
| HttpExtent.DecidedByOwnBytes | spido/src/server/http_parser.cpp:181-357 | a request that is not chunked is undecided on every prefix shorter than it and decided on every other |
| HttpExtent.ParseLate | spido/src/server/http_parser.cpp:181-357 | while the parser asks for more, what it reads in the end ends behind what it has |
| HttpPipeline.ProcessInput | spido/src/server/io_uring_server.cpp:766-896 | the loop over pipelined requests computes the served events, the close and the remaining input |
| HttpPrefix.ParseStable | spido/src/server/http_parser.cpp:165-437 | a Done, BadRequest or TooLarge verdict on a prefix, with its request and consumed count, is the verdict on every extension, unless a chunked body ran out of bytes at a size or at a trailer line end |
| HttpStarved.VerdictFinal | spido/src/server/http_parser.cpp:382-398 | a verdict is unchanged by every extension if and only if the bytes are not a chunked head followed by whole chunks that end where the bytes do, or by a trailer section cut inside a line end |
| HttpStarved.StarvedIff | spido/src/server/http_parser.cpp:382-398 | the parser gives up for want of bytes exactly on those |
| HttpPrefix.Unstarved | spido/src/server/http_parser.cpp:382-398 | every starved BadRequest has an extension on which the parser answers Done |
| HttpPrefix.ChunksUnstarved | spido/src/server/http_parser.cpp:359-418 | the same for the chunk decoder from any position |
| HttpPrefix.ChunksStable | spido/src/server/http_parser.cpp:359-418 | the chunk decoder, once decided and not starved, never changes its mind |
| HttpPrefix.HeadStable | spido/src/server/http_parser.cpp:181-349 | request line, version and header section: decided once, decided for good |
| HttpRender.PlainReads | spido/src/server/http_parser.cpp:165-357 | every valid rendered head with a matching body parses to its method, path, query, version, headers, keep-alive and body, consuming exactly the message whatever follows; token characters, blanks and versions are spelled out |
| HttpSound.DoneIff | spido/src/server/http_parser.cpp:165-437 | the parser is exact: it answers Done with a request and a length if and only if the bytes begin with a valid message of the grammar, plain or chunked, of that length and saying that request |
| HttpSound.HeadSound | spido/src/server/http_parser.cpp:181-349 | every head that is accepted is one of the grammar and is read as its lines say |
| HttpSound.ChunksSound | spido/src/server/http_parser.cpp:359-418 | every chunked body that is accepted is a list of chunks with a last chunk and trailers, and the body is their data |
| HttpStreams.StreamServed | spido/src/server/io_uring_server.cpp:766-896 | a stream of valid messages that keep the connection open is served as exactly their requests in order, and what follows as if it stood alone |
| HttpStreams.LastServed | spido/src/server/io_uring_server.cpp:766-896 | a message that does not keep it open is served, closes the connection and leaves the rest unread |
| HttpStreams.RefusedHead | spido/src/server/io_uring_server.cpp:766-896 | a head with an unacceptable line is answered 413 when the first such line is a length over the limit and 400 otherwise, and the connection closes |
| HttpStreams.RefusedFraming | spido/src/server/http_parser.cpp:351-357 | a message framed both by length and by chunks is answered 400 |
| HttpStreams.RefusedChunk | spido/src/server/http_parser.cpp:359-418 | a chunk that would take the body over the limit is answered 413 at its size line |
| HttpStreams.ShortBodyAwaited | spido/src/server/http_parser.cpp:420-436 | a body shorter than declared is awaited with the input kept |
| HttpStreams.FinishedHeadDecided | spido/src/server/http_parser.cpp:181-349 | once a head ends in an empty line the parser has decided it: more bytes are asked for only on account of the body |
| HttpRender.ChunkedReads | spido/src/server/http_parser.cpp:359-418 | every complete chunked message, with extensions and trailers and a total within the limit, parses to the concatenation of its chunks and is consumed exactly |
| HttpRender.ChunksRead | spido/src/server/http_parser.cpp:359-418 | the decoder walks any list of non-empty chunks and collects their data in order |
| HttpRender.TrailersRead | spido/src/server/http_parser.cpp:390-404 | any number of trailer lines is skipped up to the blank line |
| HttpRender.HeadReads | spido/src/server/http_parser.cpp:181-349 | a rendered head is read as what its fields say, including the refusals that conflicting or oversize length fields bring |
| HttpMeaning.NoteAllMeans | spido/src/server/http_parser.cpp:304-349 | what a header section says, with names and values compared letter by letter up to ASCII case: it is accepted exactly when every length is a decimal within the limit and every transfer coding is chunked; all headers are kept in order, any coding line makes the body chunked, the last length counts, and so does the last close or keep-alive |
| HttpMeaning.NoteAllRefuses | spido/src/server/http_parser.cpp:304-349 | a refusal is decided by the first unacceptable line: too large for a length over the limit, bad otherwise |
| HttpMeaning.LowerSame | spido/src/server/http_parser.cpp:44-68 | lower-casing makes two texts equal exactly when they agree letter by letter up to ASCII case |
| HttpRender.FieldReads | spido/src/server/http_parser.cpp:254-300 | a header line with any blanks around its value reads as its name and the trimmed value |
| HttpRender.SectionReads | spido/src/server/http_parser.cpp:254-349 | a header section reads as its fields noted in order |
| HttpMeaning.LengthReads | spido/src/server/http_parser.cpp:134-161 | for every value and limit: a decimal within the limit reads as its number, a value that begins with a decimal over it as too large, or as zero at the largest limit, where the sum wraps, and anything else as malformed |
| HttpRender.TargetSplits | spido/src/server/http_parser.cpp:200-226 | a target splits into path and query at the first question mark |
| HttpParser.Run | spido/src/server/http_parser.cpp:165-437 | the parser on its buffer computes the verdict, which `HttpSound.DoneIff` characterises, and the buffer afterwards byte by byte |
| HttpParser.DecodeChunks | spido/src/server/http_parser.cpp:359-418 | the in-place decode: the verdict, and exactly which bytes were overwritten |
| HttpParser.AppendChunk | spido/src/server/http_parser.cpp:407-416 | one chunk moved down behind the body so far |
| HttpParser.MoveDown | spido/src/server/http_parser.cpp:412 | an overlapping forward move |
| HttpParser.WriteStaysBehind | spido/src/server/http_parser.cpp:359-418 | the write position stays strictly behind the read position for every complete chunked body |
| HttpParser.DoneLeavesRest | spido/src/server/http_parser.cpp:359-436 | after Done the head and every byte behind the message are untouched, and the decoded body lies right behind the head |
| HttpParser.ReadHead | spido/src/server/http_parser.cpp:181-349 | request line, version and headers as the specification reads them |
| HttpParser.ReadSection | spido/src/server/http_parser.cpp:254-349 | the header loop |
| HttpParser.ReadSizeLine | spido/src/server/http_parser.cpp:368-388 | one chunk-size line with its extension |
| HttpParser.ReadTrailers | spido/src/server/http_parser.cpp:390-404 | the trailer loop |
| HttpParser.ReadLength | spido/src/server/http_parser.cpp:134-161 | the digit loop of Content-Length |
| HttpParser.ScanToken | spido/src/server/http_parser.cpp:181-198 | the method token loop |
| HttpParser.ScanTarget | spido/src/server/http_parser.cpp:200-226 | the target loop |
| JsonFlat.ParseIff | spido-pg/include/spido_pg/json.h:162-201 | the body scanner is exact: it accepts a body and records given fields and nulls if and only if the body begins, after blanks, with an object whose members record them: keys and strings in any spelling, other values as words or bracketed texts, and any run of spaces, tabs, line feeds and carriage returns around every brace, key, colon, value and comma |
| JsonFlat.ObjectReads | spido-pg/include/spido_pg/json.h:162-201 | parsing such an object, whatever follows it, records its members in order |
| JsonFlat.RawReads | spido-pg/include/spido_pg/json.h:117-158 | the raw scanner consumes exactly a word or a bracketed text that the input ends after or a delimiter follows |
| JsonFlat.RawSound | spido-pg/include/spido_pg/json.h:117-158 | it consumes nothing else |
| JsonFlat.BalancedReads | spido-pg/include/spido_pg/json.h:132-148 | the bracket counter ends behind the bracket that closes the first one, strings passed over |
| JsonStrings.StringIff | spido-pg/include/spido_pg/json.h:64-112 | a string is read, and read as its meaning, exactly when one is spelled there: plain characters, the eight short escapes, or four hexadecimal digits |
| JsonStrings.Utf8Encodes | spido-pg/include/spido_pg/json.h:92-106 | the bytes of a four-digit escape decode to its number by the table of section 3 of RFC 3629 |
| JsonStrings.QuoteCloses | spido-pg/include/spido_pg/json.h:122-131 | skipping a string ends at its own closing quote |
| JsonRoundTrip.DistinctKeysRecovered | spido-pg/include/spido_pg/json.h:162-201 | a JSON object with distinct keys, with any blanks between its tokens, any spelling of its strings and any nesting, comes back whole: strings decoded, nulls as nulls, everything else as it stands, and nothing more |
| JsonRoundTrip.DictReads | spido-pg/include/spido_pg/json.h:162-201 | with repeated keys too its members are recorded in order |
| JsonRoundTrip.NestedReads | spido-pg/include/spido_pg/json.h:117-158 | the raw scanner consumes exactly a value of JSON, however nested and laid out |
| JsonRoundTrip.RecordedWhere | spido-pg/include/spido_pg/json.h:180-196 | with repeated keys: a key is null exactly if some member made it so, and its field is that of its first member that is not null |
| JsonRoundTrip.PrintedRecovered | spido/include/spido/json.h:59-121 | the scanner undoes the printer: every member of a printed object with distinct keys comes back, a string as itself and any other value as its own print |
| JsonLayout.ValueSober | spido-pg/include/spido_pg/json.h:132-148 | every value of JSON opens and closes its brackets in pairs outside strings, so that a count of either kind passes over it |
| JsonRoundTrip.QuotedSpells | spido/include/spido/json.h:59-81 | a printed string is spelled as JSON spells it and denotes what was printed |
| JsonRoundTrip.EscapeSpells | spido/include/spido/json.h:59-81 | so is every single character, and no control character is printed as it is |
| JsonRoundTrip.ScalarsPrinted | spido/include/spido/json.h:83-120 | the literals are printed as such, an integer as a numeral that denotes it, a string between quotes |
| JsonRoundTrip.ArrayPrinted | spido/include/spido/json.h:98-106 | an array is its items between brackets, separated by commas |
| JsonRoundTrip.ObjectPrinted | spido/include/spido/json.h:107-118 | an object is its members between braces, each key before a colon, separated by commas |
| JsonText.Escape | spido/include/spido/json.h:59-81 | the escaping loop appends the quoted form |
| JsonText.NatTextValue | spido/include/spido/json.h:83-120 | decimal text denotes its number |
| JsonText.IntTextValue | spido/include/spido/json.h:83-120 | signed decimal text denotes its number |
| JsonText.IntTextPlain | spido/include/spido/json.h:83-120 | and is the plain numeral: a sign exactly for negative numbers, no leading zero |
| JsonScan.ParseString | spido-pg/include/spido_pg/json.h:64-112 | the decoding loop computes what `JsonStrings.StringIff` characterises |
| JsonScan.ScanBalanced | spido-pg/include/spido_pg/json.h:132-148 | the bracket-counting loop computes what `JsonFlat.BalancedReads` characterises |
| JsonScan.Parse | spido-pg/include/spido_pg/json.h:162-201 | the member loop computes what `JsonFlat.ParseIff` characterises |
| Basics.HexDigitIs | spido-pg/include/spido_pg/json.h:84-91 | a hexadecimal digit is read by its place among the sixteen, in either case |
| Coalesce.CoalescePreserves | spido-pg/src/batch_writer.cpp:184-230 | coalescing then upserting under the version guard gives the same table as upserting every row, for every starting table, if and only if the last row of each key carries its highest version |
| Coalesce.OrderedIsNewest | spido-pg/src/batch_writer.cpp:184-204 | versions that do not decrease per key in queue order meet that condition |
| Coalesce.CoalescedDistinct | spido-pg/src/batch_writer.cpp:184-204 | coalesced keys are pairwise distinct |
| Coalesce.CoalescedKeys | spido-pg/src/batch_writer.cpp:184-204 | coalescing keeps exactly the keys, and the last row of each |
| Coalesce.FinalAt | spido-pg/src/batch_writer.cpp:215-230 | what upserting a batch leaves at a key: the row before it if that is newer, else the last row of the batch |
| Coalesce.VersionsGrow | spido-pg/src/batch_writer.cpp:226-229 | under the guard no version in the table ever goes down, and it reaches every version sent |
| Coalesce.DistinctUnchanged | spido-pg/src/batch_writer.cpp:195-204 | a batch with distinct keys is left as it is |
| Coalesce.KeepsAllIff | spido-pg/src/batch_writer.cpp:195-204 | coalescing drops nothing if and only if the keys are distinct |
| Coalesce.IndexLast | spido-pg/src/batch_writer.cpp:189-194 | the index loop finds the last position of every key |
| Coalesce.KeepLast | spido-pg/src/batch_writer.cpp:184-204 | both loops together compute the coalesced batch |
| BatchWriter.Conservation | spido-pg/src/batch_writer.cpp:84-320 | in every interleaving of writers and flusher the rows written are, in order, those of the batches sent, those in flight and those queued; the counters are those of the batches; the dirty count is what is pending plus what coalescing dropped, positive while any row is unacknowledged, and once nothing is pending it is zero if and only if the table keeps events or no batch held a key twice |
| BatchWriter.MarkStaysBehind | spido-pg/src/db.cpp:17-27 | two rows of one key drained together and acknowledged leave nothing pending and a dirty count of one |
| BatchWriter.SentAllIff | spido-pg/src/batch_writer.cpp:184-204 | a batch loses no row if and only if the table keeps events or its keys are distinct |
| BatchWriter.DrainTakes | spido-pg/src/batch_writer.cpp:292-320 | the flusher takes a full batch from the front of the queue, or all there is; stopped with nothing queued it returns |
| BatchWriter.TriedExactly | spido-pg/src/batch_writer.cpp:240-290 | a batch is tried as often as configured and at least once, then counted as failed; taken before that it is counted as flushed, whole |
| BatchWriter.WrittenIsStored | spido-pg/src/batch_writer.cpp:84-320 | in every run of a state table whose versions do not decrease per key, the database holds what upserting the rows of the batches it took one by one would leave; without failures and with nothing pending, all rows written |
| BatchWriter.DatabaseIs | spido-pg/src/batch_writer.cpp:184-230 | the same for any batches of each of which the last row of every key is newest |
| BatchWriter.ReturnsDrained | spido-pg/src/batch_writer.cpp:292-320 | a flusher that returns was stopped, and what it leaves queued is exactly what was queued after its return |
| BatchWriter.RunBalanced | spido-pg/src/batch_writer.cpp:84-320 | the balance holds along every run from any balanced state |
| BatchWriter.Table.Write | spido-pg/src/db.cpp:172-178 | a write raises the dirty count and then queues the row |
| BatchWriter.Table.SendBatch | spido-pg/src/batch_writer.cpp:173-290 | retries up to the limit, stops at the first success, and tells the observer the coalesced count, flushed or failed |
| BatchWriter.Table.FlushOnce | spido-pg/src/batch_writer.cpp:292-320 | one drain of at most a batch: the queue, the batch recorded with its outcome, and all counters in balance |
| BatchWriter.Table.DrainAndReturn | spido-pg/src/batch_writer.cpp:292-320 | after a stop the flusher terminates with an empty queue and every row in a batch; the dirty count it leaves is zero if and only if no batch of a state table held a key twice |
| RouterTrie.Match | spido/src/server/router.cpp:73-98 | walking the trie returns what filtering the registered patterns segment by segment returns: literal before wildcard, no backtracking, last registration wins |
| RouterTrie.Routes.Insert | spido/src/server/router.cpp:53-71 | insertion in place makes the trie hold one more route |
| RouterTrie.Routes.Add | spido/src/server/router.cpp:26-37 | a pattern goes to the trie, a plain path to the table |
| RouterTrie.Routes.Find | spido/src/server/router.cpp:100-114 | the table first, then the list search over everything registered |
| RouterTrie.StepGrown | spido/src/server/router.cpp:53-71 | a new node keeps the correspondence between nodes and registered prefixes |
| RouterTrie.EntrySet | spido/src/server/router.cpp:53-71 | setting the entry at the final node completes the route |
| Router.HitMatches | spido/src/server/router.cpp:73-98 | a hit is the entry of a registered pattern that matches the path, the last one with an entry of those that go the same way; what was captured is, for each of its wildcards in order, the path segment under the name that the first pattern through that wildcard gave it |
| Router.LastRegisteredWins | spido/src/server/router.cpp:53-98 | the pattern registered last is found for every path it matches, with its captures and their names, unless a route that goes the same way up to one of its wildcards has the path's own segment there |
| Router.SegmentsAre | spido/src/server/router.cpp:14-22 | a path is its segments: no slash in any, and joined with slashes they give it back but for a leading slash and with a closing one |
| Router.Split | spido/src/server/router.cpp:14-22 | the splitting loop |
| Router.SegmentsJoin | spido/src/server/router.cpp:14-22 | the segments joined by slashes give the path back, up to a trailing slash |
| Router.SegmentsClean | spido/src/server/router.cpp:14-22 | no segment contains a slash |
| CacheL1.PutExact | spido-pg/src/cache.cpp:102-127 | after a put of a key of at most 80 bytes the key reads as the value, and every other key reads as before except the one evicted; only a full window evicts, and it evicts its least recently used |
| CacheL1.FoundIffShort | spido-pg/src/cache.cpp:34-48 | a key just put is found if and only if it has at most 80 bytes |
| CacheL1.EvictsLeastRecentlyUsed | spido-pg/src/cache.cpp:102-127 | a key is pushed out of its slot only when its window is all in use and every other slot of it was used since |
| CacheL1.LongKeyAliases | spido-pg/src/cache.cpp:34-48 | a longer key is instead served to whoever asks for its first 80 bytes |
| CacheL1.HashLooksAtPrefix | spido-pg/src/cache.cpp:51-67 | the hash reads no byte past the buffer, so that prefix has the same hash |
| CacheL1.HashExamples | spido-pg/src/cache.cpp:51-67 | short keys hash by 64-bit FNV-1a, longer ones by their first eight bytes, low byte first |
| Probing.WindowIs | spido-pg/src/cache.cpp:88-100 | a probe window is the slots from the hash's own on, one after the other and around the end |
| CacheL1.ProbeExact | spido-pg/src/cache.cpp:88-100 | a probe finds a key exactly when some slot holds it, and finds that slot |
| CacheL1.StoredGood | spido-pg/src/cache.cpp:102-127 | a put keeps one slot per key and only used slots before it in its window |
| CacheL1.TouchGood | spido-pg/src/cache.cpp:88-100 | refreshing a slot changes no answer |
| CacheL1.VictimIs | spido-pg/src/cache.cpp:102-120 | the slot a put takes is the first free or matching one of the window, or its least recently used |
| CacheL1.Table.FindRaw | spido-pg/src/cache.cpp:88-100 | returns the mapped value, records the use, and changes no answer |
| CacheL1.Table.Put | spido-pg/src/cache.cpp:102-127 | the whole slot array after a put of any key, and the use recorded |
| CacheL1.Table.Choose | spido-pg/src/cache.cpp:102-120 | the victim loop |
| CacheL1.Table.Clear | spido-pg/src/cache.cpp:129 | afterwards every key misses |
| CacheL1.Table.constructor | spido-pg/src/cache.cpp:76-83 | an empty table whose size is the next power of two |
| Shards.FindExact | spido-pg/src/entity_cache.cpp:107-122 | with one slot per key inside its window, the full-window probe finds exactly that slot |
| Shards.ReachIff | spido-pg/src/entity_cache.cpp:64-91 | the reader, which stops at the first free slot, finds a key if and only if it lies in its window with no free slot before it |
| Shards.ReachSound | spido-pg/src/entity_cache.cpp:64-91 | what the reader finds is the key's only slot |
| Shards.WrittenReached | spido-pg/src/entity_cache.cpp:64-91 | a key that was not resident, written to the first free slot of its window or into a full one, is found by the reader |
| Shards.WriteGood | spido-pg/src/entity_cache.cpp:147-173 | a write keeps one slot per key, inside its window, and the byte counter exact |
| Shards.Survey | spido-pg/src/entity_cache.cpp:101-146 | one pass finds the own slot, the first free one and the least recently used allowed one |
| Shards.ScanOldest | spido-pg/src/cache.cpp:379-386 | the whole-shard scan finds the least recently used allowed slot |
| ShardOrder.EvictsOne | spido-pg/src/cache.cpp:374-399 | one eviction of the least recently used slot that may go, followed by such evictions, is again one: only such slots, oldest first, and no more than needed |
| ShardOrder.UseTracks | spido-pg/src/entity_cache.cpp:147-173 | every use gives the highest stamp, so that the stamps tell when each key was last used |
| Shards.FindSlot | spido-pg/src/entity_cache.cpp:204-212 | the full-window probe loop |
| Shards.ReachSlot | spido-pg/src/entity_cache.cpp:64-91 | the stop-at-free probe loop |
| EntityCache.ReadsLatest | spido-pg/src/entity_cache.cpp:64-257 | in every run a read returns nothing or exactly the row of the latest put of its key with no erase after it; each key has at most one slot, inside its window; the byte counter is the sum of the slot sizes |
| EntityCache.UnsavedStays | spido-pg/src/entity_cache.cpp:121-140 | a dirty or flushing row keeps slot, content and state across every call except a write of its own key or an acknowledgement of at least its version |
| EntityCache.UnsavedStaysInRun | spido-pg/src/entity_cache.cpp:200-368 | so it does across every run of such calls |
| EntityRuns.PutLeaves | spido-pg/src/entity_cache.cpp:93-174 | a put that found a place leaves its row, version and expiry, dirty exactly when it was put so; one that found none changes nothing |
| EntityRuns.DirtyStays | spido-pg/src/entity_cache.cpp:93-368 | a row put dirty is still mapped, still dirty, after every run of calls none of which writes its key or acknowledges its version |
| EntityRuns.PinnedStaysInRun | spido-pg/src/entity_cache.cpp:121-146 | a pinned row keeps its slot and content through every run of calls that do not name its key |
| EntityRuns.PinMarks | spido-pg/src/entity_cache.cpp:259-290 | a pin marks the slot of its key and nothing else |
| EntityRuns.EvictsLeastRecentlyUsed | spido-pg/src/entity_cache.cpp:101-146 | in every run a put pushes out the least recently used: every other unpinned row of the window has been read or written since |
| EntityRuns.ExpiryExact | spido-pg/src/entity_cache.cpp:310-344 | the expiry pass frees exactly the unlocked slots with a clean, unpinned row whose time has come |
| EntityRuns.QuotaExact | spido-pg/src/entity_cache.cpp:345-368 | the quota pass gives up clean unpinned rows only, least recently used first, no more than it has to, until within quota or none is left |
| EntityRuns.RunMeasured | spido-pg/src/entity_cache.cpp:147-173 | in every run the byte counter is the sum over the resident rows of 112 bytes, the data and the primary key |
| EntityMap.PutMaps | spido-pg/src/entity_cache.cpp:93-174 | a put maps its key to the new row, or to nothing when it found no place; every other key stays as it was but for the one pushed out |
| EntityMap.EvictsOldestClean | spido-pg/src/entity_cache.cpp:101-146 | what is pushed out was clean, unpinned and the least recently used unpinned row of a window without free slots |
| EntityMap.PutReadable | spido-pg/src/entity_cache.cpp:64-174 | a put of a key that was not resident is what a read then answers |
| EntityMap.PutRefusedIff | spido-pg/src/entity_cache.cpp:101-146 | a put finds no place if and only if every slot of its window holds another key and the unpinned one last used longest ago, if any, is not clean |
| EntityMap.ErasedMaps | spido-pg/src/entity_cache.cpp:176-198 | an erase maps its key to a tombstone, others as for a put |
| EntityMap.FlushedMaps | spido-pg/src/entity_cache.cpp:200-228 | an acknowledgement of at least the version cleans the row or removes the tombstone; nothing else changes for any key |
| EntityMap.NotifiedMaps | spido-pg/src/entity_cache.cpp:230-257 | a newer version from elsewhere removes the key unless its row is dirty or flushing; nothing else changes for any key |
| EntityMap.GotMaps | spido-pg/src/entity_cache.cpp:64-91 | a read changes no mapping, and answers the mapped row or nothing |
| EntityMap.ExpiredGone | spido-pg/src/entity_cache.cpp:310-344 | after the expiry pass no unlocked slot holds a clean, unpinned row past its time |
| EntityMap.SweptMaps | spido-pg/src/entity_cache.cpp:310-368 | a sweep only takes keys away |
| EntityCache.ApplySound | spido-pg/src/entity_cache.cpp:93-368 | every call keeps one slot per key, windows and byte counter |
| EntityCache.ApplyTruthful | spido-pg/src/entity_cache.cpp:64-257 | every call keeps each slot telling the last write of its key |
| EntityCache.Target | spido-pg/src/entity_cache.cpp:101-146 | the slot a put takes from another key is clean and unpinned, in the window |
| EntityCache.SweepQuota | spido-pg/src/entity_cache.cpp:345-368 | the quota pass ends within quota or with nothing clean and unpinned left |
| EntityCache.Table.Read | spido-pg/src/entity_cache.cpp:64-91 | the answer and the state after a read |
| EntityCache.Table.Write | spido-pg/src/entity_cache.cpp:93-174 | the state after a put, of which `EntityRuns.PutLeaves` says what it holds |
| EntityCache.Table.Store | spido-pg/src/entity_cache.cpp:101-174 | placing a row: own slot, free slot, least recently used clean slot, or none |
| EntityCache.Table.Delete | spido-pg/src/entity_cache.cpp:176-198 | the state after an erase: a tombstone |
| EntityCache.Table.Acknowledge | spido-pg/src/entity_cache.cpp:200-228 | a flush acknowledgement of at least the version cleans the row or drops the tombstone |
| EntityCache.Table.Reconcile | spido-pg/src/entity_cache.cpp:230-257 | a newer version from elsewhere drops the row unless it is unsaved |
| EntityCache.Table.SweepOnce | spido-pg/src/entity_cache.cpp:310-368 | both sweep passes |
| EntityCache.Table.ExpirePass | spido-pg/src/entity_cache.cpp:310-344 | the expiry loop over unlocked slots |
| EntityCache.Table.QuotaPass | spido-pg/src/entity_cache.cpp:345-368 | the quota loop |
| QueryCache.HitsWereStored | spido-pg/src/cache.cpp:210-261 | in every run a hit on any thread is a value some earlier put stored under exactly that key, unless the thread has read a key over 80 bytes that begins with it; a hit from the shared level is always the latest of the key |
| QueryInvalidation.MissesUntilPut | spido-pg/src/cache.cpp:404-437 | in every run, after a table is invalidated every key whose last put carried its tag misses on that thread through any further calls of any thread that do not put the key, unless the thread reads a longer key whose first 80 bytes are the key |
| QueryInvalidation.AliasReadHits | spido-pg/src/cache.cpp:34-48 | such a read makes the key hit with the longer key's value |
| QueryInvalidation.RunAbsent | spido-pg/src/cache.cpp:210-493 | a key absent from the shared level and from a thread stays absent for it until put |
| QueryCache.NoTagLeft | spido-pg/src/cache.cpp:404-437 | after invalidation no shared slot carries the tag, and the slots left are as they were |
| QueryCache.PutWithinQuota | spido-pg/src/cache.cpp:340-399 | after every put the byte counter is the sum of the slot sizes, the shard is within quota or holds only dirty-tagged slots, and the quota loop removed no dirty-tagged slot |
| QueryRuns.DirtyIffBalance | spido-pg/src/cache.cpp:495-516 | in every run a table counts as dirty if and only if the balance of its marks is positive: one more for every mark, one less, never below zero, for every clearing |
| QueryRuns.SweepInRun | spido-pg/src/cache.cpp:460-493 | in every run a sweep frees exactly the unlocked slots whose time has come and whose table has no open mark |
| QueryRuns.QuotaInRun | spido-pg/src/cache.cpp:374-399 | in every run a put brings its shard within quota by giving up only slots without a tag or whose table has no open mark, least recently used first and no more than it has to |
| QueryRuns.PutSparesDirty | spido-pg/src/cache.cpp:293-333 | in every run a slot whose table has an open mark survives the put of another key, unless that key has no slot and its whole window is held under such tables |
| QueryRuns.PushesOutLeastRecent | spido-pg/src/cache.cpp:293-333 | in every run a put takes another key's slot only in a window all in use, and there the one least recently read or put, or one without an open mark when that one has one |
| QueryRuns.ReadIsFreshest | spido-pg/src/cache.cpp:210-261 | in every run a read that is answered leaves its key with the answer as the most recently used entry of its thread's first level, and changes one slot there |
| QueryCache.ReplacesDirtyIff | spido-pg/src/cache.cpp:293-333 | a put takes the slot of a dirty-tagged entry exactly when its key is not resident and the whole window is dirty-tagged |
| QueryCache.TrimKeeps | spido-pg/src/cache.cpp:374-399 | the quota loop only removes slots, and none with a dirty tag |
| QueryCache.ExpireKeeps | spido-pg/src/cache.cpp:460-493 | the expiry sweep only removes slots, and none with a dirty tag |
| QueryCache.ExpireGone | spido-pg/src/cache.cpp:460-493 | after the sweep no unlocked slot is past its time unless its tag is dirty |
| QueryCache.PlacedReadable | spido-pg/src/cache.cpp:293-362 | a put always finds a place; its slot then holds the new content, no other slot has changed, and a key that was not resident is found by readers |
| QueryCache.SweepFewer | spido-pg/src/cache.cpp:460-493 | the same over all shards |
| QueryCache.ApplyTruthful | spido-pg/src/cache.cpp:210-493 | every call keeps each shared slot in its shard, telling the last put of its key and listed under its tag, and each first-level slot telling some earlier put |
| QueryCache.Trim | spido-pg/src/cache.cpp:374-399 | the quota loop terminates within quota or with nothing evictable left |
| QueryCache.ShardTable.Place | spido-pg/src/cache.cpp:293-362 | the shard after placing an entry |
| QueryCache.ShardTable.TrimToQuota | spido-pg/src/cache.cpp:374-399 | the quota loop |
| QueryCache.ShardTable.Drop | spido-pg/src/cache.cpp:412-432 | dropping one invalidated key |
| QueryCache.ShardTable.ExpirePass | spido-pg/src/cache.cpp:460-493 | the expiry loop of one shard |
| QueryCache.ScanEvictable | spido-pg/src/cache.cpp:318-333 | the fallback loop for the first evictable slot of the window |
| Pool.StartSafe | spido-pg/src/pool.cpp:29-229 | over every interleaving of any number of callers with the health thread from the constructor on: each connection is in one place, the live count is exactly idle, popped, borrowed, connecting and held by the health pass, and it stays within the maximum, or one above once a health top-up has finished |
| Pool.RunSafe | spido-pg/src/pool.cpp:72-229 | the same from any state that satisfies it |
| Pool.StepKeeps | spido-pg/src/pool.cpp:72-229 | each step keeps it |
| Pool.OverMaximumIff | spido-pg/src/pool.cpp:219-226 | the only step that takes a pool above its maximum is a top-up finishing when callers have filled it meanwhile |
| Pool.OvershootHappens | spido-pg/src/pool.cpp:219-226 | a six-step run that does so |
| Pool.FirstInFirstOut | spido-pg/src/pool.cpp:72-229 | the idle line is a queue over every run: what was taken out, followed by what is still idle, is what was idle at first, followed by what was put in, in order |
| Pool.Normalised | spido-pg/src/pool.cpp:30-32 | the limits after defaults: the number of cores, or one, for a minimum of zero, four times the minimum for a maximum of zero, a maximum below the minimum raised to it, explicit values kept |
| Pool.Fill | spido-pg/src/pool.cpp:36-49 | the eager fill stops at the minimum or at the first failed connect |
| Pool.PgPool.constructor | spido-pg/src/pool.cpp:29-54 | the pool starts filled to the minimum or to the first failed connect |
| Pool.PgPool.Checkout | spido-pg/src/pool.cpp:72-120 | turns and pauses until the deadline, with any steps of other threads in every pause, are a run of the protocol; the connection given is, in some turn, the first idle one that is ready, or a new one when none is; none is given only when the deadline has come |
| Pool.PgPool.TakeTurn | spido-pg/src/pool.cpp:77-110 | one turn gives the first idle connection that is ready and drops the dead ones before it; with none ready it drops them all and connects a new one if the maximum allows and the connect succeeds |
| Pool.PgPool.TryIdle | spido-pg/src/pool.cpp:77-90 | idle connections are tried front first: the first ready one is given and the dead ones before it dropped, or none and all dropped |
| Pool.PgPool.Checkin | spido-pg/src/pool.cpp:122-135 | the connection leaves the borrowed ones; healthy, it goes behind the idle ones, otherwise the live count drops |
| Pool.PgPool.PingAll | spido-pg/src/pool.cpp:201-217 | exactly the connections that answer come back, in order |
| Pool.PgPool.Refill | spido-pg/src/pool.cpp:219-226 | the top-up reaches the minimum or stops at a failed connect |
| Pool.PgPool.HealthPass | spido-pg/src/pool.cpp:194-229 | a whole uninterrupted health pass |
| Pool.PgPool.Advance | spido-pg/src/pool.cpp:72-229 | one step of the protocol, added to those taken |
| TokenBucket.AdmissionBound | spido-pg/src/token_bucket.cpp:19-100 | over every window of every run on a non-decreasing clock, the level stays within the capacity and the cost granted is at most what was available at the start, plus the rate integrated over time, plus the capacity credited by resets from zero |
| TokenBucket.FreshBound | spido-pg/src/token_bucket.cpp:19-100 | from a new bucket the total granted is at most the integral plus the credits |
| TokenBucket.TightExact | spido-pg/src/token_bucket.cpp:45-100 | the bound is met with equality when no reset, no lost swap and no full bucket intervenes |
| TokenBucket.StepPaid | spido-pg/src/token_bucket.cpp:19-100 | what one call grants and leaves is paid for by what was there, what accrued and what was credited |
| TokenBucket.ResetKeepsIff | spido-pg/src/token_bucket.cpp:19-43 | a retune keeps what a caller would have found exactly when nothing usable had accrued since the last refill |
| TokenBucket.ResetsStarve | spido-pg/src/token_bucket.cpp:42 | an empty bucket retuned again and again with no call in between stays empty, whatever the rate |
| TokenBucket.AvailableGrows | spido-pg/src/token_bucket.cpp:45-54 | a bucket left alone never loses tokens, gains at most its rate and stays within capacity |
| TokenBucket.SecondYieldsRate | spido-pg/src/token_bucket.cpp:45-54 | one second at a rate yields that many tokens, and n seconds n times as many |
| TokenBucket.RefillsBySecond | spido-pg/src/token_bucket.cpp:45-54 | after n seconds a caller finds n times the rate more, up to the capacity |
| TokenBucket.WindowBound | spido-pg/src/token_bucket.cpp:45-100 | in a window without retunes the cost granted is at most the capacity plus the rate over the time of the window |
| TokenBucket.Limiter.Reset | spido-pg/src/token_bucket.cpp:19-43 | the state after a retune |
| TokenBucket.Limiter.Refilled | spido-pg/src/token_bucket.cpp:45-54 | the lazy refill, capped |
| TokenBucket.Limiter.TryAcquire | spido-pg/src/token_bucket.cpp:56-100 | up to eight attempts are one event of the run; a refusal means no capacity, too few tokens, or eight lost swaps |
| TokenBucket.Limiter.constructor | spido-pg/include/spido_pg/token_bucket.h:31-34 | a new bucket is an empty one that was reset |

## Left out

- WalLog.DurableSurvivesCrash: covers handles issued before any partial write or oversize record, behind a file of whole records. What happens behind a partial write is in `WalEdges.TornWriteBlocksIff`; a sync is taken to succeed, as the code does not look at its result. Appends after a compaction are not modelled: the code does not move its write position, and supports no recovery claim there.
- WalFraming.Deliver: a body too short for its fixed fields ends the scan; the source reads past such a body, which no writer produces.
- HttpPipeline.SplitIndependentIff: a limit of at least one byte; with zero no receive is ever asked for.
- HttpPipeline.MultishotIff: receives that stay armed throughout and are all processed; a close that completes earlier only drops the last of them, and a kernel that ends the multishot receive falls back to asking anew.
- HttpParser.Run: positions and sums of sizes are unbounded integers; a buffer near the largest size is not modelled.
- BatchWriter.Table.Write: configured tables only; a write to any other table raises its dirty count and queues nothing.
- BatchWriter.Table.FlushOnce: batch sizes of at least one; with zero the flusher takes no rows.
- BatchWriter.WrittenIsStored: state tables; a failed attempt is taken to have had no effect in the database.
- QueryCache.HitsWereStored: time-to-live is not checked by a first-level hit, so no freshness is claimed.
- QueryInvalidation.MissesUntilPut: the calling thread only, since the first levels of other threads are deliberately not cleared.
- Shards.ReachIff: lookups in the shared tables can miss a resident key behind a hole; the theorems about reads are therefore about what a hit returns.
- TokenBucket.AdmissionBound: reals instead of doubles, and one step per call, although level and timestamp are separate atomics.
- Pool.PgPool.Checkout: other threads act in its pauses, not between taking a connection and judging it; the interleavings there are those of `Pool.RunSafe`. A pool being destroyed is not modelled.
- Sockets, io_uring, TLS, AF_XDP and the PostgreSQL wire protocol: kernel and foreign library behaviour decides there.
- C++ memory ordering, and races on single cache slots between a probe and a write.
- NULL and typed column comparison inside PostgreSQL: keys and versions of a batch row are values.
- JSON numbers: a floating-point number is given by its text, an unsigned integer above the signed range is not modelled.
- The prepared-statement cache of the pool, metrics counters and pressure rebalancing: threshold branches and bookkeeping without a law of their own.
- Signature checks, hashing for credentials, the code generator and its templates.
